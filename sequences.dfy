/** Facts about sequences shared by the summariser and the file manager. */
module Sequences {

  /** `a` is `b` with some elements left out, the rest kept in order. */
  ghost predicate IsSubsequence<T>(a: seq<T>, b: seq<T>)
    decreases |b|
  {
    a == [] || (b != [] && (if a[0] == b[0] then IsSubsequence(a[1..], b[1..]) else IsSubsequence(a, b[1..])))
  }

  function Min(a: int, b: int): int { if a < b then a else b }

  /** No element occurs twice. */
  predicate Distinct<T(==)>(s: seq<T>) {
    forall i, j :: 0 <= i < j < |s| ==> s[i] != s[j]
  }

  lemma DistinctTail<T>(s: seq<T>)
    requires Distinct(s) && s != []
    ensures s[0] !in s[1..] && Distinct(s[1..])
  {
  }

  /** How many entries of a mask are set, counted from the back as a loop over it would. */
  function CountTrue(mask: seq<bool>): (n: nat)
    ensures n <= |mask|
    decreases |mask|
  {
    if mask == [] then 0 else CountTrue(mask[..|mask| - 1]) + (if mask[|mask| - 1] then 1 else 0)
  }

  /** Setting an unset entry adds one to the count. */
  lemma {:induction false} CountTrueSet(mask: seq<bool>, i: nat)
    requires i < |mask| && !mask[i]
    ensures CountTrue(mask[i := true]) == CountTrue(mask) + 1
    decreases |mask|
  {
    var m := mask[i := true];
    var last := |mask| - 1;
    if i < last {
      assert m[..last] == mask[..last][i := true];
      CountTrueSet(mask[..last], i);
    } else {
      assert m[..last] == mask[..last];
    }
  }

  /** A mask with fewer set entries than its length has an unset one. */
  lemma {:induction false} CountTrueBelowLength(mask: seq<bool>)
    requires CountTrue(mask) < |mask|
    ensures exists i :: 0 <= i < |mask| && !mask[i]
    decreases |mask|
  {
    var last := |mask| - 1;
    if mask[last] {
      CountTrueBelowLength(mask[..last]);
      var i :| 0 <= i < last && !mask[..last][i];
      assert !mask[i];
    }
  }

  /** All set. */
  lemma {:induction false} CountTrueAll(mask: seq<bool>)
    requires forall i :: 0 <= i < |mask| ==> mask[i]
    ensures CountTrue(mask) == |mask|
    decreases |mask|
  {
    if mask != [] {
      CountTrueAll(mask[..|mask| - 1]);
    }
  }

  /** None set. */
  lemma {:induction false} CountTrueNone(mask: seq<bool>)
    requires forall i :: 0 <= i < |mask| ==> !mask[i]
    ensures CountTrue(mask) == 0
    decreases |mask|
  {
    if mask != [] {
      CountTrueNone(mask[..|mask| - 1]);
    }
  }

  /** Position of the first occurrence of `x`. */
  function FirstIndex<T(==)>(s: seq<T>, x: T): (i: nat)
    requires x in s
    ensures i < |s| && s[i] == x && x !in s[..i]
    decreases |s|
  {
    if s[0] == x then 0 else 1 + FirstIndex(s[1..], x)
  }

  lemma FirstIndexUnique<T>(s: seq<T>, x: T, i: nat)
    requires i < |s| && s[i] == x && x !in s[..i]
    ensures FirstIndex(s, x) == i
  {
  }

  /** Appending does not move a first occurrence. */
  lemma FirstIndexAppend<T>(s: seq<T>, t: seq<T>, x: T)
    requires x in s
    ensures FirstIndex(s + t, x) == FirstIndex(s, x)
  {
    var f := FirstIndex(s, x);
    assert (s + t)[..f] == s[..f];
    FirstIndexUnique(s + t, x, f);
  }

  /** The first occurrence of a new last element is the last position. */
  lemma FirstIndexLast<T>(s: seq<T>, x: T)
    requires x !in s
    ensures FirstIndex(s + [x], x) == |s|
  {
    assert (s + [x])[..|s|] == s;
    FirstIndexUnique(s + [x], x, |s|);
  }

  lemma {:induction false} SubsequenceExtend<T>(a: seq<T>, b: seq<T>, x: T)
    requires IsSubsequence(a, b)
    ensures IsSubsequence(a, b + [x])
    decreases |b|
  {
    if a != [] {
      assert (b + [x])[0] == b[0] && (b + [x])[1..] == b[1..] + [x];
      if a[0] == b[0] {
        SubsequenceExtend(a[1..], b[1..], x);
      } else {
        SubsequenceExtend(a, b[1..], x);
      }
    }
  }

  lemma {:induction false} SubsequenceLast<T>(b: seq<T>, x: T)
    ensures IsSubsequence([x], b + [x])
    decreases |b|
  {
    if b == [] {
      assert [x][1..] == [];
    } else {
      assert (b + [x])[1..] == b[1..] + [x];
      if b[0] == x {
        assert [x][1..] == [];
      } else {
        SubsequenceLast(b[1..], x);
      }
    }
  }

  /** Appending the same element to both keeps one a subsequence of the other. */
  lemma {:induction false} SubsequenceAppend<T>(a: seq<T>, b: seq<T>, x: T)
    requires IsSubsequence(a, b)
    ensures IsSubsequence(a + [x], b + [x])
    decreases |b|
  {
    if a == [] {
      assert a + [x] == [x];
      SubsequenceLast(b, x);
    } else {
      assert (b + [x])[0] == b[0] && (b + [x])[1..] == b[1..] + [x];
      assert (a + [x])[0] == a[0] && (a + [x])[1..] == a[1..] + [x];
      if a[0] == b[0] {
        SubsequenceAppend(a[1..], b[1..], x);
      } else {
        SubsequenceAppend(a, b[1..], x);
      }
    }
  }
}

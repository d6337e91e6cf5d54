/** The parts of Python's `str` that the core relies on: `isspace`, `splitlines`, `strip`,
    `split` on one character, `join`, `endswith`, the `in` test for substrings and ASCII `lower`. */
module Strings {

  /** Python's `str.isspace()`: the characters `strip()` removes and the regex class `\s` matches. */
  predicate IsSpace(c: char) {
    c == ' ' || ('\t' <= c <= '\r') || ('\U{1C}' <= c <= '\U{1F}') || c == '\U{85}' || c == '\U{A0}'
    || c == '\U{1680}' || ('\U{2000}' <= c <= '\U{200A}') || c == '\U{2028}' || c == '\U{2029}'
    || c == '\U{202F}' || c == '\U{205F}' || c == '\U{3000}'
  }

  predicate IsNotSpace(c: char) { !IsSpace(c) }

  /** The line boundaries of Python's `str.splitlines()` ("\r\n" counts as one, see SplitLines). */
  predicate IsLineBreak(c: char) {
    ('\n' <= c <= '\r') || ('\U{1C}' <= c <= '\U{1E}') || c == '\U{85}' || c == '\U{2028}' || c == '\U{2029}'
  }

  predicate NoLineBreak(s: string) {
    forall j :: 0 <= j < |s| ==> !IsLineBreak(s[j])
  }

  predicate IsAsciiLetter(c: char) { 'a' <= c <= 'z' || 'A' <= c <= 'Z' }

  predicate IsAsciiUpper(c: char) { 'A' <= c <= 'Z' }

  /** `str.lower()` restricted to ASCII: the texts it is applied to in the core hold no other letters. */
  function Lower(s: string): string {
    seq(|s|, i requires 0 <= i < |s| => if IsAsciiUpper(s[i]) then (s[i] as int + 32) as char else s[i])
  }

  predicate HasNoUpper(s: string) {
    forall i :: 0 <= i < |s| ==> !IsAsciiUpper(s[i])
  }

  /** The characters of `s` that satisfy `p`, in order. */
  function Keep(s: string, p: char -> bool): string
    decreases |s|
  {
    if s == [] then [] else (if p(s[0]) then [s[0]] else []) + Keep(s[1..], p)
  }

  /** Dropping every whitespace character: two strings that agree on it differ only in whitespace. */
  function NonSpace(s: string): string {
    Keep(s, IsNotSpace)
  }

  lemma {:induction false} KeepAppend(a: string, b: string, p: char -> bool)
    ensures Keep(a + b, p) == Keep(a, p) + Keep(b, p)
    decreases |a|
  {
    if a != [] {
      var head := if p(a[0]) then [a[0]] else [];
      assert (a + b)[0] == a[0];
      assert (a + b)[1..] == a[1..] + b;
      KeepAppend(a[1..], b, p);
      calc {
        Keep(a + b, p);
        head + Keep(a[1..] + b, p);
        head + (Keep(a[1..], p) + Keep(b, p));
        (head + Keep(a[1..], p)) + Keep(b, p);
        Keep(a, p) + Keep(b, p);
      }
    } else {
      assert a + b == b;
    }
  }

  lemma {:induction false} KeepNone(s: string, p: char -> bool)
    requires forall i :: 0 <= i < |s| ==> !p(s[i])
    ensures Keep(s, p) == []
    decreases |s|
  {
    if s != [] {
      KeepNone(s[1..], p);
    }
  }

  lemma {:induction false} KeepAll(s: string, p: char -> bool)
    requires forall i :: 0 <= i < |s| ==> p(s[i])
    ensures Keep(s, p) == s
    decreases |s|
  {
    if s != [] {
      KeepAll(s[1..], p);
    }
  }

  /** Everything `Keep` returns satisfies `p` and occurs in the input. */
  lemma {:induction false} KeepSound(s: string, p: char -> bool)
    ensures forall i :: 0 <= i < |Keep(s, p)| ==> p(Keep(s, p)[i]) && Keep(s, p)[i] in s
    decreases |s|
  {
    if s != [] {
      KeepSound(s[1..], p);
    }
  }

  /** Filtering by a weaker test first changes nothing. */
  lemma {:induction false} KeepKeep(s: string, p: char -> bool, q: char -> bool)
    requires forall c :: q(c) ==> p(c)
    ensures Keep(Keep(s, p), q) == Keep(s, q)
    decreases |s|
  {
    if s != [] {
      var head := if p(s[0]) then [s[0]] else [];
      KeepAppend(head, Keep(s[1..], p), q);
      KeepKeep(s[1..], p, q);
    }
  }

  /** `NonSpace(s)` is empty exactly when `s` is all whitespace. */
  lemma {:induction false} NonSpaceEmpty(s: string)
    ensures NonSpace(s) == [] <==> forall i :: 0 <= i < |s| ==> IsSpace(s[i])
    decreases |s|
  {
    if s != [] {
      NonSpaceEmpty(s[1..]);
      assert forall i :: 1 <= i < |s| ==> s[i] == s[1..][i - 1];
    }
  }

  /** Leading characters satisfying `drop` removed (`str.lstrip`). */
  function TrimStart(s: string, drop: char -> bool): (r: string)
    ensures |r| <= |s|
    decreases |s|
  {
    if s != [] && drop(s[0]) then TrimStart(s[1..], drop) else s
  }

  /** What `TrimStart` leaves is a suffix that starts with a kept character, and everything
      before it is dropped. */
  lemma {:induction false} TrimStartSpec(s: string, drop: char -> bool)
    ensures TrimStart(s, drop) == s[|s| - |TrimStart(s, drop)|..]
    ensures TrimStart(s, drop) == [] || !drop(TrimStart(s, drop)[0])
    ensures forall i :: 0 <= i < |s| - |TrimStart(s, drop)| ==> drop(s[i])
    decreases |s|
  {
    if s != [] && drop(s[0]) {
      TrimStartSpec(s[1..], drop);
      forall i | 1 <= i < |s| - |TrimStart(s, drop)|
        ensures drop(s[i])
      {
        assert s[i] == s[1..][i - 1];
      }
    }
  }

  /** Trimming the front of `p + z` stops inside `p` when `p` ends with a kept character. */
  lemma {:induction false} TrimStartAppend(p: string, z: string, drop: char -> bool)
    requires p != [] && !drop(p[|p| - 1])
    ensures TrimStart(p + z, drop) == TrimStart(p, drop) + z
    ensures TrimStart(p, drop) != [] && TrimStart(p, drop)[|TrimStart(p, drop)| - 1] == p[|p| - 1]
    decreases |p|
  {
    if drop(p[0]) {
      assert (p + z)[0] == p[0] && (p + z)[1..] == p[1..] + z;
      TrimStartAppend(p[1..], z, drop);
    }
  }

  /** Trimming the front of `w + y` removes all of `w` when every character of `w` is dropped
      and `y` starts with a kept one. */
  lemma {:induction false} TrimStartDropsAll(w: string, y: string, drop: char -> bool)
    requires forall i :: 0 <= i < |w| ==> drop(w[i])
    requires y == [] || !drop(y[0])
    ensures TrimStart(w + y, drop) == y
    decreases |w|
  {
    if w == [] {
      assert w + y == y;
    } else {
      assert (w + y)[0] == w[0] && (w + y)[1..] == w[1..] + y;
      TrimStartDropsAll(w[1..], y, drop);
    }
  }

  /** Trailing characters satisfying `drop` removed (`str.rstrip`). */
  function TrimEnd(s: string, drop: char -> bool): (r: string)
    ensures |r| <= |s|
    decreases |s|
  {
    if s != [] && drop(s[|s| - 1]) then TrimEnd(s[..|s| - 1], drop) else s
  }

  /** What `TrimEnd` leaves is a prefix that ends with a kept character, and everything after it
      is dropped. */
  lemma {:induction false} TrimEndSpec(s: string, drop: char -> bool)
    ensures TrimEnd(s, drop) == s[..|TrimEnd(s, drop)|]
    ensures TrimEnd(s, drop) == [] || !drop(TrimEnd(s, drop)[|TrimEnd(s, drop)| - 1])
    ensures forall i :: |TrimEnd(s, drop)| <= i < |s| ==> drop(s[i])
    decreases |s|
  {
    if s != [] && drop(s[|s| - 1]) {
      var pre := s[..|s| - 1];
      TrimEndSpec(pre, drop);
      forall i | |TrimEnd(s, drop)| <= i < |s| - 1
        ensures drop(s[i])
      {
        assert s[i] == pre[i];
      }
    }
  }

  /** `str.strip(chars)` for the characters satisfying `drop`. */
  function StripWhere(s: string, drop: char -> bool): string {
    TrimEnd(TrimStart(s, drop), drop)
  }

  predicate IsStripped(s: string, drop: char -> bool) {
    s == [] || (!drop(s[0]) && !drop(s[|s| - 1]))
  }

  /** `str.strip()` with no argument. */
  function Strip(s: string): string {
    StripWhere(s, IsSpace)
  }

  /** The stripped string is the slice `s[a..b]`, only `drop` characters lie outside it,
      and none of them is left at either end. */
  lemma StripSlice(s: string, drop: char -> bool) returns (a: nat, b: nat)
    ensures a <= b <= |s| && StripWhere(s, drop) == s[a..b]
    ensures forall i :: 0 <= i < a ==> drop(s[i])
    ensures forall i :: b <= i < |s| ==> drop(s[i])
    ensures IsStripped(StripWhere(s, drop), drop)
  {
    var t := TrimStart(s, drop);
    var r := TrimEnd(t, drop);
    TrimStartSpec(s, drop);
    TrimEndSpec(t, drop);
    a := |s| - |t|;
    b := a + |r|;
    assert r == s[a..b];
    forall i | b <= i < |s|
      ensures drop(s[i])
    {
      assert s[i] == t[i - a];
    }
    assert r != [] ==> r[0] == t[0] && !drop(r[0]);
  }

  lemma StripIdentity(s: string, drop: char -> bool)
    requires IsStripped(s, drop)
    ensures StripWhere(s, drop) == s
  {
  }

  /** Stripping only removes characters that `p` drops anyway. */
  lemma ThreeSlices(s: string, a: nat, b: nat)
    requires a <= b <= |s|
    ensures s == s[..a] + s[a..b] + s[b..]
  {
  }

  lemma KeepBetween(x: string, r: string, z: string, p: char -> bool)
    requires Keep(x, p) == [] && Keep(z, p) == []
    ensures Keep(x + r + z, p) == Keep(r, p)
  {
    KeepAppend(x + r, z, p);
    KeepAppend(x, r, p);
  }

  /** Dropping a stretch that `p` rejects entirely. */
  lemma KeepGap(x: string, w: string, z: string, p: char -> bool)
    requires Keep(w, p) == []
    ensures Keep(x + w + z, p) == Keep(x, p) + Keep(z, p)
  {
    KeepAppend(x + w, z, p);
    KeepAppend(x, w, p);
  }

  lemma StripKeep(s: string, drop: char -> bool, p: char -> bool)
    requires forall c :: drop(c) ==> !p(c)
    ensures Keep(StripWhere(s, drop), p) == Keep(s, p)
  {
    var a, b := StripSlice(s, drop);
    ThreeSlices(s, a, b);
    KeepDropped(s[..a], drop, p);
    KeepDropped(s[b..], drop, p);
    KeepBetween(s[..a], s[a..b], s[b..], p);
  }

  lemma KeepDropped(x: string, drop: char -> bool, p: char -> bool)
    requires forall c :: drop(c) ==> !p(c)
    requires forall i :: 0 <= i < |x| ==> drop(x[i])
    ensures Keep(x, p) == []
  {
    KeepNone(x, p);
  }

  /** Stripping whitespace keeps every non-whitespace character, in order. */
  lemma StripNonSpace(s: string)
    ensures NonSpace(Strip(s)) == NonSpace(s)
  {
    StripKeep(s, IsSpace, IsNotSpace);
  }

  /** Position of the first line boundary in `s`, or `|s|` when there is none. */
  function LineBreakIndex(s: string): (i: nat)
    ensures i <= |s|
    ensures i < |s| ==> IsLineBreak(s[i])
    ensures NoLineBreak(s[..i])
    decreases |s|
  {
    if s == [] then 0 else if IsLineBreak(s[0]) then 0 else 1 + LineBreakIndex(s[1..])
  }

  /** Where the line boundary at `i` ends: "\r\n" is one boundary of two characters. */
  function BreakEnd(s: string, i: nat): (e: nat)
    requires i < |s| && IsLineBreak(s[i])
    ensures i < e <= |s|
    ensures forall j :: i <= j < e ==> IsLineBreak(s[j])
  {
    if s[i] == '\r' && i + 1 < |s| && s[i + 1] == '\n' then i + 2 else i + 1
  }

  /** Python's `str.splitlines()`: no line keeps its boundary, and a final boundary
      does not start an empty last line. */
  function SplitLines(s: string): (lines: seq<string>)
    ensures forall k :: 0 <= k < |lines| ==> NoLineBreak(lines[k])
    decreases |s|
  {
    if s == [] then []
    else
      var i := LineBreakIndex(s);
      if i == |s| then [s] else [s[..i]] + SplitLines(s[BreakEnd(s, i)..])
  }

  lemma LineBreakIndexAfter(c: string, x: char, rest: string)
    requires NoLineBreak(c) && IsLineBreak(x)
    ensures LineBreakIndex(c + [x] + rest) == |c|
  {
    var s := c + [x] + rest;
    assert s[|c|] == x;
    assert s[..|c|] == c;
  }

  /** Splitting lines joined by "\n" gives them back, when none is empty or holds a boundary. */
  lemma {:induction false} SplitLinesJoin(lines: seq<string>)
    requires forall k :: 0 <= k < |lines| ==> lines[k] != [] && NoLineBreak(lines[k])
    ensures SplitLines(Join(lines, '\n')) == lines
    decreases |lines|
  {
    if |lines| >= 2 {
      var c := lines[0];
      var rest := Join(lines[1..], '\n');
      var s := c + ['\n'] + rest;
      assert Join(lines, '\n') == s;
      LineBreakIndexAfter(c, '\n', rest);
      assert s[..|c|] == c;
      assert BreakEnd(s, |c|) == |c| + 1;
      assert s[|c| + 1..] == rest;
      SplitLinesJoin(lines[1..]);
    }
  }

  /** Splitting into lines only removes line boundaries, which are whitespace. */
  lemma {:induction false} SplitLinesNonSpace(s: string)
    ensures NonSpace(Flatten(SplitLines(s))) == NonSpace(s)
    decreases |s|
  {
    if s != [] {
      var i := LineBreakIndex(s);
      if i == |s| {
        assert [s][1..] == [];
        assert Flatten(SplitLines(s)) == s + "" == s;
      } else {
        var e := BreakEnd(s, i);
        var lines := SplitLines(s[e..]);
        SplitLinesNonSpace(s[e..]);
        ThreeSlices(s, i, e);
        KeepDropped(s[i..e], IsSpace, IsNotSpace);
        KeepGap(s[..i], s[i..e], s[e..], IsNotSpace);
        assert Flatten(SplitLines(s)) == s[..i] + Flatten(lines);
        KeepAppend(s[..i], Flatten(lines), IsNotSpace);
      }
    }
  }

  /** Position of the first `c` in `s`, or `|s|` when there is none. */
  function IndexOf(s: string, c: char): (i: nat)
    ensures i <= |s|
    ensures i < |s| ==> s[i] == c
    ensures c !in s[..i]
    decreases |s|
  {
    if s == [] then 0 else if s[0] == c then 0 else 1 + IndexOf(s[1..], c)
  }

  lemma IndexOfAfter(p: string, c: char, rest: string)
    requires c !in p
    ensures IndexOf(p + [c] + rest, c) == |p|
  {
    var s := p + [c] + rest;
    assert s[|p|] == c;
    assert s[..|p|] == p;
  }

  /** Python's `s.split(sep)` for a one-character separator. */
  function Split(s: string, sep: char): (parts: seq<string>)
    ensures |parts| >= 1
    ensures forall k :: 0 <= k < |parts| ==> sep !in parts[k]
    decreases |s|
  {
    var i := IndexOf(s, sep);
    if i == |s| then [s] else [s[..i]] + Split(s[i + 1..], sep)
  }

  /** Python's `sep.join(parts)` for a one-character separator. */
  function Join(parts: seq<string>, sep: char): string
    decreases |parts|
  {
    if |parts| == 0 then "" else if |parts| == 1 then parts[0] else parts[0] + [sep] + Join(parts[1..], sep)
  }

  /** Splitting a join gives back the parts when no part holds the separator. */
  lemma {:induction false} SplitJoin(parts: seq<string>, sep: char)
    requires |parts| >= 1
    requires forall k :: 0 <= k < |parts| ==> sep !in parts[k]
    ensures Split(Join(parts, sep), sep) == parts
    decreases |parts|
  {
    var s := Join(parts, sep);
    if |parts| == 1 {
      assert s[..|s|] == s;
    } else {
      var p, rest := parts[0], parts[1..];
      var t := Join(rest, sep);
      assert s == p + [sep] + t;
      assert s[..|p|] == p && s[|p| + 1..] == t;
      IndexOfAfter(p, sep, t);
      assert Split(s, sep) == [p] + Split(t, sep);
      forall k | 0 <= k < |rest|
        ensures sep !in rest[k]
      {
        assert rest[k] == parts[k + 1];
      }
      SplitJoin(rest, sep);
      assert parts == [p] + rest;
    }
  }

  /** Joining a split gives back the string. */
  lemma {:induction false} JoinSplit(s: string, sep: char)
    ensures Join(Split(s, sep), sep) == s
    decreases |s|
  {
    var i := IndexOf(s, sep);
    if i < |s| {
      var rest := Split(s[i + 1..], sep);
      JoinSplit(s[i + 1..], sep);
      assert Split(s, sep) == [s[..i]] + rest;
      assert Join([s[..i]] + rest, sep) == s[..i] + [sep] + Join(rest, sep);
      assert s == s[..i] + [sep] + s[i + 1..];
    } else {
      assert s[..i] == s;
    }
  }

  /** Concatenation of a sequence of strings. */
  function Flatten(ss: seq<string>): string
    decreases |ss|
  {
    if ss == [] then "" else ss[0] + Flatten(ss[1..])
  }

  lemma {:induction false} FlattenAppend(a: seq<string>, b: seq<string>)
    ensures Flatten(a + b) == Flatten(a) + Flatten(b)
    decreases |a|
  {
    if a != [] {
      assert (a + b)[0] == a[0];
      assert (a + b)[1..] == a[1..] + b;
      FlattenAppend(a[1..], b);
      calc {
        Flatten(a + b);
        a[0] + Flatten(a[1..] + b);
        a[0] + (Flatten(a[1..]) + Flatten(b));
        (a[0] + Flatten(a[1..])) + Flatten(b);
      }
    } else {
      assert a + b == b;
    }
  }

  lemma FlattenCons(x: string, rest: seq<string>)
    ensures Flatten([x] + rest) == x + Flatten(rest)
  {
    assert ([x] + rest)[0] == x;
    assert ([x] + rest)[1..] == rest;
  }

  lemma FlattenOne(x: string)
    ensures Flatten([x]) == x
  {
    assert x + "" == x;
    FlattenCons(x, []);
    assert [x] + [] == [x];
  }

  /** A join with a whitespace separator differs from the plain concatenation only in whitespace. */
  lemma {:induction false} JoinNonSpace(parts: seq<string>, sep: char)
    requires IsSpace(sep)
    ensures NonSpace(Join(parts, sep)) == NonSpace(Flatten(parts))
    decreases |parts|
  {
    if |parts| == 1 {
      assert parts[1..] == [];
      assert Flatten(parts) == parts[0] + Flatten([]) == parts[0];
    } else if |parts| > 1 {
      JoinNonSpace(parts[1..], sep);
      KeepNone([sep], IsNotSpace);
      KeepAppend(parts[0] + [sep], Join(parts[1..], sep), IsNotSpace);
      KeepAppend(parts[0], [sep], IsNotSpace);
      KeepAppend(parts[0], Flatten(parts[1..]), IsNotSpace);
    }
  }

  /** Python's `s.endswith(suffix)`. */
  predicate EndsWith(s: string, suffix: string) {
    |suffix| <= |s| && s[|s| - |suffix|..] == suffix
  }

  /** Python's `sub in s` for strings, computed by scanning. */
  predicate Contains(s: string, sub: string)
    decreases |s|
  {
    sub <= s || (s != [] && Contains(s[1..], sub))
  }

  /** `sub` occurs in `s` at offset `i`. */
  ghost predicate OccursAt(s: string, sub: string, i: int) {
    0 <= i && i + |sub| <= |s| && s[i..i + |sub|] == sub
  }

  /** An occurrence in `s[1..]` is an occurrence in `s` one place further on. */
  lemma OccursShift(s: string, sub: string, i: nat)
    requires s != []
    ensures OccursAt(s[1..], sub, i) <==> OccursAt(s, sub, i + 1)
  {
    if i + |sub| <= |s| - 1 {
      assert s[1..][i..i + |sub|] == s[i + 1..i + 1 + |sub|];
    }
  }

  /** The scan finds `sub` exactly when it occurs at some offset. */
  lemma {:induction false} ContainsIff(s: string, sub: string)
    ensures Contains(s, sub) <==> exists i :: OccursAt(s, sub, i)
    decreases |s|
  {
    if sub <= s {
      assert OccursAt(s, sub, 0);
    } else if s != [] {
      ContainsIff(s[1..], sub);
      if Contains(s[1..], sub) {
        var i :| OccursAt(s[1..], sub, i);
        OccursShift(s, sub, i);
      } else {
        forall i | OccursAt(s, sub, i)
          ensures false
        {
          assert i != 0;
          OccursShift(s, sub, i - 1);
        }
      }
    }
  }

  /** The text made by appending `f(x)` for every `x` of `xs` in turn, as a loop that builds a
      string with `+=` does. */
  function ConcatMap<T>(xs: seq<T>, f: T -> string): string
    decreases |xs|
  {
    if xs == [] then "" else ConcatMap(xs[..|xs| - 1], f) + f(xs[|xs| - 1])
  }

  /** One more item appends its text, after whatever `prefix` the text follows. */
  lemma ConcatMapStep<T>(prefix: string, xs: seq<T>, f: T -> string, i: nat)
    requires i < |xs|
    ensures prefix + ConcatMap(xs[..i + 1], f) == prefix + ConcatMap(xs[..i], f) + f(xs[i])
  {
    assert xs[..i + 1][..i] == xs[..i];
  }

  /** The text of two runs of items is the two texts one after the other. */
  lemma {:induction false} ConcatMapAppend<T>(xs: seq<T>, ys: seq<T>, f: T -> string)
    ensures ConcatMap(xs + ys, f) == ConcatMap(xs, f) + ConcatMap(ys, f)
    decreases |ys|
  {
    if ys == [] {
      assert xs + ys == xs;
    } else {
      var n := |ys| - 1;
      assert (xs + ys)[..|xs + ys| - 1] == xs + ys[..n];
      ConcatMapAppend(xs, ys[..n], f);
    }
  }

  /** An item in the middle contributes its own text between the texts of its neighbours. */
  lemma ConcatMapMiddle<T>(before: seq<T>, x: T, after: seq<T>, f: T -> string)
    ensures ConcatMap(before + [x] + after, f) == ConcatMap(before, f) + f(x) + ConcatMap(after, f)
  {
    ConcatMapAppend(before + [x], after, f);
    ConcatMapAppend(before, [x], f);
    assert [x][..0] == [];
    assert ConcatMap([x], f) == "" + f(x) == f(x);
  }
}

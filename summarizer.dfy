/** The text-processing steps of `AdvancedSummarizer` (summarizer.py) that do not depend on a
    trained model: cleaning the input, choosing sentences from given scores, picking the most
    frequent word pairs, laying out the structured summary and the site-wide meta-summary.
    Sentence and word tokenisation (NLTK), TF-IDF scoring (scikit-learn), the stop-word list and
    the BERT model come in as parameters. */
module Summarizer {
  import opened Strings
  import opened Sequences
  import opened TextCleanup

  // ---------------------------------------------------------------- preprocess_text

  /** No '<' opens a tag any more: each one is directly followed by '>' or has no '>' after it. */
  predicate NoTag(s: string) {
    forall i :: 0 <= i < |s| && s[i] == '<' ==> (i + 1 < |s| && s[i + 1] == '>') || '>' !in s[i + 1..]
  }

  lemma NoTagCons(c: char, r: string)
    requires NoTag(r)
    requires c == '<' ==> (r != [] && r[0] == '>') || '>' !in r
    ensures NoTag([c] + r)
  {
    var s := [c] + r;
    forall i | 0 <= i < |s| && s[i] == '<'
      ensures (i + 1 < |s| && s[i + 1] == '>') || '>' !in s[i + 1..]
    {
      if i > 0 {
        assert s[i] == r[i - 1];
        assert s[i + 1..] == r[i..];
      } else {
        assert s[1..] == r;
      }
    }
  }

  /** `re.sub(r'<[^>]+>', '', s)`: scanning from the left, a '<' whose next '>' comes at least two
      characters later starts a tag, and the tag up to that '>' is removed. */
  function StripTags(s: string): (r: string)
    ensures forall c :: c in r ==> c in s
    ensures s != [] && s[0] != '<' ==> r != [] && r[0] == s[0]
    ensures NoTag(r)
    decreases |s|
  {
    if s == [] then []
    else
      var k := IndexOf(s[1..], '>');
      if s[0] == '<' && 1 <= k < |s| - 1 then StripTags(s[k + 2..])
      else
        var rest := StripTags(s[1..]);
        NoTagCons(s[0], rest);
        [s[0]] + rest
  }

  /** A text without '<' passes through unchanged, and so does everything after it. */
  lemma {:induction false} StripTagsPlainPrefix(a: string, b: string)
    requires forall i :: 0 <= i < |a| ==> a[i] != '<'
    ensures StripTags(a + b) == a + StripTags(b)
    decreases |a|
  {
    if a == [] {
      assert a + b == b;
    } else {
      assert [a[0]] + (a[1..] + StripTags(b)) == a + StripTags(b);
      StripTagsPlainStep(a, b);
      StripTagsPlainPrefix(a[1..], b);
    }
  }

  lemma StripTagsPlainStep(a: string, b: string)
    requires a != [] && a[0] != '<'
    ensures StripTags(a + b) == [a[0]] + StripTags(a[1..] + b)
  {
    assert (a + b)[0] == a[0] && (a + b)[1..] == a[1..] + b;
  }

  /** A tag "<t>" with a non-empty `t` free of '>' is removed and the scan goes on after it. */
  lemma StripTagsTag(t: string, b: string)
    requires t != [] && '>' !in t
    ensures StripTags("<" + t + ">" + b) == StripTags(b)
  {
    var s := "<" + t + ">" + b;
    assert s[1..] == t + ['>'] + b;
    IndexOfAfter(t, '>', b);
    assert s[|t| + 2..] == b;
  }

  /** The text around a tag survives: text before the first tag is kept as it is, the tag is
      removed and the text after it is processed in turn. */
  lemma StripTagsKeepsOutside(a: string, t: string, b: string)
    requires '<' !in a && t != [] && '>' !in t
    ensures StripTags(a + "<" + t + ">" + b) == a + StripTags(b)
  {
    assert a + "<" + t + ">" + b == a + ("<" + t + ">" + b);
    assert forall i :: 0 <= i < |a| ==> a[i] in a;
    StripTagsPlainPrefix(a, "<" + t + ">" + b);
    StripTagsTag(t, b);
  }

  /** Every whitespace character is a plain space and no two whitespace characters are adjacent. */
  predicate SingleSpaced(s: string) {
    (forall i :: 0 <= i < |s| && IsSpace(s[i]) ==> s[i] == ' ')
    && forall i :: 0 <= i < |s| - 1 ==> !(IsSpace(s[i]) && IsSpace(s[i + 1]))
  }

  /** `re.sub(r'\s+', ' ', s)`: every maximal run of whitespace becomes one space. */
  function CollapseSpaces(s: string): (r: string)
    ensures s != [] && !IsSpace(s[0]) ==> r != [] && r[0] == s[0]
    decreases |s|
  {
    if s == [] then []
    else if IsSpace(s[0]) then [' '] + CollapseSpaces(TrimStart(s[1..], IsSpace))
    else [s[0]] + CollapseSpaces(s[1..])
  }

  /** The result of collapsing is single-spaced. */
  lemma {:induction false} CollapseSpacesSingleSpaced(s: string)
    ensures SingleSpaced(CollapseSpaces(s))
    decreases |s|
  {
    if s != [] {
      if IsSpace(s[0]) {
        var t := TrimStart(s[1..], IsSpace);
        TrimStartSpec(s[1..], IsSpace);
        CollapseSpacesSingleSpaced(t);
        SingleSpacedCons(' ', CollapseSpaces(t));
      } else {
        CollapseSpacesSingleSpaced(s[1..]);
        SingleSpacedCons(s[0], CollapseSpaces(s[1..]));
      }
    }
  }

  lemma SingleSpacedCons(c: char, r: string)
    requires SingleSpaced(r)
    requires IsSpace(c) ==> c == ' ' && (r == [] || !IsSpace(r[0]))
    ensures SingleSpaced([c] + r)
  {
    var s := [c] + r;
    forall i | 0 <= i < |s| && IsSpace(s[i])
      ensures s[i] == ' '
    {
      if i > 0 {
        assert s[i] == r[i - 1];
      }
    }
    forall i | 0 <= i < |s| - 1
      ensures !(IsSpace(s[i]) && IsSpace(s[i + 1]))
    {
      assert s[i + 1] == r[i];
      if i > 0 {
        assert s[i] == r[i - 1];
      }
    }
  }

  lemma NonSpaceCons(c: char, s: string)
    ensures NonSpace([c] + s) == (if IsSpace(c) then [] else [c]) + NonSpace(s)
  {
    assert ([c] + s)[0] == c && ([c] + s)[1..] == s;
  }

  lemma TrimStartNonSpace(s: string)
    ensures NonSpace(TrimStart(s, IsSpace)) == NonSpace(s)
  {
    var t := TrimStart(s, IsSpace);
    TrimStartSpec(s, IsSpace);
    var m := |s| - |t|;
    assert s == s[..m] + t;
    KeepNone(s[..m], IsNotSpace);
    KeepAppend(s[..m], t, IsNotSpace);
  }

  /** Collapsing whitespace keeps every other character, in order. */
  lemma {:induction false} CollapseNonSpace(s: string)
    ensures NonSpace(CollapseSpaces(s)) == NonSpace(s)
    decreases |s|
  {
    if s != [] {
      NonSpaceCons(s[0], s[1..]);
      assert s == [s[0]] + s[1..];
      if IsSpace(s[0]) {
        var t := TrimStart(s[1..], IsSpace);
        CollapseNonSpace(t);
        TrimStartNonSpace(s[1..]);
        NonSpaceCons(' ', CollapseSpaces(t));
      } else {
        CollapseNonSpace(s[1..]);
        NonSpaceCons(s[0], CollapseSpaces(s[1..]));
      }
    }
  }

  /** The text can be cut after any non-whitespace character: the two sides collapse
      independently. */
  lemma {:induction false} CollapseSplit(x: string, z: string)
    requires x == [] || !IsSpace(x[|x| - 1])
    ensures CollapseSpaces(x + z) == CollapseSpaces(x) + CollapseSpaces(z)
    decreases |x|
  {
    if x == [] {
      assert x + z == z;
    } else {
      var c, t := CollapseStep(x, z);
      CollapseSplit(t, z);
    }
  }

  /** One step of `CollapseSplit`: the first character, or the whitespace run at the front, gives
      the first character `c` of both sides, and what is left is a shorter text `t` that still
      ends with non-whitespace. */
  lemma CollapseStep(x: string, z: string) returns (c: char, t: string)
    requires x != [] && !IsSpace(x[|x| - 1])
    ensures |t| < |x| && (t == [] || !IsSpace(t[|t| - 1]))
    ensures CollapseSpaces(x) + CollapseSpaces(z) == [c] + (CollapseSpaces(t) + CollapseSpaces(z))
    ensures CollapseSpaces(x + z) == [c] + CollapseSpaces(t + z)
  {
    if IsSpace(x[0]) {
      t := CollapseSpaceStep(x, z);
      c := ' ';
    } else {
      CollapseOtherStep(x, z);
      c, t := x[0], x[1..];
    }
    ConcatAssoc([c], CollapseSpaces(t), CollapseSpaces(z));
  }

  /** Regrouping a concatenation, stated once so callers need not rediscover it. */
  lemma ConcatAssoc(a: string, b: string, c: string)
    ensures (a + b) + c == a + (b + c)
  {
  }

  lemma CollapseSpaceStep(x: string, z: string) returns (t: string)
    requires x != [] && IsSpace(x[0]) && !IsSpace(x[|x| - 1])
    ensures |t| < |x| && t != [] && !IsSpace(t[|t| - 1])
    ensures CollapseSpaces(x) == [' '] + CollapseSpaces(t)
    ensures CollapseSpaces(x + z) == [' '] + CollapseSpaces(t + z)
  {
    var p := x[1..];
    assert (x + z)[0] == x[0] && (x + z)[1..] == p + z;
    assert p != [] && p[|p| - 1] == x[|x| - 1];
    TrimStartAppend(p, z, IsSpace);
    t := TrimStart(p, IsSpace);
  }

  lemma CollapseOtherStep(x: string, z: string)
    requires x != [] && !IsSpace(x[0])
    ensures CollapseSpaces(x) == [x[0]] + CollapseSpaces(x[1..])
    ensures CollapseSpaces(x + z) == [x[0]] + CollapseSpaces(x[1..] + z)
  {
    assert (x + z)[0] == x[0] && (x + z)[1..] == x[1..] + z;
  }

  /** A whitespace run at the front becomes one space. */
  lemma CollapseRunFront(w: string, y: string)
    requires w != [] && forall i :: 0 <= i < |w| ==> IsSpace(w[i])
    requires y == [] || !IsSpace(y[0])
    ensures CollapseSpaces(w + y) == " " + CollapseSpaces(y)
  {
    assert (w + y)[0] == w[0] && (w + y)[1..] == w[1..] + y;
    TrimStartDropsAll(w[1..], y, IsSpace);
  }

  /** `re.sub(r'\s+', ' ', ...)` on a maximal whitespace run `w` between `x` and `y`: the run
      becomes exactly one space and the text on either side is collapsed as it stands. */
  lemma CollapseSpacesRun(x: string, w: string, y: string)
    requires w != [] && forall i :: 0 <= i < |w| ==> IsSpace(w[i])
    requires x == [] || !IsSpace(x[|x| - 1])
    requires y == [] || !IsSpace(y[0])
    ensures CollapseSpaces(x + (w + y)) == CollapseSpaces(x) + (" " + CollapseSpaces(y))
  {
    CollapseRunFront(w, y);
    CollapseSplit(x, w + y);
  }

  /** A slice of a single-spaced text is single-spaced. */
  lemma SingleSpacedSlice(s: string, a: nat, b: nat)
    requires SingleSpaced(s) && a <= b <= |s|
    ensures SingleSpaced(s[a..b])
  {
    var t := s[a..b];
    assert forall i :: 0 <= i < |t| ==> t[i] == s[a + i];
  }

  predicate IsLetterOrSpace(c: char) { IsAsciiLetter(c) || IsSpace(c) }

  /** `preprocess_text`: tags removed, whitespace collapsed and stripped, then every character that
      is neither an ASCII letter nor whitespace deleted. */
  function Preprocess(text: string): (clean: string)
    ensures forall i :: 0 <= i < |clean| ==> IsAsciiLetter(clean[i]) || clean[i] == ' '
  {
    var collapsed := CollapseSpaces(StripTags(text));
    CollapseSpacesSingleSpaced(StripTags(text));
    StripSingleSpaced(collapsed);
    KeepSound(Strip(collapsed), IsLetterOrSpace);
    Keep(Strip(collapsed), IsLetterOrSpace)
  }

  lemma StripSingleSpaced(s: string)
    requires SingleSpaced(s)
    ensures SingleSpaced(Strip(s))
  {
    var a, b := StripSlice(s, IsSpace);
    SingleSpacedSlice(s, a, b);
  }

  /** Before the last step the text is stripped and single-spaced. */
  lemma {:induction false} CollapsedIsClean(text: string)
    ensures IsStripped(Strip(CollapseSpaces(StripTags(text))), IsSpace)
    ensures SingleSpaced(Strip(CollapseSpaces(StripTags(text))))
    ensures NoTag(StripTags(text))
  {
    var collapsed := CollapseSpaces(StripTags(text));
    CollapseSpacesSingleSpaced(StripTags(text));
    var a, b := StripSlice(collapsed, IsSpace);
    StripSingleSpaced(collapsed);
  }

  /** Every ASCII letter outside tags survives, in order. */
  lemma PreprocessKeepsLetters(text: string)
    ensures Keep(Preprocess(text), IsAsciiLetter) == Keep(StripTags(text), IsAsciiLetter)
  {
    var tagless := StripTags(text);
    var collapsed := CollapseSpaces(tagless);
    assert Preprocess(text) == Keep(Strip(collapsed), IsLetterOrSpace);
    LettersThroughStrip(collapsed);
    LettersThroughCollapse(tagless);
  }

  lemma LettersThroughStrip(s: string)
    ensures Keep(Keep(Strip(s), IsLetterOrSpace), IsAsciiLetter) == Keep(s, IsAsciiLetter)
  {
    assert forall c :: IsAsciiLetter(c) ==> IsLetterOrSpace(c) && !IsSpace(c);
    KeepKeep(Strip(s), IsLetterOrSpace, IsAsciiLetter);
    StripKeep(s, IsSpace, IsAsciiLetter);
  }

  lemma LettersThroughCollapse(s: string)
    ensures Keep(CollapseSpaces(s), IsAsciiLetter) == Keep(s, IsAsciiLetter)
  {
    assert forall c :: IsAsciiLetter(c) ==> IsNotSpace(c);
    KeepKeep(CollapseSpaces(s), IsNotSpace, IsAsciiLetter);
    CollapseNonSpace(s);
    KeepKeep(s, IsNotSpace, IsAsciiLetter);
  }

  /** A text without '<' has no tag to remove. */
  lemma {:induction false} StripTagsNoAngle(s: string)
    requires '<' !in s
    ensures StripTags(s) == s
    decreases |s|
  {
    if s != [] {
      assert '<' !in s[1..];
      StripTagsNoAngle(s[1..]);
    }
  }

  /** A single-spaced text is left as it is by the whitespace pass. */
  lemma {:induction false} CollapseSingleSpaced(s: string)
    requires SingleSpaced(s)
    ensures CollapseSpaces(s) == s
    decreases |s|
  {
    if s != [] {
      var tail := s[1..];
      SingleSpacedSlice(s, 1, |s|);
      CollapseSingleSpaced(tail);
      if IsSpace(s[0]) {
        assert s[0] == ' ';
        assert tail != [] ==> tail[0] == s[1] && !IsSpace(tail[0]);
        assert TrimStart(tail, IsSpace) == tail;
        assert CollapseSpaces(s) == [' '] + CollapseSpaces(tail);
      } else {
        assert CollapseSpaces(s) == [s[0]] + CollapseSpaces(tail);
      }
      assert [s[0]] + tail == s;
    }
  }

  lemma KeepOne(c: char, p: char -> bool)
    ensures Keep([c], p) == if p(c) then [c] else []
  {
    assert [c][1..] == [];
    var head := if p(c) then [c] else [];
    assert head + [] == head;
  }

  lemma KeepThree(x: char, y: char, z: char, p: char -> bool)
    ensures Keep([x, y, z], p) == Keep([x], p) + Keep([y], p) + Keep([z], p)
  {
    assert [x, y, z] == [x] + [y] + [z];
    KeepAppend([x] + [y], [z], p);
    KeepAppend([x], [y], p);
  }

  /** Preprocessing a text that is already free of tags and single-spaced only applies the
      final deletion. */
  lemma PreprocessPlain(s: string)
    requires '<' !in s && SingleSpaced(s) && IsStripped(s, IsSpace)
    ensures Preprocess(s) == Keep(s, IsLetterOrSpace)
  {
    StripTagsNoAngle(s);
    CollapseSingleSpaced(s);
    StripIdentity(s, IsSpace);
  }

  /** The final deletion runs after the whitespace pass, so a text can still start with a space
      or hold two spaces in a row: for letters `x`, `y` and a character `d` that is neither a
      letter nor whitespace (a digit, say), "d x" becomes " x" and "x d y" becomes "x  y". */
  lemma PreprocessLeadingSpace(d: char, x: char)
    requires !IsLetterOrSpace(d) && d != '<' && IsAsciiLetter(x)
    ensures Preprocess([d, ' ', x]) == [' ', x]
  {
    ThreeSingleSpaced(d, x);
    assert Keep([d, ' ', x], IsLetterOrSpace) == [' ', x] by {
      KeepThree(d, ' ', x, IsLetterOrSpace);
      KeepOne(d, IsLetterOrSpace);
      KeepOne(' ', IsLetterOrSpace);
      KeepOne(x, IsLetterOrSpace);
      assert [] + [' '] + [x] == [' ', x];
    }
    PreprocessPlain([d, ' ', x]);
  }

  lemma ThreeSingleSpaced(d: char, x: char)
    requires !IsSpace(d) && !IsSpace(x)
    ensures SingleSpaced([d, ' ', x]) && IsStripped([d, ' ', x], IsSpace)
  {
  }

  lemma PreprocessDoubleSpace(d: char, x: char, y: char)
    requires !IsLetterOrSpace(d) && d != '<' && IsAsciiLetter(x) && IsAsciiLetter(y)
    ensures Preprocess([x, ' ', d, ' ', y]) == [x, ' ', ' ', y]
  {
    var s := [x, ' ', d, ' ', y];
    FiveSingleSpaced(x, d, y);
    KeepFive(x, d, y);
    PreprocessPlain(s);
  }

  lemma FiveSingleSpaced(x: char, d: char, y: char)
    requires !IsSpace(x) && !IsSpace(d) && !IsSpace(y)
    ensures SingleSpaced([x, ' ', d, ' ', y]) && IsStripped([x, ' ', d, ' ', y], IsSpace)
  {
  }

  lemma KeepFive(x: char, d: char, y: char)
    requires !IsLetterOrSpace(d) && IsAsciiLetter(x) && IsAsciiLetter(y)
    ensures Keep([x, ' ', d, ' ', y], IsLetterOrSpace) == [x, ' ', ' ', y]
  {
    var mid := [' ', d, ' '];
    KeepThree(' ', d, ' ', IsLetterOrSpace);
    KeepOne(' ', IsLetterOrSpace);
    KeepOne(d, IsLetterOrSpace);
    assert Keep(mid, IsLetterOrSpace) == [' ', ' '];
    KeepAppend([x], mid, IsLetterOrSpace);
    KeepOne(x, IsLetterOrSpace);
    assert Keep([x] + mid, IsLetterOrSpace) == [x, ' ', ' '];
    KeepAppend([x] + mid, [y], IsLetterOrSpace);
    KeepOne(y, IsLetterOrSpace);
    assert [x, ' ', d, ' ', y] == ([x] + mid) + [y];
  }

  // ---------------------------------------------------------------- extract_key_sentences

  /** How many sentences `argsort()[-k:]` keeps: a count of zero slices from the start and keeps
      all of them, and a count beyond the number of sentences keeps all of them too. */
  function KeptCount(k: nat, n: nat): (m: nat)
    ensures m <= n
    ensures k == 0 ==> m == n
    ensures 0 < k <= n ==> m == k
  {
    if k == 0 || k > n then n else k
  }

  /** `idx` lists `m` positions of `scores` in increasing order, and no position left out scores
      higher than a chosen one. Among equal scores any choice is allowed, as numpy's quicksort
      `argsort` does not fix one. */
  predicate IsTopSelection(scores: seq<real>, m: nat, idx: seq<nat>) {
    |idx| == m
    && (forall a :: 0 <= a < |idx| ==> idx[a] < |scores|)
    && (forall a, b :: 0 <= a < b < |idx| ==> idx[a] < idx[b])
    && forall a, j :: 0 <= a < |idx| && 0 <= j < |scores| && j !in idx ==> scores[j] <= scores[idx[a]]
  }

  /** Lines 42-43: keep the `k` best-scoring sentences (all of them when `k` is zero) and return
      them in document order. `scores[i]` is the TF-IDF weight of `sentences[i]`. */
  method SelectKeySentences(sentences: seq<string>, scores: seq<real>, k: nat)
    returns (idx: seq<nat>, chosen: seq<string>)
    requires |scores| == |sentences|
    ensures IsTopSelection(scores, KeptCount(k, |scores|), idx)
    ensures |chosen| == |idx| && forall a :: 0 <= a < |idx| ==> chosen[a] == sentences[idx[a]]
  {
    var picked := PickBest(scores, KeptCount(k, |scores|));
    idx, chosen := CollectPicked(sentences, picked);
  }

  /** Marks `want` positions, each time the best-scoring one still unmarked. */
  method PickBest(scores: seq<real>, want: nat) returns (picked: seq<bool>)
    requires want <= |scores|
    ensures |picked| == |scores| && CountTrue(picked) == want
    ensures forall i, j :: 0 <= i < |scores| && 0 <= j < |scores| && picked[i] && !picked[j] ==> scores[j] <= scores[i]
  {
    var n := |scores|;
    picked := seq(n, _ => false);
    CountTrueNone(picked);
    while CountTrue(picked) < want
      invariant |picked| == n && CountTrue(picked) <= want
      invariant forall i, j :: 0 <= i < n && 0 <= j < n && picked[i] && !picked[j] ==> scores[j] <= scores[i]
      decreases want - CountTrue(picked)
    {
      CountTrueBelowLength(picked);
      var best := BestUnpicked(scores, picked);
      CountTrueSet(picked, best);
      picked := picked[best := true];
    }
  }

  /** The marked positions in increasing order, with their sentences. */
  method CollectPicked(sentences: seq<string>, picked: seq<bool>) returns (idx: seq<nat>, chosen: seq<string>)
    requires |picked| == |sentences|
    ensures |idx| == CountTrue(picked)
    ensures forall a :: 0 <= a < |idx| ==> idx[a] < |picked| && picked[idx[a]]
    ensures forall a, b :: 0 <= a < b < |idx| ==> idx[a] < idx[b]
    ensures forall t :: 0 <= t < |picked| && picked[t] ==> t in idx
    ensures |chosen| == |idx| && forall a :: 0 <= a < |idx| ==> chosen[a] == sentences[idx[a]]
  {
    var n := |picked|;
    idx, chosen := [], [];
    var i := 0;
    while i < n
      invariant i <= n && Collected(sentences, picked, i, idx, chosen)
    {
      CollectedStep(sentences, picked, i, idx, chosen);
      if picked[i] {
        idx, chosen := idx + [i], chosen + [sentences[i]];
      }
      i := i + 1;
    }
    assert picked[..n] == picked;
  }

  /** The loop invariant of `CollectPicked` after the first `i` positions. */
  ghost predicate Collected(sentences: seq<string>, picked: seq<bool>, i: nat, idx: seq<nat>, chosen: seq<string>)
    requires |picked| == |sentences| && i <= |picked|
  {
    |idx| == CountTrue(picked[..i])
    && (forall a :: 0 <= a < |idx| ==> idx[a] < i && picked[idx[a]])
    && (forall a, b :: 0 <= a < b < |idx| ==> idx[a] < idx[b])
    && (forall t :: 0 <= t < i && picked[t] ==> t in idx)
    && |chosen| == |idx| && forall a :: 0 <= a < |idx| ==> chosen[a] == sentences[idx[a]]
  }

  lemma CollectedStep(sentences: seq<string>, picked: seq<bool>, i: nat, idx: seq<nat>, chosen: seq<string>)
    requires |picked| == |sentences| && i < |picked| && Collected(sentences, picked, i, idx, chosen)
    ensures picked[i] ==> Collected(sentences, picked, i + 1, idx + [i], chosen + [sentences[i]])
    ensures !picked[i] ==> Collected(sentences, picked, i + 1, idx, chosen)
  {
    assert picked[..i + 1][..i] == picked[..i];
    if picked[i] {
      var idx', chosen' := idx + [i], chosen + [sentences[i]];
      forall a | 0 <= a < |idx'|
        ensures idx'[a] < i + 1 && picked[idx'[a]] && chosen'[a] == sentences[idx'[a]]
      {
        if a < |idx| {
          assert idx'[a] == idx[a] && chosen'[a] == chosen[a];
        }
      }
      forall t | 0 <= t < i + 1 && picked[t]
        ensures t in idx'
      {
        if t < i {
          assert t in idx;
        } else {
          assert idx'[|idx|] == t;
        }
      }
    }
  }

  /** The highest-scoring position not yet picked (the first of them on a tie). */
  method BestUnpicked(scores: seq<real>, picked: seq<bool>) returns (best: nat)
    requires |picked| == |scores|
    requires exists j :: 0 <= j < |picked| && !picked[j]
    ensures best < |scores| && !picked[best]
    ensures forall j :: 0 <= j < |scores| && !picked[j] ==> scores[j] <= scores[best]
  {
    var found := false;
    best := 0;
    var j := 0;
    while j < |scores|
      invariant 0 <= j <= |scores|
      invariant found ==> best < |scores| && !picked[best]
      invariant found ==> forall t :: 0 <= t < j && !picked[t] ==> scores[t] <= scores[best]
      invariant !found ==> forall t :: 0 <= t < j ==> picked[t]
    {
      if !picked[j] && (!found || scores[j] > scores[best]) {
        best, found := j, true;
      }
      j := j + 1;
    }
  }

  /** `k == 0` keeps every sentence, in document order. */
  lemma SelectAll(scores: seq<real>, idx: seq<nat>)
    requires IsTopSelection(scores, |scores|, idx)
    ensures forall a :: 0 <= a < |idx| ==> idx[a] == a
  {
    IncreasingAbove(idx, |idx|);
    IncreasingBelow(idx, |scores|, |idx|);
  }

  lemma {:induction false} IncreasingAbove(idx: seq<nat>, a: nat)
    requires forall x, y :: 0 <= x < y < |idx| ==> idx[x] < idx[y]
    requires a <= |idx|
    ensures forall x :: 0 <= x < a ==> x <= idx[x]
    decreases a
  {
    if a > 1 {
      IncreasingAbove(idx, a - 1);
      assert idx[a - 2] < idx[a - 1];
    }
  }

  lemma {:induction false} IncreasingBelow(idx: seq<nat>, n: nat, a: nat)
    requires forall x, y :: 0 <= x < y < |idx| ==> idx[x] < idx[y]
    requires forall x :: 0 <= x < |idx| ==> idx[x] < n
    requires a <= |idx|
    ensures forall x :: |idx| - a <= x < |idx| ==> idx[x] <= n - |idx| + x
    decreases a
  {
    if a > 1 {
      IncreasingBelow(idx, n, a - 1);
      var x := |idx| - a;
      assert idx[x] < idx[x + 1];
    }
  }

  // ---------------------------------------------------------------- extract_key_phrases

  /** A pair of adjacent significant words. */
  datatype Phrase = Phrase(first: string, second: string)

  /** Line 49: the tokens that are not stop words and have more than two characters, in order. */
  function SignificantWords(tokens: seq<string>, stopWords: set<string>): (words: seq<string>)
    ensures forall w :: w in words <==> w in tokens && w !in stopWords && |w| > 2
    decreases |tokens|
  {
    if tokens == [] then []
    else
      assert tokens == [tokens[0]] + tokens[1..];
      (if tokens[0] !in stopWords && |tokens[0]| > 2 then [tokens[0]] else [])
      + SignificantWords(tokens[1..], stopWords)
  }

  /** Lines 51-53: every pair of neighbouring words, in order. */
  function Bigrams(words: seq<string>): (phrases: seq<Phrase>)
    ensures |phrases| == if |words| < 2 then 0 else |words| - 1
  {
    if |words| < 2 then [] else seq(|words| - 1, i requires 0 <= i < |words| - 1 => Phrase(words[i], words[i + 1]))
  }

  /** The phrase-frequency dictionary in insertion order: phrase and count. */
  type Frequencies = seq<(Phrase, nat)>

  function Keys(freq: Frequencies): (keys: seq<Phrase>)
    ensures |keys| == |freq|
  {
    seq(|freq|, i requires 0 <= i < |freq| => freq[i].0)
  }

  /** `phrase_freq[phrase] += 1` on a `defaultdict(int)`: the count of a known phrase goes up by
      one in place; a new phrase is appended with count one. */
  function Bump(freq: Frequencies, p: Phrase): (r: Frequencies)
    requires Distinct(Keys(freq))
    ensures Distinct(Keys(r))
    ensures p in Keys(freq) ==>
      (|r| == |freq| && forall i :: 0 <= i < |freq| ==> r[i] == (freq[i].0, freq[i].1 + if freq[i].0 == p then 1 else 0))
    ensures p !in Keys(freq) ==> r == freq + [(p, 1)]
    decreases |freq|
  {
    if freq == [] then [(p, 1)]
    else if freq[0].0 == p then
      BumpHere(freq, p);
      [(p, freq[0].1 + 1)] + freq[1..]
    else
      BumpTail(freq, p);
      var rest := Bump(freq[1..], p);
      BumpCons(freq, rest, p);
      [freq[0]] + rest
  }

  /** The phrase heads the dictionary: it occurs nowhere else, and raising its count keeps the keys. */
  lemma BumpHere(freq: Frequencies, p: Phrase)
    requires Distinct(Keys(freq)) && freq != [] && freq[0].0 == p
    ensures Keys([(p, freq[0].1 + 1)] + freq[1..]) == Keys(freq)
    ensures p in Keys(freq)
    ensures forall i :: 1 <= i < |freq| ==> freq[i].0 != p
  {
    assert Keys(freq)[0] == p;
    forall i | 1 <= i < |freq|
      ensures freq[i].0 != p
    {
      assert Keys(freq)[i] != Keys(freq)[0];
    }
  }

  /** Past a head that is not the phrase, the rest of the dictionary is distinct, lacks the head's
      key and holds the phrase exactly when the whole does. */
  lemma BumpTail(freq: Frequencies, p: Phrase)
    requires Distinct(Keys(freq)) && freq != [] && freq[0].0 != p
    ensures Distinct(Keys(freq[1..])) && freq[0].0 !in Keys(freq[1..])
    ensures p in Keys(freq) <==> p in Keys(freq[1..])
  {
    assert Keys(freq[1..]) == Keys(freq)[1..];
    assert Keys(freq) == [freq[0].0] + Keys(freq[1..]);
    DistinctTail(Keys(freq));
  }

  /** Putting the head back in front of the bumped tail bumps the whole dictionary. */
  lemma BumpCons(freq: Frequencies, rest: Frequencies, p: Phrase)
    requires freq != [] && freq[0].0 != p && freq[0].0 !in Keys(freq[1..]) && Distinct(Keys(rest))
    requires p in Keys(freq[1..]) ==>
      (|rest| == |freq[1..]| && forall i :: 0 <= i < |freq[1..]| ==>
         rest[i] == (freq[1..][i].0, freq[1..][i].1 + if freq[1..][i].0 == p then 1 else 0))
    requires p !in Keys(freq[1..]) ==> rest == freq[1..] + [(p, 1)]
    ensures Distinct(Keys([freq[0]] + rest))
    ensures p in Keys(freq) ==>
      (|[freq[0]] + rest| == |freq| && forall i :: 0 <= i < |freq| ==>
        ([freq[0]] + rest)[i] == (freq[i].0, freq[i].1 + if freq[i].0 == p then 1 else 0))
    ensures p !in Keys(freq) ==> [freq[0]] + rest == freq + [(p, 1)]
  {
    var head, tail := freq[0], freq[1..];
    var r := [head] + rest;
    assert freq == [head] + tail;
    assert Keys(r) == [head.0] + Keys(rest);
    assert Keys(freq) == [head.0] + Keys(tail);
    if p in Keys(tail) {
      assert forall i :: 0 <= i < |rest| ==> Keys(rest)[i] == Keys(tail)[i];
      assert head.0 !in Keys(rest);
      forall i | 0 <= i < |freq|
        ensures r[i] == (freq[i].0, freq[i].1 + if freq[i].0 == p then 1 else 0)
      {
        if i > 0 {
          assert r[i] == rest[i - 1] && freq[i] == tail[i - 1];
        }
      }
    } else {
      assert Keys(rest) == Keys(tail) + [p];
      assert head.0 !in Keys(rest);
    }
  }

  /** Lines 55-57: the dictionary after counting every phrase, in order. */
  function Tally(phrases: seq<Phrase>): (freq: Frequencies)
    ensures Distinct(Keys(freq))
    decreases |phrases|
  {
    if phrases == [] then [] else Bump(Tally(phrases[..|phrases| - 1]), phrases[|phrases| - 1])
  }

  /** `freq` is the finished dictionary for `phrases`: exactly the phrases that occur, each with
      its number of occurrences, in the order in which they first occur. */
  ghost predicate Counts(phrases: seq<Phrase>, freq: Frequencies) {
    (forall p :: p in Keys(freq) <==> p in phrases)
    && (forall i :: 0 <= i < |freq| ==> freq[i].0 in phrases && freq[i].1 == multiset(phrases)[freq[i].0])
    && forall i, j :: 0 <= i < j < |freq| ==> FirstIndex(phrases, freq[i].0) < FirstIndex(phrases, freq[j].0)
  }

  lemma TallyStepKnown(pre: seq<Phrase>, last: Phrase, e: Frequencies)
    requires Distinct(Keys(e)) && Counts(pre, e) && last in Keys(e)
    ensures Counts(pre + [last], Bump(e, last))
  {
    var ps := pre + [last];
    var r := Bump(e, last);
    assert last in pre;
    assert Keys(r) == Keys(e);
    forall i | 0 <= i < |r|
      ensures r[i].0 in ps && r[i].1 == multiset(ps)[r[i].0]
    {
      assert Keys(e)[i] == e[i].0;
    }
    forall i | 0 <= i < |r|
      ensures FirstIndex(ps, r[i].0) == FirstIndex(pre, e[i].0)
    {
      FirstIndexAppend(pre, [last], e[i].0);
    }
  }

  lemma TallyStepNew(pre: seq<Phrase>, last: Phrase, e: Frequencies)
    requires Distinct(Keys(e)) && Counts(pre, e) && last !in Keys(e)
    ensures Counts(pre + [last], Bump(e, last))
  {
    var ps := pre + [last];
    var r := Bump(e, last);
    assert r == e + [(last, 1)];
    assert last !in pre;
    assert Keys(r) == Keys(e) + [last];
    forall i | 0 <= i < |e|
      ensures r[i] == e[i] && e[i].0 != last && e[i].0 in pre
    {
      assert Keys(e)[i] == e[i].0;
    }
    TallyStepNewCounts(pre, last, e, r);
    TallyStepNewOrder(pre, last, e, r);
  }

  lemma TallyStepNewCounts(pre: seq<Phrase>, last: Phrase, e: Frequencies, r: Frequencies)
    requires last !in pre && r == e + [(last, 1)]
    requires forall i :: 0 <= i < |e| ==> e[i].0 in pre && e[i].1 == multiset(pre)[e[i].0]
    ensures forall i :: 0 <= i < |r| ==> r[i].0 in pre + [last] && r[i].1 == multiset(pre + [last])[r[i].0]
  {
    assert multiset(pre + [last]) == multiset(pre) + multiset{last};
    assert multiset(pre)[last] == 0;
  }

  lemma TallyStepNewOrder(pre: seq<Phrase>, last: Phrase, e: Frequencies, r: Frequencies)
    requires last !in pre && r == e + [(last, 1)]
    requires forall i :: 0 <= i < |e| ==> e[i].0 in pre
    requires forall i, j :: 0 <= i < j < |e| ==> FirstIndex(pre, e[i].0) < FirstIndex(pre, e[j].0)
    ensures forall i :: 0 <= i < |r| ==> r[i].0 in pre + [last]
    ensures forall i, j :: 0 <= i < j < |r| ==> FirstIndex(pre + [last], r[i].0) < FirstIndex(pre + [last], r[j].0)
  {
    forall i | 0 <= i < |e|
      ensures FirstIndex(pre + [last], e[i].0) == FirstIndex(pre, e[i].0) < |pre|
    {
      FirstIndexAppend(pre, [last], e[i].0);
    }
    FirstIndexLast(pre, last);
  }

  /** Lines 55-57 count every phrase: the dictionary holds each phrase that occurs, once, with
      its number of occurrences, in the order of first occurrence. */
  lemma {:induction false} TallyCounts(phrases: seq<Phrase>)
    ensures Counts(phrases, Tally(phrases))
    decreases |phrases|
  {
    if phrases != [] {
      var pre := phrases[..|phrases| - 1];
      var last := phrases[|phrases| - 1];
      assert phrases == pre + [last];
      TallyCounts(pre);
      if last in Keys(Tally(pre)) {
        TallyStepKnown(pre, last, Tally(pre));
      } else {
        TallyStepNew(pre, last, Tally(pre));
      }
    }
  }

  /** `p` comes before `q` in `sorted(phrase_freq, key=phrase_freq.get, reverse=True)`: it occurs
      more often, or as often and occurred first (the sort is stable and the dictionary keeps
      insertion order). */
  predicate Ranks(phrases: seq<Phrase>, p: Phrase, q: Phrase)
    requires p in phrases && q in phrases
  {
    multiset(phrases)[p] > multiset(phrases)[q]
    || (multiset(phrases)[p] == multiset(phrases)[q] && FirstIndex(phrases, p) < FirstIndex(phrases, q))
  }

  /** `top` is `sorted(...)[:num]` over the phrase counts of `phrases`: as many distinct phrases
      as `num` and the number of distinct phrases allow, in ranking order, none left out that
      ranks above one kept. */
  ghost predicate IsTopPhrases(phrases: seq<Phrase>, num: nat, top: seq<Phrase>) {
    |top| == Min(num, |Tally(phrases)|)
    && Distinct(top)
    && (forall a :: 0 <= a < |top| ==> top[a] in phrases)
    && (forall a, b :: 0 <= a < b < |top| ==> Ranks(phrases, top[a], top[b]))
    && forall q, a :: q in phrases && q !in top && 0 <= a < |top| ==> Ranks(phrases, top[a], q)
  }

  /** Entry `i` of the dictionary sorts before entry `j`: a higher count, or the same count and
      inserted earlier. */
  predicate Before(freq: Frequencies, i: nat, j: nat)
    requires i < |freq| && j < |freq|
  {
    freq[i].1 > freq[j].1 || (freq[i].1 == freq[j].1 && i < j)
  }

  /** The ordering of dictionary entries is the ranking of their phrases. */
  lemma BeforeRanks(phrases: seq<Phrase>, freq: Frequencies, i: nat, j: nat)
    requires Counts(phrases, freq) && i < |freq| && j < |freq| && i != j
    ensures Before(freq, i, j) <==> Ranks(phrases, freq[i].0, freq[j].0)
  {
    if i < j {
      assert FirstIndex(phrases, freq[i].0) < FirstIndex(phrases, freq[j].0);
    } else {
      assert FirstIndex(phrases, freq[j].0) < FirstIndex(phrases, freq[i].0);
    }
  }

  /** The entry with the highest count among those not yet picked, the earliest on a tie. */
  method MostFrequentUnpicked(freq: Frequencies, picked: seq<bool>) returns (best: nat)
    requires |picked| == |freq|
    requires exists j :: 0 <= j < |picked| && !picked[j]
    ensures best < |freq| && !picked[best]
    ensures forall j :: 0 <= j < |freq| && !picked[j] && j != best ==> Before(freq, best, j)
  {
    var found := false;
    best := 0;
    var j := 0;
    while j < |freq|
      invariant 0 <= j <= |freq|
      invariant found ==> best < j && !picked[best]
      invariant found ==> forall t :: 0 <= t < j && !picked[t] && t != best ==> Before(freq, best, t)
      invariant !found ==> forall t :: 0 <= t < j ==> picked[t]
    {
      if !picked[j] && (!found || freq[j].1 > freq[best].1) {
        best, found := j, true;
      }
      j := j + 1;
    }
  }

  /** `sorted(phrase_freq, key=phrase_freq.get, reverse=True)[:num]`, as positions `sel` of the
      dictionary and their phrases `top`. */
  method TopPhrases(freq: Frequencies, num: nat) returns (top: seq<Phrase>, ghost sel: seq<nat>)
    ensures |sel| == |top| == Min(num, |freq|)
    ensures forall a :: 0 <= a < |sel| ==> sel[a] < |freq| && top[a] == freq[sel[a]].0
    ensures Distinct(sel)
    ensures forall a, b :: 0 <= a < b < |sel| ==> Before(freq, sel[a], sel[b])
    ensures forall a, j :: 0 <= a < |sel| && 0 <= j < |freq| && j !in sel ==> Before(freq, sel[a], j)
  {
    var picked := seq(|freq|, _ => false);
    CountTrueNone(picked);
    top, sel := [], [];
    while |top| < Min(num, |freq|)
      invariant RankedSoFar(freq, picked, top, sel) && |top| <= Min(num, |freq|)
      decreases Min(num, |freq|) - |top|
    {
      CountTrueBelowLength(picked);
      var best := MostFrequentUnpicked(freq, picked);
      RankedStep(freq, picked, top, sel, best);
      picked := picked[best := true];
      top, sel := top + [freq[best].0], sel + [best];
    }
  }

  /** The loop invariant of `TopPhrases`: `sel` lists the picked entries in rank order, `top` their
      phrases, and every picked entry ranks before every unpicked one. */
  ghost predicate RankedSoFar(freq: Frequencies, picked: seq<bool>, top: seq<Phrase>, sel: seq<nat>) {
    |picked| == |freq| && |top| == |sel| == CountTrue(picked)
    && (forall a :: 0 <= a < |sel| ==> sel[a] < |freq| && top[a] == freq[sel[a]].0)
    && (forall j :: 0 <= j < |freq| ==> (picked[j] <==> j in sel))
    && Distinct(sel)
    && (forall a, b :: 0 <= a < b < |sel| ==> Before(freq, sel[a], sel[b]))
    && forall a, j :: 0 <= a < |sel| && 0 <= j < |freq| && !picked[j] ==> Before(freq, sel[a], j)
  }

  /** Picking the best unpicked entry keeps the invariant. */
  lemma RankedStep(freq: Frequencies, picked: seq<bool>, top: seq<Phrase>, sel: seq<nat>, best: nat)
    requires RankedSoFar(freq, picked, top, sel)
    requires best < |freq| && !picked[best]
    requires forall j :: 0 <= j < |freq| && !picked[j] && j != best ==> Before(freq, best, j)
    ensures RankedSoFar(freq, picked[best := true], top + [freq[best].0], sel + [best])
  {
    CountTrueSet(picked, best);
    var p, t, s := picked[best := true], top + [freq[best].0], sel + [best];
    assert best !in sel;
    forall j | 0 <= j < |freq|
      ensures p[j] <==> j in s
    {
      assert j in s <==> j in sel || j == best;
    }
    forall a, b | 0 <= a < b < |s|
      ensures s[a] != s[b]
    {
      if b == |sel| {
        assert s[a] == sel[a] && s[a] in sel;
      }
    }
    forall a, b | 0 <= a < b < |s|
      ensures Before(freq, s[a], s[b])
    {
      if b == |sel| {
        assert !picked[best];
      }
    }
  }

  /** The positions chosen from the finished dictionary give the ranked phrases. */
  lemma TopFromSelection(phrases: seq<Phrase>, num: nat, top: seq<Phrase>, sel: seq<nat>)
    requires |sel| == |top| == Min(num, |Tally(phrases)|)
    requires forall a :: 0 <= a < |sel| ==> sel[a] < |Tally(phrases)| && top[a] == Tally(phrases)[sel[a]].0
    requires Distinct(sel)
    requires forall a, b :: 0 <= a < b < |sel| ==> Before(Tally(phrases), sel[a], sel[b])
    requires forall a, j :: 0 <= a < |sel| && 0 <= j < |Tally(phrases)| && j !in sel ==> Before(Tally(phrases), sel[a], j)
    ensures IsTopPhrases(phrases, num, top)
  {
    var freq := Tally(phrases);
    TallyCounts(phrases);
    TopOrdered(phrases, freq, top, sel);
    TopComplete(phrases, freq, top, sel);
  }

  lemma TopOrdered(phrases: seq<Phrase>, freq: Frequencies, top: seq<Phrase>, sel: seq<nat>)
    requires Counts(phrases, freq) && Distinct(Keys(freq)) && |sel| == |top|
    requires forall a :: 0 <= a < |sel| ==> sel[a] < |freq| && top[a] == freq[sel[a]].0
    requires Distinct(sel)
    requires forall a, b :: 0 <= a < b < |sel| ==> Before(freq, sel[a], sel[b])
    ensures Distinct(top) && forall a :: 0 <= a < |top| ==> top[a] in phrases
    ensures forall a, b :: 0 <= a < b < |top| ==> Ranks(phrases, top[a], top[b])
  {
    forall a, b | 0 <= a < b < |top|
      ensures top[a] != top[b] && Ranks(phrases, top[a], top[b])
    {
      assert Keys(freq)[sel[a]] != Keys(freq)[sel[b]];
      BeforeRanks(phrases, freq, sel[a], sel[b]);
    }
  }

  lemma TopComplete(phrases: seq<Phrase>, freq: Frequencies, top: seq<Phrase>, sel: seq<nat>)
    requires Counts(phrases, freq) && |sel| == |top|
    requires forall a :: 0 <= a < |sel| ==> sel[a] < |freq| && top[a] == freq[sel[a]].0
    requires forall a, j :: 0 <= a < |sel| && 0 <= j < |freq| && j !in sel ==> Before(freq, sel[a], j)
    ensures forall q, a :: q in phrases && q !in top && 0 <= a < |top| ==> Ranks(phrases, top[a], q)
  {
    forall q, a | q in phrases && q !in top && 0 <= a < |top|
      ensures Ranks(phrases, top[a], q)
    {
      assert q in Keys(freq);
      var j :| 0 <= j < |freq| && Keys(freq)[j] == q;
      UnchosenEntry(freq, top, sel, j);
      BeforeRanks(phrases, freq, sel[a], j);
    }
  }

  /** An entry whose phrase was not kept is not among the chosen positions. */
  lemma UnchosenEntry(freq: Frequencies, top: seq<Phrase>, sel: seq<nat>, j: nat)
    requires |sel| == |top| && j < |freq| && freq[j].0 !in top
    requires forall a :: 0 <= a < |sel| ==> sel[a] < |freq| && top[a] == freq[sel[a]].0
    ensures j !in sel
  {
    forall b | 0 <= b < |sel|
      ensures sel[b] != j
    {
      assert top[b] in top;
    }
  }

  /** `extract_key_phrases` on the tokens of the lower-cased text: the `num` most frequent pairs
      of neighbouring significant words. */
  method ExtractKeyPhrases(tokens: seq<string>, stopWords: set<string>, num: nat) returns (top: seq<Phrase>)
    ensures IsTopPhrases(Bigrams(SignificantWords(tokens, stopWords)), num, top)
    ensures |SignificantWords(tokens, stopWords)| < 2 ==> top == []
    ensures forall p :: p in top ==> IsSignificant(p.first, tokens, stopWords) && IsSignificant(p.second, tokens, stopWords)
    ensures (forall t :: t in tokens ==> HasNoUpper(t)) ==> forall p :: p in top ==> HasNoUpper(p.first) && HasNoUpper(p.second)
  {
    var words := SignificantWords(tokens, stopWords);
    var phrases := NeighbourPairs(words);
    var freq := CountPhrases(phrases);
    ghost var sel;
    top, sel := TopPhrases(freq, num);
    TopFromSelection(phrases, num, top, sel);
    forall p | p in top
      ensures p.first in words && p.second in words
    {
      BigramWords(words, p);
    }
  }

  /** Lines 51-53 as a loop over the positions of `words`. */
  method NeighbourPairs(words: seq<string>) returns (phrases: seq<Phrase>)
    ensures phrases == Bigrams(words)
  {
    phrases := [];
    var i := 0;
    while i + 1 < |words|
      invariant i == 0 || i + 1 <= |words|
      invariant |words| >= 2 ==> phrases == Bigrams(words)[..i]
      invariant |words| < 2 ==> phrases == [] && i == 0
    {
      phrases := phrases + [Phrase(words[i], words[i + 1])];
      i := i + 1;
    }
    if |words| >= 2 {
      assert Bigrams(words)[..i] == Bigrams(words);
    }
  }

  /** Lines 55-57: one `+= 1` per phrase, in order. */
  method CountPhrases(phrases: seq<Phrase>) returns (freq: Frequencies)
    ensures freq == Tally(phrases)
  {
    freq := [];
    var j := 0;
    while j < |phrases|
      invariant 0 <= j <= |phrases|
      invariant freq == Tally(phrases[..j])
    {
      assert phrases[..j + 1][..j] == phrases[..j];
      freq := Bump(freq, phrases[j]);
      j := j + 1;
    }
    assert phrases[..j] == phrases;
  }

  /** A word that survives line 49: a token, not a stop word, longer than two characters. */
  predicate IsSignificant(w: string, tokens: seq<string>, stopWords: set<string>) {
    w in tokens && w !in stopWords && |w| > 2
  }

  /** Each phrase is two neighbouring words. */
  lemma BigramWords(words: seq<string>, p: Phrase)
    requires p in Bigrams(words)
    ensures exists i :: 0 <= i < |words| - 1 && p == Phrase(words[i], words[i + 1])
    ensures p.first in words && p.second in words
  {
    var i :| 0 <= i < |Bigrams(words)| && Bigrams(words)[i] == p;
    assert p == Phrase(words[i], words[i + 1]);
  }

  // ---------------------------------------------------------------- structure_summary

  /** The three sections of the structured summary, in the order the dictionary lists them. */
  datatype Section = MainContent | Features | Details

  function Title(section: Section): string {
    match section
    case MainContent => "Main Content"
    case Features => "Features"
    case Details => "Details"
  }

  /** Line 79: both words of some key phrase occur in the lower-cased sentence. */
  predicate MentionsKeyPhrase(lower: string, phrases: seq<Phrase>)
    decreases |phrases|
  {
    phrases != []
    && ((Contains(lower, phrases[0].first) && Contains(lower, phrases[0].second))
        || MentionsKeyPhrase(lower, phrases[1..]))
  }

  /** Line 81: one of the words "feature", "benefit" or "advantage" occurs in the sentence. */
  predicate MentionsFeatureWord(lower: string) {
    Contains(lower, "feature") || Contains(lower, "benefit") || Contains(lower, "advantage")
  }

  /** Lines 78-84: the section a sentence is filed under. */
  function Classify(sentence: string, phrases: seq<Phrase>): Section {
    var lower := Lower(sentence);
    if MentionsKeyPhrase(lower, phrases) then MainContent
    else if MentionsFeatureWord(lower) then Features
    else Details
  }

  /** The sentences filed under `section`, in order, as the loop at lines 77-84 appends them. */
  function InSection(sentences: seq<string>, phrases: seq<Phrase>, section: Section): (content: seq<string>)
    ensures forall t :: t in content ==> t in sentences && Classify(t, phrases) == section
    decreases |sentences|
  {
    if sentences == [] then []
    else
      var last := sentences[|sentences| - 1];
      InSection(sentences[..|sentences| - 1], phrases, section) + (if Classify(last, phrases) == section then [last] else [])
  }

  /** The last sentence adds itself to its own section and nothing to the others. */
  lemma InSectionStep(sentences: seq<string>, phrases: seq<Phrase>, section: Section, c: Section)
    requires sentences != [] && c == Classify(sentences[|sentences| - 1], phrases)
    ensures multiset(InSection(sentences, phrases, section))
         == multiset(InSection(sentences[..|sentences| - 1], phrases, section))
            + (if c == section then multiset{sentences[|sentences| - 1]} else multiset{})
  {
    var pre := InSection(sentences[..|sentences| - 1], phrases, section);
    if c == section {
      assert InSection(sentences, phrases, section) == pre + [sentences[|sentences| - 1]];
    } else {
      assert InSection(sentences, phrases, section) == pre + [];
      assert pre + [] == pre;
    }
  }

  /** Line 67: "- " and the two words joined by a space. */
  function PhraseLine(p: Phrase): string {
    "- " + p.first + " " + p.second + "\n"
  }

  /** Line 91: "- " and the sentence. */
  function Bullet(sentence: string): string {
    "- " + sentence + "\n"
  }

  /** At most the first three sentences of a section are listed (line 90). */
  function FirstThree(content: seq<string>): (top: seq<string>)
    ensures |top| <= 3 && top <= content
    ensures |content| <= 3 ==> top == content
  {
    content[..Min(3, |content|)]
  }

  /** Lines 88-92: a section with content gets its title, its first sentences and a blank line;
      an empty one is left out. */
  function SectionBlock(section: Section, content: seq<string>): string {
    if content == [] then "" else Title(section) + ":\n" + ConcatMap(FirstThree(content), Bullet) + "\n"
  }

  /** The blocks of several sections, in order, as the loop at lines 87-92 appends them. */
  function SectionBlocks(sections: seq<Section>, contents: seq<seq<string>>): string
    requires |sections| == |contents|
    decreases |sections|
  {
    if sections == [] then ""
    else
      var n := |sections| - 1;
      SectionBlocks(sections[..n], contents[..n]) + SectionBlock(sections[n], contents[n])
  }

  /** Lines 62-68: the title and the key-phrase list. */
  function Header(phrases: seq<Phrase>): string {
    "Summary:\n\n" + "Key Phrases:\n" + ConcatMap(phrases, PhraseLine) + "\n"
  }

  /** The whole structured summary. */
  function RenderSummary(sentences: seq<string>, phrases: seq<Phrase>): string {
    Header(phrases)
    + SectionBlocks([MainContent, Features, Details],
                    [InSection(sentences, phrases, MainContent), InSection(sentences, phrases, Features),
                     InSection(sentences, phrases, Details)])
  }

  /** `structure_summary`. */
  method StructureSummary(sentences: seq<string>, phrases: seq<Phrase>) returns (summary: string)
    ensures summary == RenderSummary(sentences, phrases)
  {
    summary := "Summary:\n\n";
    summary := summary + "Key Phrases:\n";
    summary := AddKeyPhrases(summary, phrases);
    summary := summary + "\n";
    var main, features, details := FileSentences(sentences, phrases);
    summary := AddSections(summary, [MainContent, Features, Details], [main, features, details]);
  }

  /** Lines 87-92. */
  method AddSections(before: string, sections: seq<Section>, contents: seq<seq<string>>) returns (summary: string)
    requires |sections| == |contents|
    ensures summary == before + SectionBlocks(sections, contents)
  {
    summary := before;
    EmptyBlocks(before, sections, contents);
    for k := 0 to |sections|
      invariant summary == before + SectionBlocks(sections[..k], contents[..k])
    {
      summary := AddSection(summary, sections[k], contents[k]);
      SectionBlocksStep(before, sections, contents, k);
    }
    assert sections[..|sections|] == sections && contents[..|contents|] == contents;
  }

  lemma EmptyBlocks(before: string, sections: seq<Section>, contents: seq<seq<string>>)
    ensures before + SectionBlocks(sections[..0], contents[..0]) == before
  {
    assert before + "" == before;
  }

  lemma SectionBlocksStep(before: string, sections: seq<Section>, contents: seq<seq<string>>, k: nat)
    requires |sections| == |contents| && k < |sections|
    ensures before + SectionBlocks(sections[..k + 1], contents[..k + 1])
      == before + SectionBlocks(sections[..k], contents[..k]) + SectionBlock(sections[k], contents[k])
  {
    assert sections[..k + 1][..k] == sections[..k] && contents[..k + 1][..k] == contents[..k];
  }

  /** Lines 66-67. */
  method AddKeyPhrases(before: string, phrases: seq<Phrase>) returns (summary: string)
    ensures summary == before + ConcatMap(phrases, PhraseLine)
  {
    summary := before;
    for i := 0 to |phrases|
      invariant summary == before + ConcatMap(phrases[..i], PhraseLine)
    {
      summary := summary + PhraseLine(phrases[i]);
      ConcatMapStep(before, phrases, PhraseLine, i);
    }
    assert phrases[..|phrases|] == phrases;
  }

  /** Lines 77-84. */
  method FileSentences(sentences: seq<string>, phrases: seq<Phrase>)
    returns (main: seq<string>, features: seq<string>, details: seq<string>)
    ensures main == InSection(sentences, phrases, MainContent)
    ensures features == InSection(sentences, phrases, Features)
    ensures details == InSection(sentences, phrases, Details)
  {
    main, features, details := [], [], [];
    for i := 0 to |sentences|
      invariant main == InSection(sentences[..i], phrases, MainContent)
      invariant features == InSection(sentences[..i], phrases, Features)
      invariant details == InSection(sentences[..i], phrases, Details)
    {
      assert sentences[..i + 1][..i] == sentences[..i];
      var lower := Lower(sentences[i]);
      if MentionsKeyPhrase(lower, phrases) {
        main := main + [sentences[i]];
      } else if MentionsFeatureWord(lower) {
        features := features + [sentences[i]];
      } else {
        details := details + [sentences[i]];
      }
    }
    assert sentences[..|sentences|] == sentences;
  }

  /** Lines 88-92 for one section. */
  method AddSection(before: string, section: Section, content: seq<string>) returns (summary: string)
    ensures summary == before + SectionBlock(section, content)
  {
    summary := before;
    if content != [] {
      summary := summary + (Title(section) + ":\n");
      ghost var titled := summary;
      var top := FirstThree(content);
      for t := 0 to |top|
        invariant summary == titled + ConcatMap(top[..t], Bullet)
      {
        summary := summary + Bullet(top[t]);
        ConcatMapStep(titled, top, Bullet, t);
      }
      assert top[..|top|] == top;
      summary := summary + "\n";
      AppendFour(before, Title(section) + ":\n", ConcatMap(top, Bullet), "\n");
    }
  }

  lemma AppendFour(a: string, b: string, c: string, d: string)
    ensures a + b + c + d == a + (b + c + d)
  {
  }

  /** `sub` occurs somewhere in `s`. */
  ghost predicate Occurs(s: string, sub: string) {
    exists i :: OccursAt(s, sub, i)
  }

  lemma {:induction false} MentionsKeyPhraseIff(lower: string, phrases: seq<Phrase>)
    ensures MentionsKeyPhrase(lower, phrases)
        <==> exists k :: 0 <= k < |phrases| && Occurs(lower, phrases[k].first) && Occurs(lower, phrases[k].second)
    decreases |phrases|
  {
    if phrases != [] {
      ContainsIff(lower, phrases[0].first);
      ContainsIff(lower, phrases[0].second);
      MentionsKeyPhraseIff(lower, phrases[1..]);
      assert forall k :: 1 <= k < |phrases| ==> phrases[k] == phrases[1..][k - 1];
      if exists k :: 0 <= k < |phrases| && Occurs(lower, phrases[k].first) && Occurs(lower, phrases[k].second) {
        var k :| 0 <= k < |phrases| && Occurs(lower, phrases[k].first) && Occurs(lower, phrases[k].second);
        if k > 0 {
          assert phrases[1..][k - 1] == phrases[k];
        }
      }
    }
  }

  /** Lines 79-84: a sentence goes under "Main Content" exactly when both words of some key phrase
      occur in it (lower-cased), otherwise under "Features" exactly when "feature", "benefit" or
      "advantage" occurs in it, and under "Details" in every other case. */
  lemma ClassifyIff(sentence: string, phrases: seq<Phrase>)
    ensures Classify(sentence, phrases) == MainContent
        <==> exists k :: 0 <= k < |phrases| && Occurs(Lower(sentence), phrases[k].first) && Occurs(Lower(sentence), phrases[k].second)
    ensures Classify(sentence, phrases) == Features
        <==> !(exists k :: 0 <= k < |phrases| && Occurs(Lower(sentence), phrases[k].first) && Occurs(Lower(sentence), phrases[k].second))
             && (Occurs(Lower(sentence), "feature") || Occurs(Lower(sentence), "benefit") || Occurs(Lower(sentence), "advantage"))
    ensures Classify(sentence, phrases) == Details
        <==> !(exists k :: 0 <= k < |phrases| && Occurs(Lower(sentence), phrases[k].first) && Occurs(Lower(sentence), phrases[k].second))
             && !(Occurs(Lower(sentence), "feature") || Occurs(Lower(sentence), "benefit") || Occurs(Lower(sentence), "advantage"))
  {
    var lower := Lower(sentence);
    MentionsKeyPhraseIff(lower, phrases);
    ContainsIff(lower, "feature");
    ContainsIff(lower, "benefit");
    ContainsIff(lower, "advantage");
  }

  /** Every sentence is filed exactly once: the three sections together hold the sentences, each
      as often as it occurs. */
  lemma {:induction false} SectionsPartition(sentences: seq<string>, phrases: seq<Phrase>)
    ensures multiset(InSection(sentences, phrases, MainContent)) + multiset(InSection(sentences, phrases, Features))
            + multiset(InSection(sentences, phrases, Details)) == multiset(sentences)
    decreases |sentences|
  {
    if sentences != [] {
      var n := |sentences| - 1;
      var pre := sentences[..n];
      var last := sentences[n];
      assert sentences == pre + [last];
      assert multiset(sentences) == multiset(pre) + multiset{last};
      SectionsPartition(pre, phrases);
      var c := Classify(last, phrases);
      InSectionStep(sentences, phrases, MainContent, c);
      InSectionStep(sentences, phrases, Features, c);
      InSectionStep(sentences, phrases, Details, c);
    }
  }

  /** Each section keeps the sentences in the order of the input. */
  lemma {:induction false} SectionInOrder(sentences: seq<string>, phrases: seq<Phrase>, section: Section)
    ensures IsSubsequence(InSection(sentences, phrases, section), sentences)
    decreases |sentences|
  {
    if sentences != [] {
      var n := |sentences| - 1;
      var pre := sentences[..n];
      var last := sentences[n];
      SectionInOrder(pre, phrases, section);
      assert sentences == pre + [last];
      if Classify(last, phrases) == section {
        SubsequenceAppend(InSection(pre, phrases, section), pre, last);
      } else {
        assert InSection(sentences, phrases, section) == InSection(pre, phrases, section) + [];
        assert InSection(pre, phrases, section) + [] == InSection(pre, phrases, section);
        SubsequenceExtend(InSection(pre, phrases, section), pre, last);
      }
    }
  }

  /** Only the first three sentences of a section reach the summary: what follows them does not
      change the section's block. */
  lemma SectionBlockFirstThree(section: Section, content: seq<string>, more: seq<string>)
    requires |content| >= 3
    ensures SectionBlock(section, content + more) == SectionBlock(section, content)
  {
    assert (content + more)[..3] == content[..3];
  }

  // ---------------------------------------------------------------- create_meta_summary

  /** Line 106: a page's URL and summary, followed by a blank line. */
  function PageBlock(page: (string, string)): string {
    "Page: " + page.0 + "\n" + page.1 + "\n\n"
  }

  function MetaHeader(): string { "Website Meta-Summary:\n\n" }

  /** The meta-summary for a dictionary of page summaries, given in insertion order. */
  function MetaSummary(summaries: seq<(string, string)>): string {
    MetaHeader() + ConcatMap(summaries, PageBlock)
  }

  /** `create_meta_summary`. */
  method CreateMetaSummary(summaries: seq<(string, string)>) returns (meta: string)
    ensures meta == MetaSummary(summaries)
  {
    meta := "Website Meta-Summary:\n\n";
    for i := 0 to |summaries|
      invariant meta == MetaHeader() + ConcatMap(summaries[..i], PageBlock)
    {
      meta := meta + PageBlock(summaries[i]);
      ConcatMapStep(MetaHeader(), summaries, PageBlock, i);
    }
    assert summaries[..|summaries|] == summaries;
  }

  /** Each page contributes its own block, in dictionary order, whatever comes before or after. */
  lemma MetaSummaryPage(before: seq<(string, string)>, page: (string, string), after: seq<(string, string)>)
    ensures MetaSummary(before + [page] + after) == MetaSummary(before) + PageBlock(page) + ConcatMap(after, PageBlock)
  {
    ConcatMapMiddle(before, page, after, PageBlock);
    AppendFour(MetaHeader(), ConcatMap(before, PageBlock), PageBlock(page), ConcatMap(after, PageBlock));
  }

  /** With no pages the meta-summary is the heading alone. */
  lemma MetaSummaryEmpty()
    ensures MetaSummary([]) == "Website Meta-Summary:\n\n"
  {
    assert MetaHeader() + "" == MetaHeader();
  }
}

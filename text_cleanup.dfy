/** The line clean-up that `extract_text_from_html` applies to the page text (main.py): every line
    is stripped, split on two consecutive spaces, every piece is stripped again, empty pieces are
    dropped and the survivors are joined with "\n". The text itself comes from the HTML parser,
    which is not part of this model: `CleanUp` starts from the parser's text. */
module TextCleanup {
  import opened Strings

  /** No two consecutive spaces. */
  predicate NoDoubleSpace(s: string) {
    forall i :: 0 <= i < |s| - 1 ==> !(s[i] == ' ' && s[i + 1] == ' ')
  }

  /** What every output fragment looks like. */
  predicate IsFragment(f: string) {
    f != [] && IsStripped(f, IsSpace) && NoDoubleSpace(f) && NoLineBreak(f)
  }

  /** Position of the first "  " in `s`, or `|s|` when there is none. */
  function DoubleSpaceIndex(s: string): (i: nat)
    ensures i <= |s|
    ensures i < |s| ==> i + 1 < |s| && s[i] == ' ' && s[i + 1] == ' '
    ensures forall j :: 0 <= j < i && j + 1 < |s| ==> !(s[j] == ' ' && s[j + 1] == ' ')
    decreases |s|
  {
    if |s| < 2 then |s| else if s[0] == ' ' && s[1] == ' ' then 0 else 1 + DoubleSpaceIndex(s[1..])
  }

  /** Python's `line.split("  ")`: non-overlapping occurrences, scanned from the left. */
  function SplitOnDoubleSpace(s: string): (fields: seq<string>)
    ensures |fields| >= 1
    ensures forall k :: 0 <= k < |fields| ==> NoDoubleSpace(fields[k])
    ensures NoLineBreak(s) ==> forall k :: 0 <= k < |fields| ==> NoLineBreak(fields[k])
    decreases |s|
  {
    var i := DoubleSpaceIndex(s);
    if i == |s| then [s] else [s[..i]] + SplitOnDoubleSpace(s[i + 2..])
  }

  /** `"  ".join(fields)`. */
  function JoinDoubleSpace(fields: seq<string>): string
    decreases |fields|
  {
    if |fields| == 0 then "" else if |fields| == 1 then fields[0] else fields[0] + "  " + JoinDoubleSpace(fields[1..])
  }

  /** The fields are the pieces of `s` between its "  " separators: joining them with "  "
      gives `s` back. */
  lemma {:induction false} SplitOnDoubleSpaceJoin(s: string)
    ensures JoinDoubleSpace(SplitOnDoubleSpace(s)) == s
    decreases |s|
  {
    var i := DoubleSpaceIndex(s);
    if i == |s| {
      assert SplitOnDoubleSpace(s) == [s];
    } else {
      var first, tail := s[..i], s[i + 2..];
      assert s == first + "  " + tail by {
        assert s[i] == ' ' && s[i + 1] == ' ';
        assert s == s[..i] + s[i..i + 2] + s[i + 2..];
      }
      var fields, rest := SplitOnDoubleSpace(s), SplitOnDoubleSpace(tail);
      SplitOnDoubleSpaceStep(s);
      assert fields[0] == first && fields[1..] == rest && |fields| >= 2;
      assert JoinDoubleSpace(fields) == first + "  " + JoinDoubleSpace(rest);
      SplitOnDoubleSpaceJoin(tail);
    }
  }

  predicate NoTrailingSpace(f: string) {
    f == [] || f[|f| - 1] != ' '
  }

  /** Each separator is the leftmost "  " that follows the previous one: no field but the last
      ends with a space, since its separator would otherwise have started one place earlier. */
  lemma {:induction false} SplitOnDoubleSpaceLeftmost(s: string)
    ensures forall k :: 0 <= k < |SplitOnDoubleSpace(s)| - 1 ==> NoTrailingSpace(SplitOnDoubleSpace(s)[k])
    decreases |s|
  {
    var i := DoubleSpaceIndex(s);
    if i < |s| {
      var fields, rest := SplitOnDoubleSpace(s), SplitOnDoubleSpace(s[i + 2..]);
      SplitOnDoubleSpaceStep(s);
      assert fields[0] == s[..i] && fields[1..] == rest;
      SplitOnDoubleSpaceLeftmost(s[i + 2..]);
      assert NoTrailingSpace(fields[0]) by {
        if i > 0 {
          assert fields[0][i - 1] == s[i - 1];
        }
      }
      forall k | 1 <= k < |fields| - 1
        ensures NoTrailingSpace(fields[k])
      {
        assert fields[k] == fields[1..][k - 1] == rest[k - 1];
      }
    }
  }

  /** One separator: the first field ends where the first "  " starts, and the rest of the fields
      are those of the text after it. */
  lemma SplitOnDoubleSpaceStep(s: string)
    requires DoubleSpaceIndex(s) < |s|
    ensures SplitOnDoubleSpace(s) == [s[..DoubleSpaceIndex(s)]] + SplitOnDoubleSpace(s[DoubleSpaceIndex(s) + 2..])
  {
  }

  /** Each field stripped, the empty ones dropped (the generator expressions of lines 39 and 41). */
  function Pieces(fields: seq<string>): seq<string>
    decreases |fields|
  {
    if fields == [] then []
    else
      var p := Strip(fields[0]);
      (if p == [] then [] else [p]) + Pieces(fields[1..])
  }

  /** The fragments one line contributes. */
  function LineFragments(line: string): seq<string> {
    Pieces(SplitOnDoubleSpace(Strip(line)))
  }

  function FragmentsOfLines(lines: seq<string>): seq<string>
    decreases |lines|
  {
    if lines == [] then [] else LineFragments(lines[0]) + FragmentsOfLines(lines[1..])
  }

  /** The fragments of `text`, line by line and left to right within a line. */
  function Fragments(text: string): seq<string> {
    FragmentsOfLines(SplitLines(text))
  }

  /** main.py lines 36-41: the fragments joined with "\n". Splitting the result on "\n" gives the
      fragments back, and the result is "" exactly when there are none. */
  function CleanUp(text: string): (clean: string)
    ensures clean == "" <==> Fragments(text) == []
    ensures Fragments(text) != [] ==> Split(clean, '\n') == Fragments(text)
  {
    FragmentsWellFormed(text);
    SplitJoinFragments(Fragments(text));
    Join(Fragments(text), '\n')
  }

  // ---------------------------------------------------------------------------------------------
  // Shape of the fragments

  lemma SliceNoDoubleSpace(s: string, a: nat, b: nat)
    requires a <= b <= |s| && NoDoubleSpace(s)
    ensures NoDoubleSpace(s[a..b])
  {
    forall i | 0 <= i < b - a - 1
      ensures !(s[a..b][i] == ' ' && s[a..b][i + 1] == ' ')
    {
      assert s[a..b][i] == s[a + i] && s[a..b][i + 1] == s[a + i + 1];
    }
  }

  lemma SliceNoLineBreak(s: string, a: nat, b: nat)
    requires a <= b <= |s| && NoLineBreak(s)
    ensures NoLineBreak(s[a..b])
  {
    assert forall i :: 0 <= i < b - a ==> s[a..b][i] == s[a + i];
  }

  lemma StripFragment(f: string)
    requires NoDoubleSpace(f) && NoLineBreak(f) && Strip(f) != []
    ensures IsFragment(Strip(f))
  {
    var a, b := StripSlice(f, IsSpace);
    SliceNoDoubleSpace(f, a, b);
    SliceNoLineBreak(f, a, b);
  }

  lemma {:induction false} PiecesAreFragments(fields: seq<string>)
    requires forall k :: 0 <= k < |fields| ==> NoDoubleSpace(fields[k]) && NoLineBreak(fields[k])
    ensures forall k :: 0 <= k < |Pieces(fields)| ==> IsFragment(Pieces(fields)[k])
    decreases |fields|
  {
    if fields != [] {
      var tail := fields[1..];
      forall k | 0 <= k < |tail|
        ensures NoDoubleSpace(tail[k]) && NoLineBreak(tail[k])
      {
        assert tail[k] == fields[k + 1];
      }
      PiecesAreFragments(tail);
      var rest := Pieces(tail);
      var p := Strip(fields[0]);
      if p != [] {
        StripFragment(fields[0]);
        assert Pieces(fields) == [p] + rest;
        forall k | 0 <= k < |Pieces(fields)|
          ensures IsFragment(Pieces(fields)[k])
        {
          if k > 0 {
            assert Pieces(fields)[k] == rest[k - 1];
          }
        }
      } else {
        assert Pieces(fields) == rest;
      }
    }
  }

  lemma LineFragmentsWellFormed(line: string)
    requires NoLineBreak(line)
    ensures forall k :: 0 <= k < |LineFragments(line)| ==> IsFragment(LineFragments(line)[k])
  {
    var a, b := StripSlice(line, IsSpace);
    SliceNoLineBreak(line, a, b);
    PiecesAreFragments(SplitOnDoubleSpace(Strip(line)));
  }

  lemma {:induction false} FragmentsOfLinesWellFormed(lines: seq<string>)
    requires forall k :: 0 <= k < |lines| ==> NoLineBreak(lines[k])
    ensures forall k :: 0 <= k < |FragmentsOfLines(lines)| ==> IsFragment(FragmentsOfLines(lines)[k])
    decreases |lines|
  {
    if lines != [] {
      LineFragmentsWellFormed(lines[0]);
      FragmentsOfLinesWellFormed(lines[1..]);
    }
  }

  /** Every fragment is non-empty, has no whitespace at either end, no "  " and no line boundary. */
  lemma FragmentsWellFormed(text: string)
    ensures forall k :: 0 <= k < |Fragments(text)| ==> IsFragment(Fragments(text)[k])
  {
    FragmentsOfLinesWellFormed(SplitLines(text));
  }

  /** Fragments joined with "\n" split back into themselves, and join to "" only when there are
      none. */
  lemma SplitJoinFragments(fs: seq<string>)
    requires forall k :: 0 <= k < |fs| ==> IsFragment(fs[k])
    ensures Join(fs, '\n') == "" <==> fs == []
    ensures fs != [] ==> Split(Join(fs, '\n'), '\n') == fs
  {
    if fs != [] {
      forall k | 0 <= k < |fs|
        ensures '\n' !in fs[k]
      {
        assert IsFragment(fs[k]);
      }
      SplitJoin(fs, '\n');
      assert fs[0] != [];
    }
  }

  /** No line of the output is empty or blank, holds "  " or surrounding whitespace. */
  lemma SplitCleanUp(text: string)
    ensures CleanUp(text) != "" ==> forall piece :: piece in Split(CleanUp(text), '\n') ==> IsFragment(piece)
  {
    FragmentsWellFormed(text);
  }

  // ---------------------------------------------------------------------------------------------
  // Content: only whitespace is removed or changed

  lemma {:induction false} SplitOnDoubleSpaceNonSpace(s: string)
    ensures NonSpace(Flatten(SplitOnDoubleSpace(s))) == NonSpace(s)
    decreases |s|
  {
    var i := DoubleSpaceIndex(s);
    if i == |s| {
      assert SplitOnDoubleSpace(s) == [s];
      FlattenOne(s);
    } else {
      var rest := SplitOnDoubleSpace(s[i + 2..]);
      assert SplitOnDoubleSpace(s) == [s[..i]] + rest;
      FlattenCons(s[..i], rest);
      SplitOnDoubleSpaceNonSpace(s[i + 2..]);
      DoubleSpaceHasNoContent(s, i);
      KeepAppend(s[..i], Flatten(rest), IsNotSpace);
    }
  }

  /** Dropping the "  " at `i` loses no non-whitespace character. */
  lemma DoubleSpaceHasNoContent(s: string, i: nat)
    requires i + 1 < |s| && s[i] == ' ' && s[i + 1] == ' '
    ensures NonSpace(s) == NonSpace(s[..i]) + NonSpace(s[i + 2..])
  {
    ThreeSlices(s, i, i + 2);
    assert s[i..i + 2] == [' ', ' '];
    KeepDropped(s[i..i + 2], IsSpace, IsNotSpace);
    KeepGap(s[..i], s[i..i + 2], s[i + 2..], IsNotSpace);
  }

  lemma {:induction false} PiecesNonSpace(fields: seq<string>)
    ensures NonSpace(Flatten(Pieces(fields))) == NonSpace(Flatten(fields))
    decreases |fields|
  {
    if fields != [] {
      var p := Strip(fields[0]);
      var head := if p == [] then [] else [p];
      PiecesNonSpace(fields[1..]);
      StripNonSpace(fields[0]);
      FlattenAppend(head, Pieces(fields[1..]));
      assert Flatten(head) == p by {
        if p != [] {
          assert head[1..] == [];
          assert Flatten(head) == p + "";
        }
      }
      KeepAppend(p, Flatten(Pieces(fields[1..])), IsNotSpace);
      KeepAppend(fields[0], Flatten(fields[1..]), IsNotSpace);
    }
  }

  lemma LineFragmentsNonSpace(line: string)
    ensures NonSpace(Flatten(LineFragments(line))) == NonSpace(line)
  {
    PiecesNonSpace(SplitOnDoubleSpace(Strip(line)));
    SplitOnDoubleSpaceNonSpace(Strip(line));
    StripNonSpace(line);
  }

  lemma {:induction false} FragmentsOfLinesNonSpace(lines: seq<string>)
    ensures NonSpace(Flatten(FragmentsOfLines(lines))) == NonSpace(Flatten(lines))
    decreases |lines|
  {
    if lines != [] {
      FragmentsOfLinesNonSpace(lines[1..]);
      LineFragmentsNonSpace(lines[0]);
      FlattenAppend(LineFragments(lines[0]), FragmentsOfLines(lines[1..]));
      KeepAppend(Flatten(LineFragments(lines[0])), Flatten(FragmentsOfLines(lines[1..])), IsNotSpace);
      KeepAppend(lines[0], Flatten(lines[1..]), IsNotSpace);
    }
  }

  /** The clean-up only removes or rewrites whitespace: every other character survives, in the
      order of the input, and nothing else is added. */
  lemma CleanUpNonSpace(text: string)
    ensures NonSpace(CleanUp(text)) == NonSpace(text)
  {
    JoinNonSpace(Fragments(text), '\n');
    FragmentsOfLinesNonSpace(SplitLines(text));
    SplitLinesNonSpace(text);
  }

  /** Empty or all-whitespace text, and only such text, cleans up to "". */
  lemma CleanUpEmpty(text: string)
    ensures CleanUp(text) == "" <==> forall i :: 0 <= i < |text| ==> IsSpace(text[i])
  {
    CleanUpNonSpace(text);
    NonSpaceEmpty(text);
    var fs := Fragments(text);
    if fs != [] {
      FragmentsWellFormed(text);
      assert IsFragment(fs[0]);
      NonSpaceEmpty(fs[0]);
      JoinNonSpace(fs, '\n');
      KeepAppend(fs[0], Flatten(fs[1..]), IsNotSpace);

    }
  }

  // ---------------------------------------------------------------------------------------------
  // Idempotence

  lemma FragmentIsItsOwnLine(f: string)
    requires IsFragment(f)
    ensures LineFragments(f) == [f]
  {
    StripIdentity(f, IsSpace);
    assert DoubleSpaceIndex(f) == |f|;
    assert SplitOnDoubleSpace(f) == [f];
    assert Pieces([f]) == [f] + Pieces([]);
  }

  lemma {:induction false} FragmentsOfFragments(fs: seq<string>)
    requires forall k :: 0 <= k < |fs| ==> IsFragment(fs[k])
    ensures FragmentsOfLines(fs) == fs
    decreases |fs|
  {
    if fs != [] {
      var tail := fs[1..];
      forall k | 0 <= k < |tail|
        ensures IsFragment(tail[k])
      {
        assert tail[k] == fs[k + 1];
      }
      FragmentsOfFragments(tail);
      FragmentIsItsOwnLine(fs[0]);
      assert FragmentsOfLines(fs) == [fs[0]] + tail;
      assert [fs[0]] + tail == fs;
    }
  }

  /** Cleaning up joined fragments gives the same fragments back. */
  lemma FragmentsOfJoin(fs: seq<string>)
    requires forall k :: 0 <= k < |fs| ==> IsFragment(fs[k])
    ensures Fragments(Join(fs, '\n')) == fs
  {
    SplitLinesJoin(fs);
    FragmentsOfFragments(fs);
  }

  /** Cleaning up twice is cleaning up once. */
  lemma CleanUpIdempotent(text: string)
    ensures CleanUp(CleanUp(text)) == CleanUp(text)
  {
    FragmentsWellFormed(text);
    FragmentsOfJoin(Fragments(text));
  }

  /** A line followed by "\n" contributes its own fragments ahead of everything after it. */
  lemma FragmentsOfLineThenRest(line: string, rest: string)
    requires NoLineBreak(line)
    ensures Fragments(line + "\n" + rest) == LineFragments(line) + Fragments(rest)
  {
    var s := line + "\n" + rest;
    LineBreakIndexAfter(line, '\n', rest);
    assert s[..|line|] == line;
    assert BreakEnd(s, |line|) == |line| + 1;
    assert s[|line| + 1..] == rest;
  }
}

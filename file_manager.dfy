/** The file names of the artifact store (file_manager.py). Directory creation, writing and
    listing are I/O and stay out; what is modelled is how names are formed and filtered. The URL's
    path comes in as a string: `urlparse` is not part of this model. */
module FileManager {
  import opened Strings
  import opened Sequences

  predicate IsSlash(c: char) { c == '/' }

  function SlashesToUnderscores(s: string): string {
    seq(|s|, i requires 0 <= i < |s| => if s[i] == '/' then '_' else s[i])
  }

  /** `_url_to_filename` for a URL whose path is `path`. */
  function UrlToFilename(path: string): (name: string)
    ensures EndsWith(name, ".txt") && |name| > 4
    ensures '/' !in name
  {
    var stem := SlashesToUnderscores(StripWhere(path, IsSlash));
    (if stem == "" then "index" else stem) + ".txt"
  }

  /** The name without its ".txt" suffix. */
  function Stem(name: string): string
    requires |name| >= 4
  {
    name[..|name| - 4]
  }

  /** An empty path, or one made only of slashes, maps to "index.txt". */
  lemma SlashOnlyPathIsIndex(path: string)
    requires forall i :: 0 <= i < |path| ==> path[i] == '/'
    ensures UrlToFilename(path) == "index.txt"
  {
    var a, b := StripSlice(path, IsSlash);
  }

  /** `stem` is `path[a..b]` with every '/' turned into '_', the slice starts and ends with a
      character other than '/', and only slashes lie outside it. */
  ghost predicate StemOfSlice(path: string, a: int, b: int, stem: string) {
    0 <= a < b <= |path|
    && path[a] != '/' && path[b - 1] != '/'
    && (forall i :: 0 <= i < a ==> path[i] == '/')
    && (forall i :: b <= i < |path| ==> path[i] == '/')
    && |stem| == b - a
    && forall i :: a <= i < b ==> stem[i - a] == (if path[i] == '/' then '_' else path[i])
  }

  lemma StripSlashes(path: string) returns (a: nat, b: nat)
    ensures a <= b <= |path| && StripWhere(path, IsSlash) == path[a..b]
    ensures forall i :: 0 <= i < a ==> path[i] == '/'
    ensures forall i :: b <= i < |path| ==> path[i] == '/'
    ensures a < b ==> path[a] != '/' && path[b - 1] != '/'
  {
    a, b := StripSlice(path, IsSlash);
    if a < b {
      assert path[a] == path[a..b][0] && path[b - 1] == path[a..b][b - a - 1];
    }
  }

  lemma SliceStem(path: string, a: nat, b: nat)
    requires a < b <= |path|
    requires path[a] != '/' && path[b - 1] != '/'
    requires forall i :: 0 <= i < a ==> path[i] == '/'
    requires forall i :: b <= i < |path| ==> path[i] == '/'
    ensures StemOfSlice(path, a, b, SlashesToUnderscores(path[a..b]))
  {
    var stem := SlashesToUnderscores(path[a..b]);
    forall j | a <= j < b
      ensures stem[j - a] == (if path[j] == '/' then '_' else path[j])
    {
      assert path[a..b][j - a] == path[j];
    }
  }

  /** Otherwise the stem is the path without its leading and trailing slashes, every other '/'
      turned into '_'. */
  lemma FilenameOfPath(path: string)
    requires exists i :: 0 <= i < |path| && path[i] != '/'
    ensures exists a, b :: StemOfSlice(path, a, b, Stem(UrlToFilename(path)))
  {
    var a, b := StripSlashes(path);
    var i :| 0 <= i < |path| && path[i] != '/';
    assert a <= i < b;
    var stem := SlashesToUnderscores(path[a..b]);
    assert Stem(UrlToFilename(path)) == stem by {
      assert UrlToFilename(path) == stem + ".txt";
    }
    SliceStem(path, a, b);
  }

  /** A path made of one '/', a middle that starts and ends with a character other than '/', and
      possibly a closing '/' is stored under its middle. */
  lemma NameOfMiddle(mid: string, tail: string)
    requires mid != [] && mid[0] != '/' && mid[|mid| - 1] != '/'
    requires tail == "" || tail == "/"
    ensures UrlToFilename("/" + mid + tail) == SlashesToUnderscores(mid) + ".txt"
  {
    var path := "/" + mid + tail;
    var a, b := StripSlashes(path);
    assert path[1] == mid[0] && path[|mid|] == mid[|mid| - 1];
    assert a == 1 by {
      assert path[0] == '/';
    }
    assert b == |mid| + 1 by {
      assert forall i :: |mid| + 1 <= i < |path| ==> path[i] == '/';
    }
    assert path[a..b] == mid;
  }

  /** Turning '/' into '_' leaves a string without '/' as it is. */
  lemma NoSlashUnchanged(s: string)
    requires '/' !in s
    ensures SlashesToUnderscores(s) == s
  {
    forall i | 0 <= i < |s|
      ensures SlashesToUnderscores(s)[i] == s[i]
    {
      assert s[i] in s;
    }
  }

  /** Distinct paths can share a file name: for segments `x` and `y` without '/', the paths
      "/x/y", "/x/y/" and "/x_y" are all stored as "x_y.txt". */
  lemma NamesCollide(x: string, y: string)
    requires x != [] && y != [] && '/' !in x && '/' !in y
    ensures UrlToFilename("/" + x + "/" + y) == x + "_" + y + ".txt"
    ensures UrlToFilename("/" + x + "/" + y + "/") == x + "_" + y + ".txt"
    ensures UrlToFilename("/" + x + "_" + y) == x + "_" + y + ".txt"
  {
    var slashed, joined := x + "/" + y, x + "_" + y;
    assert slashed[0] == x[0] && joined[0] == x[0] && x[0] in x;
    assert slashed[|slashed| - 1] == y[|y| - 1] && joined[|joined| - 1] == y[|y| - 1] && y[|y| - 1] in y;
    assert "/" + slashed + "" == "/" + x + "/" + y;
    assert "/" + slashed + "/" == "/" + x + "/" + y + "/";
    assert "/" + joined + "" == "/" + x + "_" + y;
    assert SlashesToUnderscores(slashed) == joined by {
      forall i | 0 <= i < |slashed|
        ensures SlashesToUnderscores(slashed)[i] == joined[i]
      {
        if i < |x| {
          assert slashed[i] == x[i] && x[i] in x;
        } else if i > |x| {
          assert slashed[i] == y[i - |x| - 1] && y[i - |x| - 1] in y;
        }
      }
    }
    assert '/' !in joined;
    NoSlashUnchanged(joined);
    NameOfMiddle(slashed, "");
    NameOfMiddle(slashed, "/");
    NameOfMiddle(joined, "");
  }

  /** `get_scraped_files`: the listing's names that end in ".txt", in listing order. */
  function ScrapedFiles(listing: seq<string>): (files: seq<string>)
    ensures forall f :: f in files <==> f in listing && EndsWith(f, ".txt")
    ensures forall f :: multiset(files)[f] == if EndsWith(f, ".txt") then multiset(listing)[f] else 0
    decreases |listing|
  {
    if listing == [] then []
    else
      assert listing == [listing[0]] + listing[1..];
      (if EndsWith(listing[0], ".txt") then [listing[0]] else []) + ScrapedFiles(listing[1..])
  }

  /** The kept names appear in the order of the listing. */
  lemma {:induction false} ScrapedFilesInOrder(listing: seq<string>)
    ensures IsSubsequence(ScrapedFiles(listing), listing)
    decreases |listing|
  {
    if listing != [] {
      ScrapedFilesInOrder(listing[1..]);
      var rest := ScrapedFiles(listing[1..]);
      if EndsWith(listing[0], ".txt") {
        var files := [listing[0]] + rest;
        assert ScrapedFiles(listing) == files;
        assert files[0] == listing[0] && files[1..] == rest;
      } else {
        assert ScrapedFiles(listing) == rest;
        if rest != [] {
          assert rest[0] in rest;
          assert rest[0] != listing[0];
        }
      }
    }
  }

  /** `save_summary`: the summary of the page at `path` goes to the scraped name plus
      "_summary.txt", so the page "/" gets "index.txt_summary.txt". */
  function SummaryFileName(path: string): (name: string)
    ensures EndsWith(name, "_summary.txt")
    ensures EndsWith(name[..|name| - 12], ".txt")
  {
    UrlToFilename(path) + "_summary.txt"
  }

  /** `save_meta_summary`: the domain followed by "_FULL_SUMMARY.txt". */
  function MetaSummaryFileName(domain: string): (name: string)
    ensures |domain| <= |name| && name[..|domain|] == domain
    ensures EndsWith(name, "_FULL_SUMMARY.txt")
  {
    domain + "_FULL_SUMMARY.txt"
  }

  lemma RootSummaryName()
    ensures SummaryFileName("/") == "index.txt_summary.txt"
  {
    SlashOnlyPathIsIndex("/");
  }
}

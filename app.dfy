/** The driver in main.py: rebuilding a page's URL from its stored file name, and the loop of
    `summarize_website` that summarises every stored page and then writes the meta-summary.
    Reading files, HTML parsing and the summariser itself come in as functions; writing files
    becomes the list of writes the run performs. */
module App {
  import opened Strings
  import opened FileManager
  import opened TextCleanup
  import opened Summarizer
  import opened Sequences

  /** Python's `file[:-4]`: everything but the last four characters, or "" when there are fewer. */
  function DropLastFour(file: string): (stem: string)
    ensures |file| >= 4 ==> stem + file[|file| - 4..] == file
    ensures |file| < 4 ==> stem == ""
  {
    if |file| >= 4 then file[..|file| - 4] else ""
  }

  /** Line 68: the URL a stored page is summarised under. */
  function ReconstructUrl(domain: string, file: string): (url: string)
    ensures EndsWith(file, ".txt") ==> url + ".txt" == "https://" + domain + "/" + file
  {
    "https://" + domain + "/" + DropLastFour(file)
  }

  /** Two stored names give the same URL only when they are the same name. */
  lemma ReconstructUrlInjective(domain: string, a: string, b: string)
    requires EndsWith(a, ".txt") && EndsWith(b, ".txt")
    ensures ReconstructUrl(domain, a) == ReconstructUrl(domain, b) <==> a == b
  {
    if ReconstructUrl(domain, a) == ReconstructUrl(domain, b) {
      SameUrlSameName(domain, a, b);
    }
  }

  lemma SameUrlSameName(domain: string, a: string, b: string)
    requires EndsWith(a, ".txt") && EndsWith(b, ".txt")
    requires ReconstructUrl(domain, a) == ReconstructUrl(domain, b)
    ensures a == b
  {
    var prefix := "https://" + domain + "/";
    var sa, sb := DropLastFour(a), DropLastFour(b);
    assert prefix + sa == prefix + sb;
    assert sa == (prefix + sa)[|prefix|..];
    assert sb == (prefix + sb)[|prefix|..];
    assert a == sa + ".txt" && b == sb + ".txt";
  }

  /** Where the path of a URL ends in the last segment `rest` (no '/' in it): `urlparse` cuts the
      fragment at '#', the query at '?' and the parameters at ';'. */
  function SegmentEnd(rest: string): (i: nat)
    ensures i <= |rest|
    ensures forall j :: 0 <= j < i ==> rest[j] != '?' && rest[j] != '#' && rest[j] != ';'
    ensures i < |rest| ==> rest[i] == '?' || rest[i] == '#' || rest[i] == ';'
    decreases |rest|
  {
    if rest == [] || rest[0] == '?' || rest[0] == '#' || rest[0] == ';' then 0 else 1 + SegmentEnd(rest[1..])
  }

  /** The path `urlparse` gives for the rebuilt URL of a stored name: "/" and the stem up to the
      first '?', '#' or ';'. The stem holds no '/', as no stored name does. */
  function RebuiltPath(file: string): (path: string)
    ensures path != [] && path[0] == '/'
    ensures path[1..] <= DropLastFour(file) && NoUrlDelimiter(path[1..])
    ensures |path| - 1 < |DropLastFour(file)| ==>
      var c := DropLastFour(file)[|path| - 1]; c == '?' || c == '#' || c == ';'
  {
    var stem := DropLastFour(file);
    var kept := stem[..SegmentEnd(stem)];
    assert ("/" + kept)[1..] == kept;
    "/" + kept
  }

  predicate NoUrlDelimiter(s: string) {
    '?' !in s && '#' !in s && ';' !in s
  }

  /** Saving the summary under the rebuilt URL reuses the page's own name: for every name
      `_url_to_filename` produces whose stem holds no '?', '#' or ';', the rebuilt URL's path maps
      back to the same name, and the summary goes to that name plus "_summary.txt". */
  lemma RebuiltUrlRoundTrip(path: string)
    requires NoUrlDelimiter(UrlToFilename(path))
    ensures UrlToFilename(RebuiltPath(UrlToFilename(path))) == UrlToFilename(path)
    ensures SummaryFileName(RebuiltPath(UrlToFilename(path))) == UrlToFilename(path) + "_summary.txt"
  {
    var name := UrlToFilename(path);
    var stem := DropLastFour(name);
    assert stem + ".txt" == name;
    assert forall j :: 0 <= j < |stem| ==> stem[j] == name[j];
    assert SegmentEnd(stem) == |stem| by {
      assert stem[..|stem|] == stem;
      SegmentEndAt(stem, |stem|);
    }
    assert stem != "";
    StemIsItsOwnName(stem);
  }

  /** `SegmentEnd` stops at the first '?', '#' or ';', or at the end. */
  lemma {:induction false} SegmentEndAt(s: string, i: nat)
    requires i <= |s| && NoUrlDelimiter(s[..i])
    requires i < |s| ==> s[i] == '?' || s[i] == '#' || s[i] == ';'
    ensures SegmentEnd(s) == i
    decreases i
  {
    if i > 0 {
      assert s[0] == s[..i][0] && s[..i][0] in s[..i];
      assert s[1..][..i - 1] == s[..i][1..];
      SegmentEndAt(s[1..], i - 1);
    }
  }

  /** The rebuilt path of a stored name keeps its stem up to the first '?', '#' or ';'. */
  lemma RebuiltPathOf(stem: string, i: nat)
    requires i <= |stem| && NoUrlDelimiter(stem[..i])
    requires i < |stem| ==> stem[i] == '?' || stem[i] == '#' || stem[i] == ';'
    ensures RebuiltPath(stem + ".txt") == "/" + stem[..i]
  {
    assert DropLastFour(stem + ".txt") == stem by {
      assert (stem + ".txt")[..|stem|] == stem;
    }
    SegmentEndAt(stem, i);
  }

  /** A stem without '?', '#' or ';' is rebuilt whole. */
  lemma RebuiltPathWhole(stem: string)
    requires NoUrlDelimiter(stem)
    ensures RebuiltPath(stem + ".txt") == "/" + stem
  {
    assert stem[..|stem|] == stem;
    RebuiltPathOf(stem, |stem|);
  }

  lemma NoUrlDelimiterJoin(a: string, b: string)
    requires NoUrlDelimiter(a) && NoUrlDelimiter(b)
    ensures NoUrlDelimiter(a + "_" + b)
  {
    var s := a + "_" + b;
    forall i | 0 <= i < |s|
      ensures s[i] != '?' && s[i] != '#' && s[i] != ';'
    {
      if i < |a| {
        assert s[i] == a[i] && a[i] in a;
      } else if i > |a| {
        assert s[i] == b[i - |a| - 1] && b[i - |a| - 1] in b;
      }
    }
  }

  /** A non-empty stem without '/' is stored as itself plus ".txt" when it forms the whole path. */
  lemma StemIsItsOwnName(stem: string)
    requires stem != [] && '/' !in stem
    ensures UrlToFilename("/" + stem[..|stem|]) == stem + ".txt"
  {
    assert stem[..|stem|] == stem;
    var p := "/" + stem;
    var a, b := StripSlashes(p);
    assert p[1] == stem[0] && p[|p| - 1] == stem[|stem| - 1];
    assert a == 1 && b == |p|;
    assert p[1..] == stem;
    assert SlashesToUnderscores(stem) == stem;
  }

  /** The page's own URL is not recovered: "/x/y" and "/x_y" are both stored as "x_y.txt", which
      is rebuilt as "/x_y" (for segments `x`, `y` without '/', '?', '#' or ';'). */
  lemma RebuiltPathLosesSlashes(x: string, y: string)
    requires x != [] && y != [] && '/' !in x && '/' !in y
    requires NoUrlDelimiter(x) && NoUrlDelimiter(y)
    ensures UrlToFilename("/" + x + "/" + y) == UrlToFilename("/" + x + "_" + y) == x + "_" + y + ".txt"
    ensures RebuiltPath(x + "_" + y + ".txt") == "/" + x + "_" + y
  {
    assert "/" + (x + "_" + y) == "/" + x + "_" + y;
    NamesCollide(x, y);
    NoUrlDelimiterJoin(x, y);
    RebuiltPathWhole(x + "_" + y);
  }

  /** A ';' in the last segment breaks the round trip: the path "/x;y/" is stored as "x;y.txt",
      but the rebuilt URL's path is "/x", so the summary goes to "x.txt_summary.txt" and not to
      "x;y.txt_summary.txt". */
  lemma SemicolonBreaksRoundTrip(x: string, y: string)
    requires x != [] && '/' !in x && '/' !in y && NoUrlDelimiter(x)
    ensures UrlToFilename("/" + x + ";" + y + "/") == x + ";" + y + ".txt"
    ensures RebuiltPath(x + ";" + y + ".txt") == "/" + x
    ensures SummaryFileName(RebuiltPath(x + ";" + y + ".txt")) == x + ".txt_summary.txt"
    ensures SummaryFileName(RebuiltPath(x + ";" + y + ".txt")) != UrlToFilename("/" + x + ";" + y + "/") + "_summary.txt"
  {
    assert x + ".txt" + "_summary.txt" == x + ".txt_summary.txt";
    assert x[..|x|] == x;
    SemicolonStored(x, y);
    SemicolonRebuilt(x, y);
    StemIsItsOwnName(x);
  }

  lemma SemicolonStored(x: string, y: string)
    requires x != [] && '/' !in x && '/' !in y
    ensures UrlToFilename("/" + x + ";" + y + "/") == x + ";" + y + ".txt"
  {
    var mid := x + ";" + y;
    assert mid[0] == x[0] && x[0] in x;
    assert mid[|mid| - 1] == ';' || mid[|mid| - 1] in y;
    assert "/" + mid + "/" == "/" + x + ";" + y + "/";
    assert '/' !in mid;
    NoSlashUnchanged(mid);
    NameOfMiddle(mid, "/");
  }

  lemma SemicolonRebuilt(x: string, y: string)
    requires NoUrlDelimiter(x)
    ensures RebuiltPath(x + ";" + y + ".txt") == "/" + x
  {
    var mid := x + ";" + y;
    assert mid[..|x|] == x && mid[|x|] == ';';
    RebuiltPathOf(mid, |x|);
  }

  /** What a run of `summarize_website` writes, in order. */
  datatype Write = SaveSummary(url: string, summary: string) | SaveMetaSummary(text: string)

  /** `all_summaries[url] = summary` on an insertion-ordered dictionary: a new URL is appended, a
      known one keeps its place and takes the new summary. */
  function Put(d: seq<(string, string)>, url: string, summary: string): (r: seq<(string, string)>)
    ensures (forall i :: 0 <= i < |d| ==> d[i].0 != url) ==> r == d + [(url, summary)]
    ensures (exists i :: 0 <= i < |d| && d[i].0 == url) ==> |r| == |d|
    decreases |d|
  {
    if d == [] then [(url, summary)]
    else if d[0].0 == url then [(url, summary)] + d[1..]
    else
      assert forall i :: 1 <= i < |d| ==> d[i] == d[1..][i - 1];
      [d[0]] + Put(d[1..], url, summary)
  }

  /** A URL already in the dictionary, first at position `i`, keeps that position and takes the
      new summary; every other entry stays as it was. */
  lemma {:induction false} PutReplaces(d: seq<(string, string)>, url: string, summary: string, i: nat)
    requires i < |d| && d[i].0 == url
    requires forall j :: 0 <= j < i ==> d[j].0 != url
    ensures Put(d, url, summary) == d[i := (url, summary)]
    decreases |d|
  {
    if i > 0 {
      assert d[0].0 != url;
      PutReplaces(d[1..], url, summary, i - 1);
      assert [d[0]] + d[1..][i - 1 := (url, summary)] == d[i := (url, summary)];
    }
  }

  /** Lines 57-66 for one stored page: its text, cleaned as `extract_text_from_html` does, then
      summarised. `read` stands for reading the file, `getText` for BeautifulSoup's text
      extraction and `summarize` for `AdvancedSummarizer.summarize`. */
  function PageSummary(file: string, read: string -> string, getText: string -> string, summarize: string -> string): string {
    summarize(CleanUp(getText(read(file))))
  }

  /** Only the fragments of a page's text reach the summariser: two pages whose extracted texts
      break into the same fragments get the same summary, whatever their blank lines, runs of
      spaces and surrounding whitespace. */
  lemma SameFragmentsSameSummary(a: string, b: string, read: string -> string, getText: string -> string,
                                 summarize: string -> string)
    requires Fragments(getText(read(a))) == Fragments(getText(read(b)))
    ensures PageSummary(a, read, getText, summarize) == PageSummary(b, read, getText, summarize)
  {
  }

  /** The dictionary `all_summaries` after the pages `files`. */
  function AllSummaries(domain: string, files: seq<string>, read: string -> string, getText: string -> string,
                        summarize: string -> string): seq<(string, string)>
    decreases |files|
  {
    if files == [] then []
    else
      var last := files[|files| - 1];
      Put(AllSummaries(domain, files[..|files| - 1], read, getText, summarize),
          ReconstructUrl(domain, last), PageSummary(last, read, getText, summarize))
  }

  /** `summarize_website`: with no stored page it writes nothing at all; otherwise it saves one
      summary per stored page, in listing order, and then the meta-summary of all of them. */
  method SummarizeWebsite(domain: string, listing: seq<string>, read: string -> string, getText: string -> string,
                          summarize: string -> string) returns (writes: seq<Write>)
    ensures ScrapedFiles(listing) == [] ==> writes == []
    ensures ScrapedFiles(listing) != [] ==>
      var files := ScrapedFiles(listing);
      |writes| == |files| + 1
      && (forall i :: 0 <= i < |files| ==>
            writes[i] == SaveSummary(ReconstructUrl(domain, files[i]), PageSummary(files[i], read, getText, summarize)))
      && writes[|files|] == SaveMetaSummary(MetaSummary(AllSummaries(domain, files, read, getText, summarize)))
  {
    var files := ScrapedFiles(listing);
    if files == [] {
      return [];
    }
    var all;
    all, writes := SummarizePages(domain, files, read, getText, summarize);
    var meta := CreateMetaSummary(all);
    writes := writes + [SaveMetaSummary(meta)];
  }

  /** Lines 55-70: summarise each page, record it under its rebuilt URL and save it. */
  method SummarizePages(domain: string, files: seq<string>, read: string -> string, getText: string -> string,
                        summarize: string -> string) returns (all: seq<(string, string)>, writes: seq<Write>)
    ensures all == AllSummaries(domain, files, read, getText, summarize)
    ensures |writes| == |files|
    ensures forall i :: 0 <= i < |files| ==>
      writes[i] == SaveSummary(ReconstructUrl(domain, files[i]), PageSummary(files[i], read, getText, summarize))
  {
    all, writes := [], [];
    for i := 0 to |files|
      invariant SummarizedUpTo(domain, files, i, read, getText, summarize, all, writes)
    {
      var summary := PageSummary(files[i], read, getText, summarize);
      var url := ReconstructUrl(domain, files[i]);
      SummarizedStep(domain, files, i, read, getText, summarize, all, writes);
      all := Put(all, url, summary);
      writes := writes + [SaveSummary(url, summary)];
    }
    assert files[..|files|] == files;
  }

  /** The state of the loop of `SummarizePages` after the first `i` files. */
  ghost predicate SummarizedUpTo(domain: string, files: seq<string>, i: nat, read: string -> string, getText: string -> string,
                                 summarize: string -> string, all: seq<(string, string)>, writes: seq<Write>)
    requires i <= |files|
  {
    |writes| == i
    && (forall j :: 0 <= j < i ==>
          writes[j] == SaveSummary(ReconstructUrl(domain, files[j]), PageSummary(files[j], read, getText, summarize)))
    && all == AllSummaries(domain, files[..i], read, getText, summarize)
  }

  lemma SummarizedStep(domain: string, files: seq<string>, i: nat, read: string -> string, getText: string -> string,
                       summarize: string -> string, all: seq<(string, string)>, writes: seq<Write>)
    requires i < |files| && SummarizedUpTo(domain, files, i, read, getText, summarize, all, writes)
    ensures SummarizedUpTo(domain, files, i + 1, read, getText, summarize,
      Put(all, ReconstructUrl(domain, files[i]), PageSummary(files[i], read, getText, summarize)),
      writes + [SaveSummary(ReconstructUrl(domain, files[i]), PageSummary(files[i], read, getText, summarize))])
  {
    var w := writes + [SaveSummary(ReconstructUrl(domain, files[i]), PageSummary(files[i], read, getText, summarize))];
    forall j | 0 <= j < i + 1
      ensures w[j] == SaveSummary(ReconstructUrl(domain, files[j]), PageSummary(files[j], read, getText, summarize))
    {
      if j < i {
        assert w[j] == writes[j];
      }
    }
    AllSummariesStep(domain, files, i, read, getText, summarize);
  }

  lemma AllSummariesStep(domain: string, files: seq<string>, i: nat, read: string -> string,
                         getText: string -> string, summarize: string -> string)
    requires i < |files|
    ensures AllSummaries(domain, files[..i + 1], read, getText, summarize)
         == Put(AllSummaries(domain, files[..i], read, getText, summarize),
                ReconstructUrl(domain, files[i]), PageSummary(files[i], read, getText, summarize))
  {
    assert files[..i + 1][..i] == files[..i];
  }

  /** The dictionary entry each file gets when no two files share a URL. */
  function Entries(domain: string, files: seq<string>, read: string -> string, getText: string -> string,
                   summarize: string -> string): (d: seq<(string, string)>)
    ensures |d| == |files|
  {
    seq(|files|, i requires 0 <= i < |files| =>
      (ReconstructUrl(domain, files[i]), PageSummary(files[i], read, getText, summarize)))
  }

  /** With distinct stored names (as a directory listing has) every page gets its own entry: the
      dictionary holds one (URL, summary) pair per file, in listing order. */
  lemma {:induction false} AllSummariesOnePerFile(domain: string, files: seq<string>, read: string -> string,
                                                  getText: string -> string, summarize: string -> string)
    requires Distinct(files) && forall i :: 0 <= i < |files| ==> EndsWith(files[i], ".txt")
    ensures AllSummaries(domain, files, read, getText, summarize) == Entries(domain, files, read, getText, summarize)
    decreases |files|
  {
    if files != [] {
      var n := |files| - 1;
      var pre := files[..n];
      var last := files[n];
      assert Distinct(pre);
      AllSummariesOnePerFile(domain, pre, read, getText, summarize);
      var d := AllSummaries(domain, pre, read, getText, summarize);
      var url := ReconstructUrl(domain, last);
      forall i | 0 <= i < |d|
        ensures d[i].0 != url
      {
        assert d[i].0 == ReconstructUrl(domain, files[i]);
        ReconstructUrlInjective(domain, files[i], last);
      }
      var entry := (url, PageSummary(last, read, getText, summarize));
      assert AllSummaries(domain, files, read, getText, summarize) == d + [entry];
      EntriesStep(domain, files, read, getText, summarize);
    }
  }

  lemma EntriesStep(domain: string, files: seq<string>, read: string -> string, getText: string -> string,
                    summarize: string -> string)
    requires files != []
    ensures Entries(domain, files, read, getText, summarize)
         == Entries(domain, files[..|files| - 1], read, getText, summarize)
            + [(ReconstructUrl(domain, files[|files| - 1]), PageSummary(files[|files| - 1], read, getText, summarize))]
  {
  }
}

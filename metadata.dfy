/**
 * The metadata side of datasources/arxiv.py: `preprocess` (the first rows,
 * then the papers whose categories contain a pattern) and `download` (the
 * papers updated since 2007, one gsutil URL per paper, the URL list file,
 * the download, then `process` and the removal of the scratch directory).
 */
module Metadata {
  import opened Outcomes
  import opened Text
  import opened Paths
  import opened Ordering
  import opened Rows
  import opened Extraction
  import opened Corpus

  // ---------------------------------------------------------------------
  // Lines 37-51: preprocess
  // ---------------------------------------------------------------------

  /** `df.head(n)`: the first `n` rows, or, for a negative `n`, all rows but the last `-n`. */
  function Head<T>(rows: seq<T>, n: int): (r: seq<T>)
    ensures |r| <= |rows| && r == rows[..|r|]
    ensures n >= 0 ==> |r| == (if n <= |rows| then n else |rows|)
    ensures n < 0 ==> |r| == (if -n <= |rows| then |rows| + n else 0)
  {
    if n >= 0 then (if n <= |rows| then rows[..n] else rows)
    else if -n <= |rows| then rows[..|rows| + n]
    else []
  }

  /** One pattern character of `str.contains`: `.` matches any character but a newline, others match themselves. */
  predicate CharMatches(c: char, pc: char) {
    if pc == '.' then c != '\n' else c == pc
  }

  /** The pattern matches `s` starting at index `i`. */
  predicate MatchesAt(s: string, pat: string, i: nat)
    requires i + |pat| <= |s|
  {
    forall j :: 0 <= j < |pat| ==> CharMatches(s[i + j], pat[j])
  }

  /** `s` holds `pat` literally at index `i`. */
  predicate OccursAt(s: string, pat: string, i: nat)
    requires i + |pat| <= |s|
  {
    s[i..i + |pat|] == pat
  }

  /** `Series.str.contains(pat)` on one value. */
  predicate Contains(s: string, pat: string) {
    exists i: nat :: i <= |s| - |pat| && MatchesAt(s, pat, i)
  }

  /** A value that holds the pattern literally is selected, dots and all. */
  lemma LiteralOccurrenceMatches(s: string, pat: string, i: nat)
    requires i + |pat| <= |s| && OccursAt(s, pat, i)
    requires '\n' !in pat
    ensures Contains(s, pat)
  {
    forall j | 0 <= j < |pat| ensures CharMatches(s[i + j], pat[j]) {
      assert s[i + j] == s[i..i + |pat|][j];
    }
    assert MatchesAt(s, pat, i);
  }

  /** A pattern without a dot is selected exactly where it occurs literally. */
  lemma DotlessPatternIsLiteral(s: string, pat: string)
    requires '.' !in pat
    ensures Contains(s, pat) <==> exists i: nat :: i + |pat| <= |s| && OccursAt(s, pat, i)
  {
    if Contains(s, pat) {
      var i: nat :| i <= |s| - |pat| && MatchesAt(s, pat, i);
      assert s[i..i + |pat|] == pat by {
        forall j | 0 <= j < |pat| ensures s[i..i + |pat|][j] == pat[j] {
          assert pat[j] != '.';
          assert CharMatches(s[i + j], pat[j]);
        }
      }
      assert OccursAt(s, pat, i);
    }
    if exists i: nat :: i + |pat| <= |s| && OccursAt(s, pat, i) {
      var i: nat :| i + |pat| <= |s| && OccursAt(s, pat, i);
      forall j | 0 <= j < |pat| ensures CharMatches(s[i + j], pat[j]) {
        assert s[i + j] == s[i..i + |pat|][j];
      }
      assert MatchesAt(s, pat, i);
    }
  }

  /** The category mask of line 44. */
  predicate InCategory(p: Paper, category: string) {
    Contains(p.categories, category)
  }

  /** `preprocess(file, arxiv_category, arxiv_rows)` on the rows read from the file. */
  function Preprocess(rows: seq<Paper>, category: Option<string>, nrows: Option<int>): seq<Paper> {
    var first := if nrows.Some? then Head(rows, nrows.value) else rows;
    if category.Some? then Filter(first, p => InCategory(p, category.value)) else first
  }

  /**
   * `preprocess` truncates first and filters second: a paper is kept exactly
   * when it is among the first rows and its categories contain the pattern;
   * the papers kept are in their order; with neither argument every row is kept.
   */
  lemma PreprocessSelects(rows: seq<Paper>, category: Option<string>, nrows: Option<int>)
    ensures var first := if nrows.Some? then Head(rows, nrows.value) else rows;
      && (forall p :: p in Preprocess(rows, category, nrows) <==>
            p in first && (category.None? || InCategory(p, category.value)))
      && IsSubsequence(Preprocess(rows, category, nrows), first)
    ensures category.None? && nrows.None? ==> Preprocess(rows, category, nrows) == rows
  {
    var first := if nrows.Some? then Head(rows, nrows.value) else rows;
    if category.Some? {
      FilterSelects(first, p => InCategory(p, category.value));
    } else {
      SubsequenceRefl(first);
    }
  }

  // ---------------------------------------------------------------------
  // Lines 463-483: the date filter and the gsutil URLs
  // ---------------------------------------------------------------------

  /** Papers updated before this date are dropped (their ids have the old form). */
  const Cutoff: string := "2007-01-01"

  /** `update_date >= "2007-01-01"`, comparing the strings. */
  predicate Recent(p: Paper) {
    !StrLess(p.updateDate, Cutoff)
  }

  /** Line 463. */
  function DateFilter(rows: seq<Paper>): seq<Paper> {
    Filter(rows, Recent)
  }

  /** The date filter keeps exactly the recent papers, in their order. */
  lemma DateFilterSelects(rows: seq<Paper>)
    ensures forall p :: p in DateFilter(rows) <==> p in rows && Recent(p)
    ensures IsSubsequence(DateFilter(rows), rows)
  {
    FilterSelects(rows, Recent);
  }

  /** The test is a threshold: a paper updated no earlier than a recent one is recent too. */
  lemma RecentIsUpwardClosed(p: Paper, q: Paper)
    requires Recent(p)
    requires !StrLess(q.updateDate, p.updateDate)
    ensures Recent(q)
  {
    StrLessIsOrder();
  }

  const Bucket: string := "gs://arxiv-dataset/arxiv/arxiv/pdf/"

  /** Python's `s[:n]`. */
  function Prefix(s: string, n: nat): string {
    if |s| <= n then s else s[..n]
  }

  /** The URL of line 481 for an id and its latest version label. */
  function UrlOf(id: string, version: string): string {
    Bucket + Prefix(id, 4) + "/" + id + version + ".pdf"
  }

  /** The URL of a paper; `versions[-1]` raises when it has no versions. */
  function GsUrl(p: Paper): Option<string> {
    if p.versions == [] then None else Some(UrlOf(p.id, p.versions[|p.versions| - 1]))
  }

  /** `list_of_gsutil_urls` after the loop of lines 476-483, or None when the loop raises. */
  function Urls(rows: seq<Paper>): (r: Option<seq<string>>)
    ensures r.Some? <==> forall k :: 0 <= k < |rows| ==> rows[k].versions != []
    ensures r.Some? ==> |r.value| == |rows| && forall k :: 0 <= k < |rows| ==> GsUrl(rows[k]) == Some(r.value[k])
  {
    if rows == [] then Some([])
    else
      var init := rows[..|rows| - 1];
      assert forall k :: 0 <= k < |init| ==> init[k] == rows[k];
      match Urls(init)
      case None => None
      case Some(us) =>
        match GsUrl(rows[|rows| - 1])
        case None => None
        case Some(u) => Some(us + [u])
  }

  /** The loop of lines 476-483. */
  method CollectUrls(rows: seq<Paper>) returns (urls: Option<seq<string>>)
    ensures urls == Urls(rows)
  {
    var list: seq<string> := [];
    for k := 0 to |rows|
      invariant Urls(rows[..k]) == Some(list)
    {
      assert rows[..k + 1][..k] == rows[..k];
      var p := rows[k];
      if p.versions == [] {
        return None;
      }
      list := list + [UrlOf(p.id, p.versions[|p.versions| - 1])];
    }
    assert rows[..|rows|] == rows;
    return Some(list);
  }

  /** A versioned file name has no '/' when the id has none. */
  lemma VersionedNoSlash(id: string, d: string)
    requires '/' !in id && forall j :: 0 <= j < |d| ==> IsDigit(d[j])
    ensures '/' !in id + "v" + d
  {
    var stem := id + "v" + d;
    forall j | 0 <= j < |stem| ensures stem[j] != '/' {
      if j < |id| {
        assert stem[j] == id[j];
      } else if j > |id| {
        assert stem[j] == d[j - |id| - 1];
      }
    }
  }

  /** A PDF saved as `dir + stem + ".pdf"` has its text file named `stem + ".txt"`. */
  lemma TextNameOfPdf(dir: string, stem: string)
    requires dir != [] && dir[|dir| - 1] == '/'
    requires stem != [] && '/' !in stem && stem[|stem| - 1] != '.'
    ensures Basename(Reextension(dir + stem + ".pdf", "txt")) == stem + ".txt"
  {
    var r := dir + stem;
    RFindAppend(dir, stem, '/');
    assert RFind(dir, '/') == |dir| - 1;
    assert r[|r| - 1] == stem[|stem| - 1];
    assert HasStem(r);
    assert dir + stem + ".pdf" == r + "." + "pdf";
    RootOfExtended(r, "pdf");
    assert r + "." + "txt" == dir + (stem + ".txt");
    BasenameOfJoin(dir, stem + ".txt");
  }

  /**
   * The URL names a PDF whose file name is the id and the version; once
   * `process` has converted it and moved its text file, the id it derives
   * from that name is the paper's id again, so the join finds the paper.
   */
  lemma DownloadedFileId(p: Paper, d: string)
    requires p.id != [] && '/' !in p.id && NoVersionMark(p.id) && NoTxtRun(p.id)
    requires d != [] && forall j :: 0 <= j < |d| ==> IsDigit(d[j])
    requires p.versions != [] && p.versions[|p.versions| - 1] == "v" + d
    ensures GsUrl(p).Some?
    ensures Basename(GsUrl(p).value) == p.id + "v" + d + ".pdf"
    ensures DeriveId(Basename(Reextension(PdfDir + "/" + Basename(GsUrl(p).value), "txt"))) == p.id
  {
    var id := p.id;
    var stem := id + "v" + d;
    var dir := Bucket + Prefix(id, 4) + "/";
    assert GsUrl(p).value == dir + (stem + ".pdf");
    VersionedNoSlash(id, d);
    assert '/' !in stem + ".pdf";
    BasenameOfJoin(dir, stem + ".pdf");
    assert stem[|stem| - 1] == d[|d| - 1];
    assert PdfDir + "/" + Basename(GsUrl(p).value) == (PdfDir + "/") + stem + ".pdf";
    TextNameOfPdf(PdfDir + "/", stem);
    VersionedFileId(id, d);
    assert DeriveId(stem + ".txt") == id;
  }

  // ---------------------------------------------------------------------
  // Lines 489-492: the URL list file
  // ---------------------------------------------------------------------

  /** What lines 490-492 write: each URL followed by a newline. */
  function Lines(items: seq<string>): string {
    if items == [] then [] else items[0] + "\n" + Lines(items[1..])
  }

  predicate NotNewline(c: char) {
    c != '\n'
  }

  /** How a reader that takes one item per line, as `gsutil cp -I` does, splits a file. */
  function ReadLines(s: string): seq<string>
    decreases |s|
  {
    if s == [] then []
    else
      var n := RunLength(s, NotNewline);
      if n == |s| then [s] else [s[..n]] + ReadLines(s[n + 1..])
  }

  /** The reader gets back every URL written, in order, when no URL holds a newline. */
  lemma {:induction false} ReadLinesOfLines(items: seq<string>)
    requires forall k :: 0 <= k < |items| ==> '\n' !in items[k]
    ensures ReadLines(Lines(items)) == items
  {
    if items != [] {
      var w := items[0];
      var rest := Lines(items[1..]);
      var s := Lines(items);
      assert s == w + ("\n" + rest);
      RunLengthOfPrefix(w, "\n" + rest, NotNewline);
      assert s[..|w|] == w;
      assert s[|w| + 1..] == rest;
      ReadLinesOfLines(items[1..]);
      assert items == [w] + items[1..];
    }
  }

  // ---------------------------------------------------------------------
  // Lines 455-520: download
  // ---------------------------------------------------------------------

  const TmpDir: string := "./tmp"
  const UrlListFile: string := "./tmp/list_of_gsutil_urls.txt"

  /**
   * What line 516 returns: `is_processed`, which is bound only when
   * processing ran; otherwise reading it raises, and line 518 turns that
   * into False.
   */
  function DownloadStatus(runProcess: bool, processed: bool): bool {
    runProcess && processed
  }

  /** Without processing, `download` reports failure whatever happened. */
  lemma UnprocessedDownloadFails(processed: bool)
    ensures !DownloadStatus(false, processed)
  {
  }

  /** The status evidently intended: a download without processing succeeds; with it, it reports `process`. */
  function IntendedDownloadStatus(runProcess: bool, processed: bool): (ok: bool)
    ensures !runProcess ==> ok
    ensures runProcess ==> ok == processed
  {
    !runProcess || processed
  }

  /** The two agree exactly when processing ran. */
  lemma StatusesAgreeWhenProcessing(runProcess: bool, processed: bool)
    ensures DownloadStatus(runProcess, processed) == IntendedDownloadStatus(runProcess, processed) <==> runProcess
  {
  }

  /** Removing a subtree and then the tree that holds it removes just the tree. */
  lemma WithoutNestedTree(files: map<string, string>, sub: string, dir: string)
    requires Under(sub, dir)
    ensures WithoutTree(WithoutTree(files, sub), dir) == WithoutTree(files, dir)
  {
    forall p | Under(p, sub) ensures Under(p, dir) {
      if p != sub && sub != dir {
        assert p[..|dir| + 1] == sub[..|dir| + 1];
      } else if p != sub {
        assert p[..|dir| + 1] == (sub + "/")[..|dir| + 1];
      }
    }
  }

  /** The four `rm -rf` calls of lines 503-510 together remove the scratch directory. */
  lemma ScratchRemoved(files: map<string, string>)
    ensures WithoutTree(WithoutTree(WithoutTree(WithoutTree(files, PdfDir), UrlListFile), TxtDir), TmpDir)
         == WithoutTree(files, TmpDir)
  {
    var a := WithoutTree(files, PdfDir);
    var b := WithoutTree(a, UrlListFile);
    WithoutNestedTree(b, TxtDir, TmpDir);
    WithoutNestedTree(a, UrlListFile, TmpDir);
    WithoutNestedTree(files, PdfDir, TmpDir);
  }

  /**
   * `download(arxiv_metadata_df, arxiv_process=runProcess)`. `fetched` is
   * what gsutil writes under the PDF directory; `globbed`, `cpuCount`,
   * `tools`, `fix`, `words` and `listdir` are passed on to `process`.
   * Returns the status and the records `process` wrote.
   */
  method Download(ws: Workspace, metadata: seq<Paper>, runProcess: bool, fetched: map<string, string>,
                  globbed: seq<string>, cpuCount: int, tools: string -> Tools, fix: string -> string,
                  words: set<string>, listdir: map<string, string> -> seq<string>)
    returns (status: bool, corpus: seq<Record>)
    requires forall fs :: Lists(listdir(fs), fs)
    modifies ws
    ensures var urls := Urls(DateFilter(metadata));
      urls.None? ==> !status && corpus == [] && ws.files == old(ws.files)
    ensures !runProcess ==> !status && corpus == []
    ensures var rows := DateFilter(metadata);
      var urls := Urls(rows);
      urls.Some? ==>
        var staged := old(ws.files)[UrlListFile := Lines(urls.value)] + fetched;
        var after := ProcessedFiles(staged, globbed, cpuCount, tools, fix);
        if runProcess then
          && status == ProcessSucceeds(staged, globbed, cpuCount, tools, fix)
          && ws.files == WithoutTree(after, TmpDir)
          && corpus == (if status then ProcessedCorpus(after, rows, words, listdir) else [])
        else ws.files == staged
  {
    var rows := DateFilter(metadata);
    var urls := CollectUrls(rows);
    if urls.None? {
      return false, [];
    }
    ws.Write(UrlListFile, Lines(urls.value));
    ws.Receive(fetched);
    var processed := false;
    corpus := [];
    if runProcess {
      processed, corpus := Process(ws, globbed, rows, cpuCount, tools, fix, words, listdir);
      ghost var after := ws.files;
      ws.RemoveTree(PdfDir);
      ws.RemoveTree(UrlListFile);
      ws.RemoveTree(TxtDir);
      ws.RemoveTree(TmpDir);
      ScratchRemoved(after);
    }
    status := DownloadStatus(runProcess, processed);
  }
}

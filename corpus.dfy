/**
 * `process` (datasources/arxiv.py): convert the downloaded PDFs in natural
 * order, move each text file into the text directory and delete its PDF,
 * read and clean every text file listed there, derive each paper's id from
 * its file name, drop duplicate ids from both frames, join them on the id,
 * clean the abstracts, and report True; any exception on the way makes it
 * report False.
 */
module Corpus {
  import opened Outcomes
  import opened Text
  import opened Paths
  import opened Ordering
  import opened Rows
  import opened NaturalSort
  import opened Extraction
  import opened Cleaner

  /** Where the PDFs are downloaded and where their text files are collected. */
  const PdfDir: string := "./tmp/arxiv_pdf"
  const TxtDir: string := "./tmp/arxiv_txt"

  /**
   * A row of the arXiv metadata, with the columns the pipeline reads;
   * `versions` holds the version labels ("v1", "v2", ...) oldest first.
   */
  datatype Paper = Paper(id: string, abstractText: string, categories: string, updateDate: string, versions: seq<string>)

  /** A row of the full-text frame: the `id` and `text` columns. */
  datatype Fulltext = Fulltext(id: string, text: string)

  /** A row of the merged frame: the metadata columns and the text. */
  datatype Record = Record(paper: Paper, text: string)

  function PaperId(p: Paper): string { p.id }
  function TextId(t: Fulltext): string { t.id }
  function RecordId(r: Record): string { r.paper.id }

  // ---------------------------------------------------------------------
  // Line 429: the id of a text file
  // ---------------------------------------------------------------------

  /** `re.sub(r"v\d+", "", s)`: each `v` followed by digits goes, with all of the digits. */
  function StripVersions(s: string): string
    decreases |s|
  {
    if s == [] then []
    else if s[0] == 'v' && |s| > 1 && IsDigit(s[1]) then StripVersions(s[1..][RunLength(s[1..], IsDigit)..])
    else [s[0]] + StripVersions(s[1..])
  }

  /** `re.sub(r".txt", "", s)`: the dot is not escaped, so any character but a newline before `txt` goes with it. */
  function StripTxt(s: string): string
    decreases |s|
  {
    if TxtAt(s) then StripTxt(s[4..])
    else if s == [] then []
    else [s[0]] + StripTxt(s[1..])
  }

  /** `.txt` matches at the start of `s`. */
  predicate TxtAt(s: string) {
    |s| >= 4 && s[0] != '\n' && s[1] == 't' && s[2] == 'x' && s[3] == 't'
  }

  /** The id column after line 429, from the file name. */
  function DeriveId(name: string): string {
    StripTxt(StripVersions(name))
  }

  /** No `v` directly followed by a digit. */
  predicate NoVersionMark(x: string) {
    forall j :: 0 <= j < |x| - 1 ==> !(x[j] == 'v' && IsDigit(x[j + 1]))
  }

  /** No `txt` after the first character. */
  predicate NoTxtRun(x: string) {
    forall j :: 1 <= j && j + 3 <= |x| ==> !(x[j] == 't' && x[j + 1] == 'x' && x[j + 2] == 't')
  }

  /** A first character that does not start a version mark is kept. */
  lemma StripVersionsHead(s: string)
    requires s != [] && !(s[0] == 'v' && |s| > 1 && IsDigit(s[1]))
    ensures StripVersions(s) == [s[0]] + StripVersions(s[1..])
  {
  }

  lemma NoVersionMarkTail(x: string)
    requires x != [] && NoVersionMark(x)
    ensures NoVersionMark(x[1..])
  {
    forall j | 0 <= j < |x[1..]| - 1 ensures !(x[1..][j] == 'v' && IsDigit(x[1..][j + 1])) {
      assert x[1..][j] == x[j + 1] && x[1..][j + 1] == x[j + 2];
    }
  }

  lemma {:induction false} StripVersionsKeeps(x: string, t: string)
    requires NoVersionMark(x)
    requires x != [] && t != [] ==> !(x[|x| - 1] == 'v' && IsDigit(t[0]))
    ensures StripVersions(x + t) == x + StripVersions(t)
  {
    if x != [] {
      KeepsHead(x, t);
      NoVersionMarkTail(x);
      assert x[1..] != [] ==> x[1..][|x[1..]| - 1] == x[|x| - 1];
      StripVersionsKeeps(x[1..], t);
      ConsAppend(x, StripVersions(t));
    } else {
      assert x + t == t;
    }
  }

  lemma ConsAppend(x: string, r: string)
    requires x != []
    ensures [x[0]] + (x[1..] + r) == x + r
  {
    assert x == [x[0]] + x[1..];
  }

  /** The first character of a text without a version mark in front is kept. */
  lemma KeepsHead(x: string, t: string)
    requires x != [] && NoVersionMark(x)
    requires t != [] ==> !(x[|x| - 1] == 'v' && IsDigit(t[0]))
    ensures StripVersions(x + t) == [x[0]] + StripVersions(x[1..] + t)
  {
    var s := x + t;
    assert s[0] == x[0] && s[1..] == x[1..] + t;
    if |x| > 1 {
      assert s[1] == x[1];
      assert !(x[0] == 'v' && IsDigit(x[1]));
    } else if t != [] {
      assert s[1] == t[0];
    }
    StripVersionsHead(s);
  }

  lemma VersionGoes(d: string, rest: string)
    requires d != [] && forall j :: 0 <= j < |d| ==> IsDigit(d[j])
    requires rest == [] || !IsDigit(rest[0])
    ensures StripVersions("v" + (d + rest)) == StripVersions(rest)
  {
    var u := d + rest;
    var s := "v" + u;
    assert s[0] == 'v' && s[1..] == u;
    assert IsDigit(s[1]) by {
      assert s[1] == u[0] == d[0];
    }
    RunLengthOfPrefix(d, rest, IsDigit);
    assert u[|d|..] == rest;
  }

  lemma {:induction false} StripTxtExtension(x: string)
    requires NoTxtRun(x)
    ensures StripTxt(x + ".txt") == x
  {
    var s := x + ".txt";
    if x == [] {
      assert s == ".txt";
      assert StripTxt(s[4..]) == [];
    } else {
      assert !TxtAt(s) by {
        if |x| >= 4 {
          assert s[1] == x[1] && s[2] == x[2] && s[3] == x[3];
        } else {
          assert s[|x|] == '.';
        }
      }
      assert NoTxtRun(x[1..]) by {
        forall j | 1 <= j && j + 3 <= |x[1..]|
          ensures !(x[1..][j] == 't' && x[1..][j + 1] == 'x' && x[1..][j + 2] == 't')
        {
          assert x[1..][j] == x[j + 1] && x[1..][j + 1] == x[j + 2] && x[1..][j + 2] == x[j + 3];
        }
      }
      StripTxtExtension(x[1..]);
      assert s[1..] == x[1..] + ".txt";
    }
  }

  /**
   * A file named after an id, a version and `.txt` gets that id back, as
   * long as the id holds no `v` followed by a digit and no `txt` after its
   * first character.
   */
  lemma VersionedFileId(x: string, d: string)
    requires NoVersionMark(x) && NoTxtRun(x)
    requires d != [] && forall j :: 0 <= j < |d| ==> IsDigit(d[j])
    ensures DeriveId(x + "v" + d + ".txt") == x
  {
    var vt := "v" + (d + ".txt");
    Associate(x, "v", d, ".txt");
    StripVersionsKeeps(x, vt);
    VersionGoes(d, ".txt");
    StripVersionsTxt();
    assert StripVersions(x + vt) == x + ".txt";
    StripTxtExtension(x);
  }

  lemma StripVersionsTxt()
    ensures StripVersions(".txt") == ".txt"
  {
    StripVersionsNone(".txt");
  }

  lemma Associate(a: string, b: string, c: string, e: string)
    ensures a + b + c + e == a + (b + (c + e))
  {
  }

  lemma {:induction false} StripVersionsNone(x: string)
    requires forall j :: 0 <= j < |x| ==> x[j] != 'v'
    ensures StripVersions(x) == x
  {
    if x != [] {
      assert forall j :: 0 <= j < |x[1..]| ==> x[1..][j] == x[j + 1];
      StripVersionsNone(x[1..]);
    }
  }

  /** `1701.00001v2.txt` becomes `1701.00001`. */
  lemma VersionedFileExample()
    ensures DeriveId("1701.00001v2.txt") == "1701.00001"
  {
    var x := "1701.00001";
    assert forall j :: 0 <= j < |x| ==> x[j] != 'v' && x[j] != 't';
    VersionedFileId(x, "2");
    assert x + "v" + "2" + ".txt" == "1701.00001v2.txt";
  }

  /** A first character that does not start a match of `.txt` is kept. */
  lemma StripTxtKeep(s: string)
    requires s != [] && !TxtAt(s)
    ensures StripTxt(s) == [s[0]] + StripTxt(s[1..])
  {
  }

  /** A match of `.txt` at the start goes. */
  lemma StripTxtSkip(s: string)
    requires TxtAt(s)
    ensures StripTxt(s) == StripTxt(s[4..])
  {
  }

  /** `ntxt.txt`: the first match is `ntxt`, the second `.txt`. */
  lemma StripTxtTail()
    ensures StripTxt("ntxt.txt") == []
  {
    var u := "ntxt.txt";
    var t := u[4..];
    assert t == ".txt" && TxtAt(t) && t[4..] == [];
    StripTxtSkip(t);
    assert TxtAt(u);
    StripTxtSkip(u);
  }

  lemma StripTxtContxt()
    ensures StripTxt("contxt.txt") == "co"
  {
    var s := "contxt.txt";
    var w := s[1..];
    StripTxtTail();
    assert !TxtAt(w) && w[1..] == "ntxt.txt";
    StripTxtKeep(w);
    assert !TxtAt(s) && s[1..] == w;
    StripTxtKeep(s);
  }

  /** The unescaped dot: in `contxt.txt` the `n` before the first `txt` goes too. */
  lemma AnyCharacterBeforeTxt()
    ensures DeriveId("contxt.txt") == "co"
  {
    StripVersionsNone("contxt.txt");
    StripTxtContxt();
  }

  // ---------------------------------------------------------------------
  // Line 441: the abstract cleanup
  // ---------------------------------------------------------------------

  /** `\s+[a-zA-Z]\s+` -> `' '`, then `\s+` -> `' '`, then `strip()`. */
  function CleanAbstract(a: string): string {
    Strip(Replace(Whitespace, Replace(SingleLetter(true), a)))
  }

  /** A cleaned abstract has no whitespace at either end and no two whitespace characters in a row. */
  lemma CleanAbstractSingleSpaced(a: string)
    ensures SingleSpaced(CleanAbstract(a))
  {
    var t := Replace(SingleLetter(true), a);
    var r := Replace(Whitespace, t);
    WhitespaceCollapsed(t, 0);
    assert r == Sub(Whitespace, t, 0);
    StripCollapsed(r);
  }

  /** Stripping a text whose whitespace is single spaces leaves it single-spaced. */
  lemma StripCollapsed(r: string)
    requires forall j :: 0 <= j < |r| && IsSpace(r[j]) ==> r[j] == ' ' && (j + 1 < |r| ==> !IsSpace(r[j + 1]))
    ensures SingleSpaced(Strip(r))
  {
    var c := Strip(r);
    var lead := LeadingSpaces(r);
    forall j | 0 <= j < |c| && IsSpace(c[j]) ensures c[j] == ' ' && 0 < j < |c| - 1 && !IsSpace(c[j + 1]) {
      assert c[j] == r[lead + j];
      assert j + 1 < |c| ==> c[j + 1] == r[lead + j + 1];
    }
  }

  function CleanRecord(r: Record): Record {
    Record(r.paper.(abstractText := CleanAbstract(r.paper.abstractText)), r.text)
  }

  // ---------------------------------------------------------------------
  // Line 436: the inner join
  // ---------------------------------------------------------------------

  /** The records `p` gets in the join: one per text with its id, in the order of the texts. */
  function Partners(p: Paper, texts: seq<Fulltext>): (m: seq<Record>)
    ensures forall k :: 0 <= k < |m| ==> m[k].paper == p && Fulltext(p.id, m[k].text) in texts
  {
    if texts == [] then []
    else
      var rest := Partners(p, texts[1..]);
      if texts[0].id == p.id then [Record(p, texts[0].text)] + rest else rest
  }

  /** `pd.merge(papers, texts, on="id")`: an inner join, in the order of the papers. */
  function Merge(papers: seq<Paper>, texts: seq<Fulltext>): (m: seq<Record>)
    ensures forall k :: 0 <= k < |m| ==> m[k].paper in papers && Fulltext(m[k].paper.id, m[k].text) in texts
  {
    if papers == [] then []
    else
      var rest := Merge(papers[1..], texts);
      assert forall k :: 0 <= k < |rest| ==> rest[k].paper in papers;
      Partners(papers[0], texts) + rest
  }

  /** The record the join has for `id`: the paper and the text with that id, when both exist. */
  function Joined(papers: seq<Paper>, texts: seq<Fulltext>, id: string): Option<Record> {
    match (Find(papers, PaperId, id), Find(texts, TextId, id))
    case (Some(p), Some(t)) => Some(Record(p, t.text))
    case _ => None
  }

  lemma {:induction false} PartnersOfUnique(p: Paper, texts: seq<Fulltext>)
    requires UniqueKeys(texts, TextId)
    ensures Partners(p, texts) == match Find(texts, TextId, p.id)
      case Some(t) => [Record(p, t.text)]
      case None => []
  {
    if texts != [] {
      assert UniqueKeys(texts[1..], TextId);
      PartnersOfUnique(p, texts[1..]);
      if texts[0].id == p.id {
        assert Find(texts[1..], TextId, p.id).None? by {
          forall i | 0 <= i < |texts[1..]| ensures texts[1..][i].id != p.id {
            assert TextId(texts[0]) != TextId(texts[i + 1]);
          }
        }
      }
    }
  }

  lemma {:induction false} MergeUnique(papers: seq<Paper>, texts: seq<Fulltext>)
    requires UniqueKeys(papers, PaperId) && UniqueKeys(texts, TextId)
    ensures UniqueKeys(Merge(papers, texts), RecordId)
  {
    if papers != [] {
      var p := papers[0];
      var rest := Merge(papers[1..], texts);
      assert UniqueKeys(papers[1..], PaperId);
      MergeUnique(papers[1..], texts);
      PartnersOfUnique(p, texts);
      LaterRecordsDiffer(papers, texts);
    }
  }

  /** With unique paper ids, no record joined from the later papers has the first paper's id. */
  lemma LaterRecordsDiffer(papers: seq<Paper>, texts: seq<Fulltext>)
    requires papers != [] && UniqueKeys(papers, PaperId)
    ensures var rest := Merge(papers[1..], texts);
      forall k :: 0 <= k < |rest| ==> RecordId(rest[k]) != papers[0].id
  {
    var rest := Merge(papers[1..], texts);
    forall k | 0 <= k < |rest| ensures RecordId(rest[k]) != papers[0].id {
      var i :| 0 <= i < |papers[1..]| && papers[1..][i] == rest[k].paper;
      assert PaperId(papers[0]) != PaperId(papers[i + 1]);
    }
  }

  lemma {:induction false} MergeFind(papers: seq<Paper>, texts: seq<Fulltext>, id: string)
    requires UniqueKeys(papers, PaperId) && UniqueKeys(texts, TextId)
    ensures Find(Merge(papers, texts), RecordId, id) == Joined(papers, texts, id)
  {
    if papers != [] {
      var p := papers[0];
      var part := Partners(p, texts);
      var rest := Merge(papers[1..], texts);
      assert UniqueKeys(papers[1..], PaperId);
      PartnersOfUnique(p, texts);
      FindAppend(part, rest, RecordId, id);
      if id == p.id {
        assert Find(papers, PaperId, id) == Some(p);
        if part == [] {
          LaterRecordsDiffer(papers, texts);
          assert Find(rest, RecordId, id).None?;
        }
      } else {
        assert Find(papers, PaperId, id) == Find(papers[1..], PaperId, id);
        MergeFind(papers[1..], texts, id);
      }
    }
  }

  /**
   * Joining frames with unique ids: the ids stay unique, and the join holds
   * a record for an id exactly when both frames have a row with it; the
   * record is that paper with that text.
   */
  lemma MergeIsInnerJoin(papers: seq<Paper>, texts: seq<Fulltext>)
    requires UniqueKeys(papers, PaperId) && UniqueKeys(texts, TextId)
    ensures UniqueKeys(Merge(papers, texts), RecordId)
    ensures forall id :: Find(Merge(papers, texts), RecordId, id) == Joined(papers, texts, id)
  {
    MergeUnique(papers, texts);
    forall id ensures Find(Merge(papers, texts), RecordId, id) == Joined(papers, texts, id) {
      MergeFind(papers, texts, id);
    }
  }

  // ---------------------------------------------------------------------
  // Lines 414-441: from the text directory to the corpus
  // ---------------------------------------------------------------------

  /** `os.path.join(TxtDir, name)` for a name without '/'. */
  function InTxtDir(name: string): string {
    TxtDir + "/" + name
  }

  /** `os.listdir(TxtDir)`: every file directly in the directory, each once, in the order the system gives. */
  ghost predicate Lists(names: seq<string>, files: map<string, string>) {
    && (forall i, j :: 0 <= i < j < |names| ==> names[i] != names[j])
    && (forall n :: n in names <==> n != [] && '/' !in n && InTxtDir(n) in files)
  }

  predicate IsTxtName(name: string) {
    EndsWith(name, ".txt")
  }

  /** `pdf2txt.cleaned_text` with the English word list `words`. */
  function CleanWith(words: set<string>): string -> string {
    t => CleanedText(t, words)
  }

  /** Every text `CleanWith(words)` returns has the shape `cleaned_text` promises. */
  lemma CleanWithCleans(words: set<string>)
    ensures forall t :: Cleaned(CleanWith(words)(t), words)
  {
    forall t ensures Cleaned(CleanWith(words)(t), words) {
      CleanedTextShape(t, words);
    }
  }

  /** The row line 422 appends for the file `name`: the name and the contents, cleaned by `clean`. */
  function TextRow(files: map<string, string>, name: string, clean: string -> string): Fulltext
    requires InTxtDir(name) in files
  {
    Fulltext(name, clean(files[InTxtDir(name)]))
  }

  /** `file_list` after the loop of lines 419-425 has read `names`. */
  function ReadTexts(names: seq<string>, files: map<string, string>, clean: string -> string): (rows: seq<Fulltext>)
    requires forall k :: 0 <= k < |names| ==> InTxtDir(names[k]) in files
    ensures |rows| == |names|
  {
    if names == [] then []
    else ReadTexts(names[..|names| - 1], files, clean) + [TextRow(files, names[|names| - 1], clean)]
  }

  function WithDerivedId(t: Fulltext): Fulltext {
    Fulltext(DeriveId(t.id), t.text)
  }

  /** Lines 429-441 on the rows read and the metadata. */
  function Assemble(fileList: seq<Fulltext>, metadata: seq<Paper>): seq<Record> {
    var texts := DropDuplicates(Map(WithDerivedId, fileList), TextId);
    var papers := DropDuplicates(metadata, PaperId);
    Map(CleanRecord, Merge(papers, texts))
  }

  /** The corpus record for `id` by its definition: the join of the metadata with the rows read, abstract cleaned. */
  function CleanedJoin(metadata: seq<Paper>, fileList: seq<Fulltext>, id: string): Option<Record> {
    match Joined(metadata, Map(WithDerivedId, fileList), id)
    case Some(r) => Some(CleanRecord(r))
    case None => None
  }

  /**
   * The corpus has one record per id that occurs both in the metadata and
   * among the ids derived from the text files, and no other. Its paper is
   * the first metadata row with the id, its abstract cleaned; its text is
   * that of the first file, in listing order, whose name gives the id.
   */
  lemma AssembledCorpus(fileList: seq<Fulltext>, metadata: seq<Paper>)
    ensures UniqueKeys(Assemble(fileList, metadata), RecordId)
    ensures forall id :: Find(Assemble(fileList, metadata), RecordId, id) == CleanedJoin(metadata, fileList, id)
  {
    var texts := DropDuplicates(Map(WithDerivedId, fileList), TextId);
    var papers := DropDuplicates(metadata, PaperId);
    DropDuplicatesKeepsFirst(Map(WithDerivedId, fileList), TextId);
    DropDuplicatesKeepsFirst(metadata, PaperId);
    MergeIsInnerJoin(papers, texts);
    var m := Merge(papers, texts);
    MapUniqueKeys(CleanRecord, m, RecordId);
    forall id ensures Find(Assemble(fileList, metadata), RecordId, id) == CleanedJoin(metadata, fileList, id) {
      FindMap(CleanRecord, m, RecordId, id);
      assert Joined(papers, texts, id) == Joined(metadata, Map(WithDerivedId, fileList), id);
    }
  }

  /** Every abstract in the corpus is single-spaced. */
  lemma CorpusAbstracts(fileList: seq<Fulltext>, metadata: seq<Paper>)
    ensures forall k :: 0 <= k < |Assemble(fileList, metadata)| ==>
      SingleSpaced(Assemble(fileList, metadata)[k].paper.abstractText)
  {
    var corpus := Assemble(fileList, metadata);
    forall k | 0 <= k < |corpus| ensures SingleSpaced(corpus[k].paper.abstractText) {
      var m := Merge(DropDuplicates(metadata, PaperId), DropDuplicates(Map(WithDerivedId, fileList), TextId));
      assert corpus[k] == CleanRecord(m[k]);
      CleanAbstractSingleSpaced(m[k].paper.abstractText);
    }
  }

  lemma {:induction false} ReadTextsRow(names: seq<string>, files: map<string, string>, clean: string -> string, k: nat)
    requires forall k :: 0 <= k < |names| ==> InTxtDir(names[k]) in files
    requires k < |names|
    ensures ReadTexts(names, files, clean)[k] == TextRow(files, names[k], clean)
  {
    var n := |names| - 1;
    var init := names[..n];
    var rows := ReadTexts(names, files, clean);
    var prev := ReadTexts(init, files, clean);
    assert rows == prev + [TextRow(files, names[n], clean)];
    if k < n {
      assert init[k] == names[k];
      ReadTextsRow(init, files, clean, k);
      assert rows[k] == prev[k];
    }
  }

  /** Every row read holds the name of its file and a text `clean` returned. */
  lemma ReadTextsCleaned(names: seq<string>, files: map<string, string>, clean: string -> string, words: set<string>)
    requires forall k :: 0 <= k < |names| ==> InTxtDir(names[k]) in files
    requires forall t :: Cleaned(clean(t), words)
    ensures forall k :: 0 <= k < |names| ==>
      ReadTexts(names, files, clean)[k].id == names[k] && Cleaned(ReadTexts(names, files, clean)[k].text, words)
  {
    forall k | 0 <= k < |names|
      ensures ReadTexts(names, files, clean)[k].id == names[k] && Cleaned(ReadTexts(names, files, clean)[k].text, words)
    {
      ReadTextsRow(names, files, clean, k);
    }
  }

  /** Each text in the corpus is the text of one of the rows read. */
  lemma CorpusTextsFrom(fileList: seq<Fulltext>, metadata: seq<Paper>, k: nat)
    requires k < |Assemble(fileList, metadata)|
    ensures exists i :: 0 <= i < |fileList| && Assemble(fileList, metadata)[k].text == fileList[i].text
  {
    var derived := Map(WithDerivedId, fileList);
    var texts := DropDuplicates(derived, TextId);
    DropDuplicatesKeepsFirst(derived, TextId);
    SubsequenceMembers(texts, derived);
    var m := Merge(DropDuplicates(metadata, PaperId), texts);
    var row := Fulltext(m[k].paper.id, m[k].text);
    assert row in derived;
    var i :| 0 <= i < |derived| && derived[i] == row;
    assert Assemble(fileList, metadata)[k].text == m[k].text == fileList[i].text;
  }

  /** The text of every corpus record has the shape `cleaned_text` promises. */
  lemma CorpusTexts(names: seq<string>, files: map<string, string>, words: set<string>, metadata: seq<Paper>)
    requires forall k :: 0 <= k < |names| ==> InTxtDir(names[k]) in files
    ensures forall k :: 0 <= k < |Assemble(ReadTexts(names, files, CleanWith(words)), metadata)| ==>
      Cleaned(Assemble(ReadTexts(names, files, CleanWith(words)), metadata)[k].text, words)
  {
    var fileList := ReadTexts(names, files, CleanWith(words));
    CleanWithCleans(words);
    ReadTextsCleaned(names, files, CleanWith(words), words);
    var corpus := Assemble(fileList, metadata);
    forall k | 0 <= k < |corpus| ensures Cleaned(corpus[k].text, words) {
      CorpusTextsFrom(fileList, metadata, k);
    }
  }

  // ---------------------------------------------------------------------
  // Lines 391-409: conversion and the move into the text directory
  // ---------------------------------------------------------------------

  /** `Pool(os.cpu_count() - 2)`, which raises unless the size is at least 1. */
  function PoolSize(cpuCount: int): int {
    cpuCount - 2
  }

  /** The file system after `convert_safe` ran on each PDF; `tools(pdf)` is what the extractors do on `pdf`. */
  function ConvertAll(files: map<string, string>, pdfs: seq<string>, tools: string -> Tools, fix: string -> string): map<string, string>
    decreases |pdfs|
  {
    if pdfs == [] then files
    else ConvertAll(Conversion(files, pdfs[0], tools(pdfs[0]), fix).files, pdfs[1..], tools, fix)
  }

  /** How far the loop of lines 406-409 got: whether it finished, and the file system where it stopped. */
  datatype Stage = Stage(done: bool, files: map<string, string>)

  /** One round of the loop: move the text file of `pdf` into the text directory, then delete `pdf`. */
  function MoveStep(files: map<string, string>, pdf: string): Stage {
    var txt := Reextension(pdf, "txt");
    if !MoveOk(files, txt, TxtDir) then Stage(false, files)
    else
      var moved := Moved(files, txt, TxtDir);
      Stage(pdf in moved, moved - {pdf})
  }

  function MoveAll(files: map<string, string>, pdfs: seq<string>): Stage
    decreases |pdfs|
  {
    if pdfs == [] then Stage(true, files)
    else
      var s := MoveStep(files, pdfs[0]);
      if !s.done then s else MoveAll(s.files, pdfs[1..])
  }

  /** A path under the PDF directory. */
  predicate InPdfDir(p: string) {
    StartsWith(p, PdfDir + "/")
  }

  lemma UnderPdfDir(p: string)
    requires InPdfDir(p)
    ensures InPdfDir(Reextension(p, "txt"))
  {
    var root := Root(p);
    var sep := RFind(p, '/');
    assert p[|PdfDir|] == '/';
    assert sep >= |PdfDir|;
    if root != p {
      var j :| sep < j < |root| && p[j] != '.';
    }
    assert root[..|PdfDir| + 1] == p[..|PdfDir| + 1];
  }

  lemma JoinTxtDir(name: string)
    requires '/' !in name
    ensures PathJoin(TxtDir, name) == TxtDir + "/" + name
  {
    assert !StartsWith(name, "/") by {
      if name != [] {
        assert name[0] != '/';
      }
    }
    assert TxtDir[|TxtDir| - 1] == 't';
  }

  /** A round of the move loop adds only a file under the text directory. */
  lemma MoveStepKeeps(files: map<string, string>, pdf: string, q: string)
    requires MoveStep(files, pdf).done
    requires InPdfDir(q)
    requires q in MoveStep(files, pdf).files
    ensures q in files
  {
    var txt := Reextension(pdf, "txt");
    var b := Basename(txt);
    JoinTxtDir(b);
    var dest := PathJoin(TxtDir, b);
    DirsDiffer();
    assert dest[12] == TxtDir[12];
    assert q[12] == (PdfDir + "/")[12] == PdfDir[12];
  }

  /**
   * Step of MoveStepKeeps: `./tmp/arxiv_pdf` and `./tmp/arxiv_txt` part at
   * their thirteenth character, so no text-directory path lies under the PDF
   * directory.
   */
  lemma DirsDiffer()
    ensures |PdfDir| == |TxtDir| == 15
    ensures PdfDir[12] == 'p' && TxtDir[12] == 't'
  {
  }

  /** A round of the move loop succeeds only if the text file of its PDF is there. */
  lemma MoveStepNeedsText(files: map<string, string>, pdf: string)
    requires MoveStep(files, pdf).done
    ensures Reextension(pdf, "txt") in files
  {
  }

  lemma MoveAllFirst(files: map<string, string>, pdfs: seq<string>)
    requires pdfs != [] && MoveAll(files, pdfs).done
    ensures MoveStep(files, pdfs[0]).done
    ensures MoveAll(MoveStep(files, pdfs[0]).files, pdfs[1..]).done
  {
  }

  /** What the first round of a finished move loop leaves for the rounds after it. */
  lemma MoveAllNext(files: map<string, string>, pdfs: seq<string>) returns (next: map<string, string>)
    requires pdfs != [] && MoveAll(files, pdfs).done
    ensures MoveAll(next, pdfs[1..]).done
    ensures Reextension(pdfs[0], "txt") in files
    ensures forall q :: InPdfDir(q) && q in next ==> q in files
  {
    MoveAllFirst(files, pdfs);
    MoveStepNeedsText(files, pdfs[0]);
    next := MoveStep(files, pdfs[0]).files;
    forall q | InPdfDir(q) && q in next ensures q in files {
      MoveStepKeeps(files, pdfs[0], q);
    }
  }

  /**
   * The move loop finishes only if the text file of every PDF was there
   * after the conversions: one PDF whose conversion failed is enough for
   * `process` to report False.
   */
  lemma {:induction false} MoveAllNeedsTexts(files: map<string, string>, pdfs: seq<string>)
    requires forall k :: 0 <= k < |pdfs| ==> InPdfDir(pdfs[k])
    ensures MoveAll(files, pdfs).done ==> forall k :: 0 <= k < |pdfs| ==> Reextension(pdfs[k], "txt") in files
    decreases |pdfs|
  {
    if pdfs != [] && MoveAll(files, pdfs).done {
      var next := MoveAllNext(files, pdfs);
      var rest := pdfs[1..];
      assert forall k :: 0 <= k < |rest| ==> InPdfDir(rest[k]) by {
        forall k | 0 <= k < |rest| ensures InPdfDir(rest[k]) {
          assert rest[k] == pdfs[k + 1];
        }
      }
      MoveAllNeedsTexts(next, rest);
      forall k | 0 <= k < |pdfs| ensures Reextension(pdfs[k], "txt") in files {
        if k > 0 {
          assert pdfs[k] == rest[k - 1];
          assert Reextension(rest[k - 1], "txt") in next;
          UnderPdfDir(pdfs[k]);
        }
      }
    }
  }

  // ---------------------------------------------------------------------
  // The whole of `process`
  // ---------------------------------------------------------------------

  /** Lines 399-402: `convert_safe` on every PDF. The workers share only the file system, each PDF its own files. */
  method ConvertEach(ws: Workspace, pdfs: seq<string>, tools: string -> Tools, fix: string -> string)
    modifies ws
    ensures ws.files == ConvertAll(old(ws.files), pdfs, tools, fix)
  {
    ghost var start := ws.files;
    for k := 0 to |pdfs|
      invariant ConvertAll(ws.files, pdfs[k..], tools, fix) == ConvertAll(start, pdfs, tools, fix)
    {
      assert pdfs[k..][1..] == pdfs[k + 1..];
      ws.ConvertSafe(pdfs[k], tools(pdfs[k]), fix);
    }
    assert pdfs[|pdfs|..] == [];
  }

  /** Lines 406-409: stops at the first move or delete that raises. */
  method MoveTexts(ws: Workspace, pdfs: seq<string>) returns (done: bool)
    modifies ws
    ensures done == MoveAll(old(ws.files), pdfs).done
    ensures ws.files == MoveAll(old(ws.files), pdfs).files
  {
    ghost var start := ws.files;
    for k := 0 to |pdfs|
      invariant MoveAll(ws.files, pdfs[k..]) == MoveAll(start, pdfs)
    {
      assert pdfs[k..][1..] == pdfs[k + 1..];
      var txtfile := Reextension(pdfs[k], "txt");
      var moved := ws.MoveInto(txtfile, TxtDir);
      if !moved {
        return false;
      }
      var removed := ws.Delete(pdfs[k]);
      if !removed {
        return false;
      }
    }
    assert pdfs[|pdfs|..] == [];
    return true;
  }

  /** Line 414: the `.txt` files the listing names. */
  function TxtListing(files: map<string, string>, listdir: map<string, string> -> seq<string>): (names: seq<string>)
    requires forall fs :: Lists(listdir(fs), fs)
    ensures forall k :: 0 <= k < |names| ==> InTxtDir(names[k]) in files && IsTxtName(names[k])
  {
    var names := Filter(listdir(files), IsTxtName);
    assert Lists(listdir(files), files);
    names
  }

  /** Lines 419-425. */
  method ReadTextFiles(ws: Workspace, names: seq<string>, clean: string -> string) returns (fileList: seq<Fulltext>)
    requires forall k :: 0 <= k < |names| ==> InTxtDir(names[k]) in ws.files
    ensures fileList == ReadTexts(names, ws.files, clean)
  {
    fileList := [];
    for k := 0 to |names|
      invariant fileList == ReadTexts(names[..k], ws.files, clean)
    {
      assert names[..k + 1][..k] == names[..k];
      fileList := fileList + [TextRow(ws.files, names[k], clean)];
    }
    assert names[..|names|] == names;
  }

  /** Whether `process` returns True when it starts on the file system `files`. */
  function ProcessSucceeds(files: map<string, string>, globbed: seq<string>, cpuCount: int,
                           tools: string -> Tools, fix: string -> string): bool
  {
    var pdfs := NaturalOrder(globbed);
    PoolSize(cpuCount) >= 1 && MoveAll(ConvertAll(files, pdfs, tools, fix), pdfs).done
  }

  /** The file system `process` leaves behind when it starts on `files`. */
  function ProcessedFiles(files: map<string, string>, globbed: seq<string>, cpuCount: int,
                          tools: string -> Tools, fix: string -> string): map<string, string>
  {
    var pdfs := NaturalOrder(globbed);
    if PoolSize(cpuCount) >= 1 then MoveAll(ConvertAll(files, pdfs, tools, fix), pdfs).files else files
  }

  /** The records a successful `process` writes to `arxiv_fulltext.json`, from the file system it leaves behind. */
  function ProcessedCorpus(files: map<string, string>, metadata: seq<Paper>, words: set<string>,
                           listdir: map<string, string> -> seq<string>): seq<Record>
    requires forall fs :: Lists(listdir(fs), fs)
  {
    Assemble(ReadTexts(TxtListing(files, listdir), files, CleanWith(words)), metadata)
  }

  /**
   * `process(arxiv_metadata_df)`. `ws` is the file system, `globbed` what the
   * glob of line 392 finds, `cpuCount` what `os.cpu_count()` returns,
   * `tools(pdf)` what the extractors do on `pdf`, `fix` the Unicode fixer,
   * `words` the English word list and `listdir` the order in which the
   * system lists a directory. Returns the status and the records written to
   * `arxiv_fulltext.json`.
   */
  method Process(ws: Workspace, globbed: seq<string>, metadata: seq<Paper>, cpuCount: int,
                 tools: string -> Tools, fix: string -> string, words: set<string>,
                 listdir: map<string, string> -> seq<string>)
    returns (ok: bool, corpus: seq<Record>)
    requires forall fs :: Lists(listdir(fs), fs)
    modifies ws
    ensures ok == ProcessSucceeds(old(ws.files), globbed, cpuCount, tools, fix)
    ensures ws.files == ProcessedFiles(old(ws.files), globbed, cpuCount, tools, fix)
    ensures corpus == if ok then ProcessedCorpus(ws.files, metadata, words, listdir) else []
  {
    var pdffiles := SortedFiles(globbed);
    if PoolSize(cpuCount) < 1 {
      return false, [];
    }
    ConvertEach(ws, pdffiles, tools, fix);
    var moved := MoveTexts(ws, pdffiles);
    if !moved {
      return false, [];
    }
    var files := TxtListing(ws.files, listdir);
    var fileList := ReadTextFiles(ws, files, CleanWith(words));
    corpus := Assemble(fileList, metadata);
    ok := true;
  }
}

/**
 * `fulltext`, `convert` and `convert_safe` (pipeline/pdf2txt.py): turning one
 * PDF into text with external extractors, over a file system given as a map
 * from path to content.
 *
 * Each extractor run (`run_pdftotext`, `run_pdf2txt`, `run_pdf2txt_A`) is an
 * input: for the PDF at hand it either produces a text, which it writes to
 * its temporary file and which is then read back, or fails (time-out, non-zero
 * exit, or the program could not be started). `fix_unicode` is the parameter
 * `fix`.
 */
module Extraction {
  import opened Outcomes
  import opened Text
  import opened Paths
  import opened Quality

  datatype Tool = PdfToText | Pdf2Txt | Pdf2TxtPositional

  datatype Failure = Timeout | NonZeroExit | LaunchFailed

  /** What one extractor does on the PDF at hand. */
  datatype Run = Produced(text: string) | Failed(why: Failure)

  /** The behaviour of the three extractor invocations on the PDF at hand. */
  datatype Tools = Tools(pdftotext: Run, pdf2txt: Run, pdf2txtPositional: Run)

  datatype ExtractError =
    | FileNotFound
    | EmptyFile
    | ToolFailed(tool: Tool, why: Failure)
    | NoAccurateText

  datatype ConvertError =
    | NoSuchPath(path: string)
    | ConversionFailed(path: string, cause: ExtractError)

  /** A result together with the file system after the call and the extractors it ran, in order. */
  datatype Outcome<E> = Outcome(result: Result<string, E>, files: map<string, string>, invoked: seq<Tool>)

  function RunOf(tools: Tools, tool: Tool): Run {
    match tool
    case PdfToText => tools.pdftotext
    case Pdf2Txt => tools.pdf2txt
    case Pdf2TxtPositional => tools.pdf2txtPositional
  }

  /** The temporary file an extractor writes: `.pdftotxt` for pdftotext, `.pdf2txt` for both pdf2txt runs. */
  function TempFile(pdf: string, tool: Tool): string {
    if tool == PdfToText then Reextension(pdf, "pdftotxt") else Reextension(pdf, "pdf2txt")
  }

  /** One extractor run: on success its text is in its temporary file. */
  function RunStep(files: map<string, string>, pdf: string, tool: Tool, run: Run): Outcome<ExtractError> {
    match run
    case Produced(t) => Outcome(Ok(t), files[TempFile(pdf, tool) := t], [tool])
    case Failed(why) => Outcome(Err(ToolFailed(tool, why)), files, [tool])
  }

  /** pdftotext, and pdf2txt once in its place when pdftotext fails. */
  function FirstText(files: map<string, string>, pdf: string, tools: Tools): Outcome<ExtractError> {
    var first := RunStep(files, pdf, PdfToText, tools.pdftotext);
    if first.result.Ok? then first
    else
      var second := RunStep(files, pdf, Pdf2Txt, tools.pdf2txt);
      Outcome(second.result, second.files, [PdfToText, Pdf2Txt])
  }

  /** `fulltext(pdffile)`: what it returns or raises, the file system after it, and the extractors it ran. */
  function Extract(files: map<string, string>, pdf: string, tools: Tools, fix: string -> string): Outcome<ExtractError> {
    if pdf !in files then Outcome(Err(FileNotFound), files, [])
    else if files[pdf] == "" then Outcome(Err(EmptyFile), files, [])
    else
      var first := FirstText(files, pdf, tools);
      if first.result.Err? then first
      else
        var text := fix(first.result.value);
        if Acceptable(text) then Outcome(Ok(text), first.files - {TempFile(pdf, PdfToText)}, first.invoked)
        else
          var second := RunStep(first.files, pdf, Pdf2TxtPositional, tools.pdf2txtPositional);
          var invoked := first.invoked + [Pdf2TxtPositional];
          if second.result.Err? then Outcome(second.result, second.files, invoked)
          else
            var text2 := fix(second.result.value);
            if !Acceptable(text2) then Outcome(Err(NoAccurateText), second.files, invoked)
            else Outcome(Ok(text2), second.files - {TempFile(pdf, PdfToText)}, invoked)
  }

  /** `convert(path)`: the path of the text file, or the error it raises. */
  function Conversion(files: map<string, string>, path: string, tools: Tools, fix: string -> string): Outcome<ConvertError> {
    if path !in files then Outcome(Err(NoSuchPath(path)), files, [])
    else
      var outpath := Reextension(path, "txt");
      if outpath in files then Outcome(Ok(outpath), files, [])
      else
        var e := Extract(files, path, tools, fix);
        if e.result.Err? then Outcome(Err(ConversionFailed(path, e.result.error)), e.files, e.invoked)
        else Outcome(Ok(outpath), e.files[outpath := e.result.value], e.invoked)
  }

  /**
   * `shutil.move(src, dir)` succeeds when `src` exists and `dir` holds no
   * file of the same name; otherwise it raises.
   */
  predicate MoveOk(files: map<string, string>, src: string, dir: string) {
    src in files && PathJoin(dir, Basename(src)) !in files
  }

  /** The file system after a successful move: the file is under `dir`, with its contents, and gone from `src`. */
  function Moved(files: map<string, string>, src: string, dir: string): map<string, string>
    requires MoveOk(files, src, dir)
  {
    (files - {src})[PathJoin(dir, Basename(src)) := files[src]]
  }

  /** `path` is `dir` itself or lies below it. */
  predicate Under(path: string, dir: string) {
    path == dir || StartsWith(path, dir + "/")
  }

  /** The file system after `rm -rf dir`: everything under `dir` is gone, everything else is as it was. */
  function WithoutTree(files: map<string, string>, dir: string): (r: map<string, string>)
    ensures forall p :: p in r <==> p in files && !Under(p, dir)
    ensures forall p :: p in r ==> r[p] == files[p]
  {
    map p | p in files && !Under(p, dir) :: files[p]
  }

  /** The file system the conversion runs against. */
  class Workspace {
    var files: map<string, string>
    /** The extractors run so far, in order. */
    ghost var invoked: seq<Tool>

    constructor (files0: map<string, string>)
      ensures files == files0 && invoked == []
    {
      files := files0;
      invoked := [];
    }

    /** Run one extractor; on success read back the temporary file it wrote. */
    method RunTool(pdf: string, tool: Tool, run: Run) returns (r: Result<string, ExtractError>)
      modifies this
      ensures r == RunStep(old(files), pdf, tool, run).result
      ensures files == RunStep(old(files), pdf, tool, run).files
      ensures invoked == old(invoked) + [tool]
    {
      invoked := invoked + [tool];
      match run
      case Produced(t) =>
        files := files[TempFile(pdf, tool) := t];
        r := Ok(files[TempFile(pdf, tool)]);
      case Failed(why) =>
        r := Err(ToolFailed(tool, why));
    }

    /** `os.remove(path)` with a missing file ignored. */
    method Remove(path: string)
      modifies this
      ensures files == old(files) - {path}
      ensures invoked == old(invoked)
    {
      files := files - {path};
    }

    /** `shutil.move(src, dir)` into the existing directory `dir`. */
    method MoveInto(src: string, dir: string) returns (done: bool)
      modifies this
      ensures done == MoveOk(old(files), src, dir)
      ensures files == if done then Moved(old(files), src, dir) else old(files)
      ensures invoked == old(invoked)
    {
      var dest := PathJoin(dir, Basename(src));
      if src !in files || dest in files {
        return false;
      }
      files := (files - {src})[dest := files[src]];
      return true;
    }

    /** `os.remove(path)`, which raises when the file is missing. */
    method Delete(path: string) returns (done: bool)
      modifies this
      ensures done == (path in old(files))
      ensures files == old(files) - {path}
      ensures invoked == old(invoked)
    {
      done := path in files;
      files := files - {path};
    }

    /** `open(path, "w").write(content)`. */
    method Write(path: string, content: string)
      modifies this
      ensures files == old(files)[path := content]
      ensures invoked == old(invoked)
    {
      files := files[path := content];
    }

    /** Files an outside program (the downloader) writes, replacing any of the same name. */
    method Receive(incoming: map<string, string>)
      modifies this
      ensures files == old(files) + incoming
      ensures invoked == old(invoked)
    {
      files := files + incoming;
    }

    /** `rm -rf dir`. */
    method RemoveTree(dir: string)
      modifies this
      ensures files == WithoutTree(old(files), dir)
      ensures invoked == old(invoked)
    {
      files := WithoutTree(files, dir);
    }

    /** pdftotext, and pdf2txt in its place when it fails. */
    method FirstRun(pdf: string, tools: Tools) returns (r: Result<string, ExtractError>)
      modifies this
      ensures r == FirstText(old(files), pdf, tools).result
      ensures files == FirstText(old(files), pdf, tools).files
      ensures invoked == old(invoked) + FirstText(old(files), pdf, tools).invoked
    {
      r := RunTool(pdf, PdfToText, tools.pdftotext);
      if r.Err? {
        r := RunTool(pdf, Pdf2Txt, tools.pdf2txt);
        assert old(invoked) + [PdfToText] + [Pdf2Txt] == old(invoked) + [PdfToText, Pdf2Txt];
      }
    }

    /** `fulltext(pdffile)`. */
    method FullText(pdf: string, tools: Tools, fix: string -> string) returns (r: Result<string, ExtractError>)
      modifies this
      ensures r == Extract(old(files), pdf, tools, fix).result
      ensures files == Extract(old(files), pdf, tools, fix).files
      ensures invoked == old(invoked) + Extract(old(files), pdf, tools, fix).invoked
    {
      if pdf !in files {
        return Err(FileNotFound);
      }
      if files[pdf] == "" {
        return Err(EmptyFile);
      }
      ghost var invoked0, first := invoked, FirstText(files, pdf, tools);
      var output := FirstRun(pdf, tools);
      if output.Err? {
        return output;
      }
      var text := fix(output.value);
      if Acceptable(text) {
        Remove(TempFile(pdf, PdfToText));
        return Ok(text);
      }
      output := RunTool(pdf, Pdf2TxtPositional, tools.pdf2txtPositional);
      assert invoked == invoked0 + (first.invoked + [Pdf2TxtPositional]);
      if output.Err? {
        return output;
      }
      text := fix(output.value);
      if !Acceptable(text) {
        return Err(NoAccurateText);
      }
      Remove(TempFile(pdf, PdfToText));
      return Ok(text);
    }

    /** `convert(path)`: skip when the text file exists, otherwise write what `fulltext` returns. */
    method Convert(path: string, tools: Tools, fix: string -> string) returns (r: Result<string, ConvertError>)
      modifies this
      ensures r == Conversion(old(files), path, tools, fix).result
      ensures files == Conversion(old(files), path, tools, fix).files
      ensures invoked == old(invoked) + Conversion(old(files), path, tools, fix).invoked
    {
      if path !in files {
        return Err(NoSuchPath(path));
      }
      var outpath := Reextension(path, "txt");
      if outpath in files {
        return Ok(outpath);
      }
      var content := FullText(path, tools, fix);
      if content.Err? {
        return Err(ConversionFailed(path, content.error));
      }
      files := files[outpath := content.value];
      return Ok(outpath);
    }

    /** `convert_safe(pdffile)`: `convert` with every error swallowed; it returns nothing. */
    method ConvertSafe(pdffile: string, tools: Tools, fix: string -> string)
      modifies this
      ensures files == Conversion(old(files), pdffile, tools, fix).files
      ensures invoked == old(invoked) + Conversion(old(files), pdffile, tools, fix).invoked
    {
      var _ := Convert(pdffile, tools, fix);
    }
  }

  /** The file passes the checks `fulltext` makes before running any extractor. */
  predicate Preflight(files: map<string, string>, pdf: string) {
    pdf in files && files[pdf] != ""
  }

  /**
   * A missing file raises FileNotFoundError and an empty one RuntimeError,
   * before any extractor runs and with the file system untouched; a file that
   * passes always runs pdftotext first.
   */
  lemma PreflightChecks(files: map<string, string>, pdf: string, tools: Tools, fix: string -> string)
    ensures var e := Extract(files, pdf, tools, fix);
      && (pdf !in files ==> e == Outcome(Err(FileNotFound), files, []))
      && (pdf in files && files[pdf] == "" ==> e == Outcome(Err(EmptyFile), files, []))
      && (e.invoked == [] <==> !Preflight(files, pdf))
      && (Preflight(files, pdf) ==> e.invoked[0] == PdfToText)
  {
  }

  /**
   * The extractors `fulltext` runs: pdf2txt exactly when pdftotext failed,
   * and `pdf2txt -A` exactly when the first text was produced and scored
   * above 45. Nothing else is ever run, and nothing runs twice.
   */
  lemma FallbackPolicy(files: map<string, string>, pdf: string, tools: Tools, fix: string -> string)
    requires Preflight(files, pdf)
    ensures var e := Extract(files, pdf, tools, fix);
      var first := FirstText(files, pdf, tools);
      && (Pdf2Txt in e.invoked <==> tools.pdftotext.Failed?)
      && (Pdf2TxtPositional in e.invoked <==> first.result.Ok? && !Acceptable(fix(first.result.value)))
      && e.invoked == [PdfToText] + (if Pdf2Txt in e.invoked then [Pdf2Txt] else [])
                      + (if Pdf2TxtPositional in e.invoked then [Pdf2TxtPositional] else [])
  {
    var first := FirstText(files, pdf, tools);
    var positional := first.result.Ok? && !Acceptable(fix(first.result.value));
    ExtractInvoked(files, pdf, tools, fix);
    InvokedShape(Extract(files, pdf, tools, fix).invoked, tools.pdftotext.Failed?, positional);
  }

  /** Which of the two fallbacks a list of runs holds. */
  lemma InvokedShape(invoked: seq<Tool>, fallback: bool, positional: bool)
    requires invoked == [PdfToText] + (if fallback then [Pdf2Txt] else []) + (if positional then [Pdf2TxtPositional] else [])
    ensures Pdf2Txt in invoked <==> fallback
    ensures Pdf2TxtPositional in invoked <==> positional
  {
    if fallback {
      assert invoked[1] == Pdf2Txt;
    }
    if positional {
      assert invoked[|invoked| - 1] == Pdf2TxtPositional;
    }
  }

  /** The extractors `fulltext` runs on a file that passes its checks. */
  lemma ExtractInvoked(files: map<string, string>, pdf: string, tools: Tools, fix: string -> string)
    requires Preflight(files, pdf)
    ensures var first := FirstText(files, pdf, tools);
      Extract(files, pdf, tools, fix).invoked
        == [PdfToText] + (if tools.pdftotext.Failed? then [Pdf2Txt] else [])
           + (if first.result.Ok? && !Acceptable(fix(first.result.value)) then [Pdf2TxtPositional] else [])
  {
    var first := FirstText(files, pdf, tools);
    if tools.pdftotext.Produced? {
      assert first.invoked == [PdfToText] + [] && first.result.Ok?;
    } else {
      assert first.invoked == [PdfToText] + [Pdf2Txt];
    }
  }

  /** A failure of the pdf2txt fallback, or of the `-A` run, is what `fulltext` raises. */
  lemma FailuresPropagate(files: map<string, string>, pdf: string, tools: Tools, fix: string -> string)
    requires Preflight(files, pdf)
    ensures var e := Extract(files, pdf, tools, fix);
      && (tools.pdftotext.Failed? && tools.pdf2txt.Failed? ==>
            e.result == Err(ToolFailed(Pdf2Txt, tools.pdf2txt.why)))
      && (Pdf2TxtPositional in e.invoked && tools.pdf2txtPositional.Failed? ==>
            e.result == Err(ToolFailed(Pdf2TxtPositional, tools.pdf2txtPositional.why)))
  {
  }

  /**
   * A text `fulltext` returns has an average word length of at most 45 and
   * is `fix` applied to the output of the last extractor it ran.
   */
  lemma ReturnedTextAccurate(files: map<string, string>, pdf: string, tools: Tools, fix: string -> string)
    ensures var e := Extract(files, pdf, tools, fix);
      e.result.Ok? ==>
        && Acceptable(e.result.value)
        && AverageWordLength(e.result.value) <= MaxWordLength as real
        && e.invoked != []
        && RunOf(tools, e.invoked[|e.invoked| - 1]).Produced?
        && e.result.value == fix(RunOf(tools, e.invoked[|e.invoked| - 1]).text)
  {
    var e := Extract(files, pdf, tools, fix);
    if e.result.Ok? {
      var first := FirstText(files, pdf, tools);
      FirstTextLast(files, pdf, tools);
      if Acceptable(fix(first.result.value)) {
        assert e.invoked == first.invoked;
        assert e.result.value == fix(first.result.value);
      } else {
        assert e.invoked == first.invoked + [Pdf2TxtPositional];
        assert e.invoked[|e.invoked| - 1] == Pdf2TxtPositional;
        assert e.result.value == fix(tools.pdf2txtPositional.text);
      }
      AcceptableIffAverage(e.result.value);
    }
  }

  /** When the first extraction succeeds, its text is what the last extractor it ran produced. */
  lemma FirstTextLast(files: map<string, string>, pdf: string, tools: Tools)
    ensures var first := FirstText(files, pdf, tools);
      first.result.Ok? ==>
        && first.invoked != []
        && RunOf(tools, first.invoked[|first.invoked| - 1]).Produced?
        && first.result.value == RunOf(tools, first.invoked[|first.invoked| - 1]).text
  {
    var first := FirstText(files, pdf, tools);
    if tools.pdftotext.Produced? {
      assert first.invoked == [PdfToText];
    } else {
      assert first.invoked == [PdfToText, Pdf2Txt];
    }
  }

  /** `fulltext` raises "No accurate text" exactly when the `-A` run produced a text scoring above 45. */
  lemma NoAccurateTextWhen(files: map<string, string>, pdf: string, tools: Tools, fix: string -> string)
    ensures var e := Extract(files, pdf, tools, fix);
      e.result == Err(NoAccurateText) <==>
        && Pdf2TxtPositional in e.invoked
        && tools.pdf2txtPositional.Produced?
        && !Acceptable(fix(tools.pdf2txtPositional.text))
  {
  }

  /** The two temporary files differ from each other and from the text file. */
  lemma TempFilesDistinct(pdf: string)
    ensures TempFile(pdf, PdfToText) != TempFile(pdf, Pdf2Txt)
    ensures TempFile(pdf, Pdf2Txt) == TempFile(pdf, Pdf2TxtPositional)
    ensures Reextension(pdf, "txt") != TempFile(pdf, PdfToText)
    ensures Reextension(pdf, "txt") != TempFile(pdf, Pdf2Txt)
  {
    ReextensionInjective(pdf, "pdftotxt", "pdf2txt");
    ReextensionInjective(pdf, "txt", "pdftotxt");
    ReextensionInjective(pdf, "txt", "pdf2txt");
  }

  /**
   * `fulltext` changes no file other than its two temporary files. It only
   * ever removes the `.pdftotxt` file, and only when it returns a text; the
   * `.pdf2txt` file is never removed, and nothing is removed when it raises.
   */
  lemma CleanupOnlyPdfToTextFile(files: map<string, string>, pdf: string, tools: Tools, fix: string -> string)
    ensures var e := Extract(files, pdf, tools, fix);
      && (forall p :: p != TempFile(pdf, PdfToText) && p != TempFile(pdf, Pdf2Txt) ==>
            (p in e.files <==> p in files) && (p in files ==> e.files[p] == files[p]))
      && (TempFile(pdf, Pdf2Txt) in files ==> TempFile(pdf, Pdf2Txt) in e.files)
      && (e.result.Err? ==> forall p :: p in files ==> p in e.files)
      && (e.result.Ok? ==> TempFile(pdf, PdfToText) !in e.files)
  {
    ExtractKeepsOtherFiles(files, pdf, tools, fix);
    ExtractKeepsPdf2TxtFile(files, pdf, tools, fix);
    ExtractRemovesOnSuccess(files, pdf, tools, fix);
  }

  /** `a` and `b` agree on every path but the two temporary files of `pdf`. */
  ghost predicate AgreeOutside(a: map<string, string>, b: map<string, string>, pdf: string) {
    forall p :: p != TempFile(pdf, PdfToText) && p != TempFile(pdf, Pdf2Txt) ==>
      (p in a <==> p in b) && (p in a ==> a[p] == b[p])
  }

  lemma RunStepAgrees(files: map<string, string>, pdf: string, tool: Tool, run: Run)
    ensures AgreeOutside(RunStep(files, pdf, tool, run).files, files, pdf)
  {
  }

  lemma FirstTextAgrees(files: map<string, string>, pdf: string, tools: Tools)
    ensures AgreeOutside(FirstText(files, pdf, tools).files, files, pdf)
  {
    RunStepAgrees(files, pdf, PdfToText, tools.pdftotext);
    RunStepAgrees(files, pdf, Pdf2Txt, tools.pdf2txt);
  }

  lemma ExtractKeepsOtherFiles(files: map<string, string>, pdf: string, tools: Tools, fix: string -> string)
    ensures AgreeOutside(Extract(files, pdf, tools, fix).files, files, pdf)
  {
    if pdf in files && files[pdf] != "" {
      var first := FirstText(files, pdf, tools);
      FirstTextAgrees(files, pdf, tools);
      if first.result.Ok? {
        var second := RunStep(first.files, pdf, Pdf2TxtPositional, tools.pdf2txtPositional);
        RunStepAgrees(first.files, pdf, Pdf2TxtPositional, tools.pdf2txtPositional);
        assert AgreeOutside(second.files, files, pdf);
        assert AgreeOutside(first.files - {TempFile(pdf, PdfToText)}, files, pdf);
        assert AgreeOutside(second.files - {TempFile(pdf, PdfToText)}, files, pdf);
      }
    }
  }

  lemma ExtractKeepsPdf2TxtFile(files: map<string, string>, pdf: string, tools: Tools, fix: string -> string)
    ensures var e := Extract(files, pdf, tools, fix);
      TempFile(pdf, Pdf2Txt) in files ==> TempFile(pdf, Pdf2Txt) in e.files
  {
    TempFilesDistinct(pdf);
    if Preflight(files, pdf) && TempFile(pdf, Pdf2Txt) in files {
      var first := FirstText(files, pdf, tools);
      assert TempFile(pdf, Pdf2Txt) in first.files;
      if first.result.Ok? {
        var second := RunStep(first.files, pdf, Pdf2TxtPositional, tools.pdf2txtPositional);
        assert TempFile(pdf, Pdf2Txt) in second.files;
      }
    }
  }

  lemma ExtractRemovesOnSuccess(files: map<string, string>, pdf: string, tools: Tools, fix: string -> string)
    ensures var e := Extract(files, pdf, tools, fix);
      && (e.result.Err? ==> forall p :: p in files ==> p in e.files)
      && (e.result.Ok? ==> TempFile(pdf, PdfToText) !in e.files)
  {
  }

  /** `convert` raises for a missing source and changes nothing. */
  lemma ConvertMissingSource(files: map<string, string>, path: string, tools: Tools, fix: string -> string)
    requires path !in files
    ensures Conversion(files, path, tools, fix) == Outcome(Err(NoSuchPath(path)), files, [])
  {
  }

  /** When the text file exists, `convert` returns its path, runs no extractor and changes nothing. */
  lemma ConvertSkipsConverted(files: map<string, string>, path: string, tools: Tools, fix: string -> string)
    requires path in files && Reextension(path, "txt") in files
    ensures Conversion(files, path, tools, fix) == Outcome(Ok(Reextension(path, "txt")), files, [])
  {
  }

  /**
   * Otherwise `convert` succeeds exactly when `fulltext` does, and then the
   * text file holds exactly what `fulltext` returned; when it fails the text
   * file is not written.
   */
  lemma ConvertWritesText(files: map<string, string>, path: string, tools: Tools, fix: string -> string)
    requires path in files && Reextension(path, "txt") !in files
    ensures var c := Conversion(files, path, tools, fix);
      var e := Extract(files, path, tools, fix);
      && (c.result.Ok? <==> e.result.Ok?)
      && (c.result.Ok? ==>
            && c.result.value == Reextension(path, "txt")
            && Reextension(path, "txt") in c.files
            && c.files[Reextension(path, "txt")] == e.result.value)
      && (c.result.Err? ==>
            && c.result == Err(ConversionFailed(path, e.result.error))
            && Reextension(path, "txt") !in c.files)
  {
    var outpath := Reextension(path, "txt");
    var e := Extract(files, path, tools, fix);
    if e.result.Err? {
      TempFilesDistinct(path);
      ExtractKeepsOtherFiles(files, path, tools, fix);
      assert outpath !in e.files;
    }
  }

  /**
   * A second `convert` after a successful one returns the same path, runs no
   * extractor and changes nothing, whatever the extractors would do now
   * (unless the source itself is named like its `.pdftotxt` file, which the
   * first conversion removes).
   */
  lemma ConvertIdempotent(files: map<string, string>, path: string, tools: Tools, tools2: Tools, fix: string -> string)
    requires path != Reextension(path, "pdftotxt")
    requires Conversion(files, path, tools, fix).result.Ok?
    ensures var c := Conversion(files, path, tools, fix);
      Conversion(c.files, path, tools2, fix) == Outcome(c.result, c.files, [])
  {
    var c := Conversion(files, path, tools, fix);
    var outpath := Reextension(path, "txt");
    if outpath !in files {
      var e := Extract(files, path, tools, fix);
      ExtractKeepsKeys(files, path, tools, fix);
      assert path in e.files;
      assert c.files == e.files[outpath := e.result.value];
    }
    assert path in c.files && outpath in c.files;
  }

  /** `fulltext` removes no file but its `.pdftotxt` file. */
  lemma ExtractKeepsKeys(files: map<string, string>, pdf: string, tools: Tools, fix: string -> string)
    ensures forall p :: p in files && p != TempFile(pdf, PdfToText) ==> p in Extract(files, pdf, tools, fix).files
  {
    if Preflight(files, pdf) {
      var first := FirstText(files, pdf, tools);
      assert forall p :: p in files ==> p in first.files;
      if first.result.Ok? {
        var second := RunStep(first.files, pdf, Pdf2TxtPositional, tools.pdf2txtPositional);
        assert forall p :: p in first.files ==> p in second.files;
      }
    }
  }
}

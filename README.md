# PubCrawl text pipeline, modelled in Dafny

PubCrawl builds a text corpus from arXiv papers, in two source files:
- `pipeline/pdf2txt.py` turns each PDF into text:
  - It lists the PDFs in "natural" order.
  - It runs `pdftotext`, falls back to `pdf2txt`, and escalates to `pdf2txt -A` when the text looks run together.
  - It judges text by its average word length.
  - It writes `<name>.txt` next to the PDF and cleans the text with a chain of regular-expression rewrites and an English-word filter.
- `datasources/arxiv.py` handles the metadata and the corpus:
  - `preprocess` selects metadata rows.
  - `download` filters them by date, builds one gsutil URL per paper and downloads the PDFs.
  - `process` then converts the PDFs, moves the text files and reads them back. It derives each paper id from its file name, drops duplicate ids, joins the texts with the metadata, cleans the abstracts, and reports success as a boolean.

The model consists of these modules:
- `Text`, `Paths`, `Ordering` and `Rows` model the string, path, ordering and data-frame operations the code relies on:
  - `str.split`, `str.strip`, `str.join`, `os.path.splitext`, `os.path.basename` and `os.path.join`.
  - Python's comparison of strings and of lists of strings, and `sorted`.
  - Boolean masks, `drop_duplicates` and lookups.
- `NaturalSort` models `sorted_files`.
- `Quality` models `average_word_length`.
- `Extraction` models `fulltext`, `convert` and `convert_safe`:
  - The file system is a class, `Workspace`, whose `files` map holds each path's contents. Its methods update that map, and each method is tied to a specification function (`Extract`, `Conversion`).
  - Each external extractor is an input, `Tools`, that says what it produces or that it fails.
  - `fix_unicode` is a function parameter.
- `Cleaner` models `cleaned_text`. Each `re.sub` is a left-to-right scanner for its own pattern; the English word list is a parameter.
- `Corpus` models `process`.
- `Metadata` models `preprocess` and `download`.

The loops of the source are methods with loop invariants, each proved equal to a specification function:
- `SortedFiles`.
- `ConvertEach`, `MoveTexts` and `ReadTextFiles` in `process`.
- `CollectUrls` in `download`.

The properties are lemmas about those functions.

Where the code and its design description disagree, the model follows the code:
- **Duplicate ids.** `drop_duplicates` keeps the first row with each id.
- **No second plain `pdf2txt` attempt.** When `pdftotext` succeeds but its text fails the word-length test, `fulltext` goes straight to `pdf2txt -A`. It never tries plain `pdf2txt` first.
- **Temp-file cleanup.** Only the `.pdftotxt` temporary file is ever removed; the `.pdf2txt` file always stays.
- **Natural sort.** `sorted_files` compares the numbers in file names as strings (see Findings).
- **The "Introduction" trim.** It is pattern `^(.*?Introduction)` without DOTALL, so it only looks at the first line. It is applied twice, so it can cut through a second occurrence.
- **Cleaning twice.** Cleaning an already cleaned text does not always give it back. A cleaned text is one line, so when it still holds "introduction" the trim of line 29 cuts it again: cleaning "introduction introduction alpha introduction beta" with the words {alpha, introduction, beta} gives "alpha introduction beta", and cleaning that again starts by cutting it to " beta".
- **Single-letter words.** Line 61 replaces a whitespace-letter-whitespace run with nothing, gluing the neighbouring words together; it does not just drop the letter.
- **Id derivation.** The `.txt` removal pattern has an unescaped dot, so any character before `txt` is removed with it.
- **Pool size.** The pool size is `os.cpu_count() - 2` with no lower bound.
- **One failed conversion fails `process`.** The move loop raises on the first PDF without a text file, so a single failed conversion makes `process` report False.

## Model

| member | source | states |
|---|---|---|
| Text.Split | pipeline/pdf2txt.py:163 | `str.split()`: the words are non-empty and contain no whitespace |
| Text.Strip | pipeline/pdf2txt.py:103 | `str.strip()`: a slice of the input with no whitespace at either end |
| Text.SplitJoin | pipeline/pdf2txt.py:100 | splitting words joined by single spaces gives back the words |
| Text.JoinSingleSpaced | pipeline/pdf2txt.py:100 | `" ".join` of non-empty space-free words is single-spaced and holds only their characters and spaces |
| Paths.Root | pipeline/pdf2txt.py:146 | the root of `os.path.splitext`: a prefix of the path; what it drops is a dot and a dot-free, slash-free tail; the last component keeps a non-dot character |
| Paths.Ext | pipeline/pdf2txt.py:146 | root plus extension is the path; the extension is empty or a dot followed by no dot or slash |
| Paths.RootOfExtended | pipeline/pdf2txt.py:144-147 | splitting `r + "." + e` gives back the root `r` when `r` has a stem |
| Paths.RootOfReextension | pipeline/pdf2txt.py:144-147 | re-extending keeps the root of the path |
| Paths.ReextensionTwice | pipeline/pdf2txt.py:144-147 | re-extending twice equals re-extending once with the second extension |
| Paths.ReextensionInjective | pipeline/pdf2txt.py:144-147 | different extensions give different paths |
| Paths.Basename | datasources/arxiv.py:407 | the part after the last '/', a suffix of the path with no '/' |
| Paths.PathJoin | datasources/arxiv.py:407 | joining a directory with a plain file name gives a path whose basename is that name |
| Paths.BasenameOfJoin | datasources/arxiv.py:407 | the basename of a directory ending in '/' followed by a name is the name |
| Ordering.StrLessIsOrder | datasources/arxiv.py:463 | Python's string comparison is a strict total order |
| Ordering.StrListLessIsOrder | pipeline/pdf2txt.py:141 | Python's comparison of lists of strings is a strict total order |
| Ordering.SortBy | pipeline/pdf2txt.py:141 | `sorted` returns a permutation of its input |
| Ordering.SortBySorted | pipeline/pdf2txt.py:141 | under a strict total order, `sorted`'s result is in order |
| Ordering.SortedUnique | pipeline/pdf2txt.py:141 | two ordered permutations of the same distinct elements are equal, so the sorted result does not depend on the input order |
| Ordering.Map | pipeline/pdf2txt.py:142 | a list comprehension: same length, element-wise image |
| NaturalSort.DigitRuns | pipeline/pdf2txt.py:136 | `re.findall(r'\d+', fn)`: non-empty runs of digits |
| NaturalSort.Canonical | pipeline/pdf2txt.py:137 | `str(int(n))`: same value, no leading zero, not longer |
| NaturalSort.CanonicalRuns | pipeline/pdf2txt.py:137 | every run replaced by its canonical form |
| NaturalSort.SortKey | pipeline/pdf2txt.py:137 | the key ends with the file name itself |
| NaturalSort.KeyLessIsOrder | pipeline/pdf2txt.py:137-141 | comparing by key is a strict total order on file names, because the name ends the key |
| NaturalSort.Keys | pipeline/pdf2txt.py:135-139 | `allfiles` holds the key of each file, in order |
| NaturalSort.KeysShape | pipeline/pdf2txt.py:135-139 | each key of a permutation of `allfiles` is the key of its own last element |
| NaturalSort.LastsOfKeys | pipeline/pdf2txt.py:142 | taking `f[-1]` of every key gives back the files |
| NaturalSort.SortedKeysLasts | pipeline/pdf2txt.py:133-142 | sorting the keys of any permutation of the globbed files and taking the last elements is the natural order of the globbed files |
| NaturalSort.NaturalOrderSorted | pipeline/pdf2txt.py:130-142 | the result is a permutation of the glob result, ordered by key |
| NaturalSort.SortedFiles | pipeline/pdf2txt.py:111-142 | the method's loop yields the natural order: a permutation, ordered by key |
| NaturalSort.SortKeySingle | pipeline/pdf2txt.py:136-137 | a name with one digit run has the key `[str(int(run)), name]` |
| NaturalSort.PageKey | pipeline/pdf2txt.py:136-137 | the key of `f<d>.pdf` for a page number `d` without leading zeros is `[d, name]` |
| NaturalSort.PageKeys | pipeline/pdf2txt.py:137 | the keys of `f2.pdf`, `f9.pdf`, `f10.pdf` |
| NaturalSort.TenBeforeTwo | pipeline/pdf2txt.py:137-141 | the key of `f10.pdf` is below the key of `f2.pdf`, because `"10"` is below `"2"` as a string |
| NaturalSort.TwoBeforeNine | pipeline/pdf2txt.py:137-141 | the key of `f2.pdf` is below the key of `f9.pdf` |
| NaturalSort.StringComparedNumbers | pipeline/pdf2txt.py:137-141 | whatever order the glob lists `f2.pdf`, `f9.pdf` and `f10.pdf` in, they sort to `f10.pdf`, `f2.pdf`, `f9.pdf` |
| NaturalSort.NumericLessIsOrder | pipeline/pdf2txt.py:117-121 | the documented order, numbers by value then the name, is a strict total order |
| NaturalSort.NumericOrderSorted | pipeline/pdf2txt.py:117-121 | the documented order is a permutation in which numbers never decrease |
| NaturalSort.NumericOrderExample | pipeline/pdf2txt.py:117-121 | under the documented order, the same three names sort to `f2.pdf`, `f9.pdf`, `f10.pdf` whatever order they are listed in |
| Quality.AverageTimesCount | pipeline/pdf2txt.py:149-166 | the average times one more than the word count is the length |
| Quality.AcceptableIffAverage | pipeline/pdf2txt.py:293 | `average_word_length(t) <= 45` exactly when `len(t) <= 45 * (words + 1)` |
| Quality.EmptyAcceptable | pipeline/pdf2txt.py:163-165 | the empty text passes |
| Quality.RunTogetherRejected | pipeline/pdf2txt.py:163-165 | a text with no whitespace is one word and fails beyond 90 characters |
| Quality.ShortWordsAccepted | pipeline/pdf2txt.py:163-165 | words under 45 characters joined by single spaces always pass |
| Extraction.Workspace.RunTool | pipeline/pdf2txt.py:283-286 | one extractor run: its text, written to its temporary file, or its failure |
| Extraction.Workspace.FirstRun | pipeline/pdf2txt.py:282-286 | the first extraction: pdftotext, and pdf2txt in its place when pdftotext fails; result, file system and calls are those of `FirstText` |
| Extraction.Workspace.Remove | pipeline/pdf2txt.py:294-297 | `os.remove` with errors ignored: the file is gone, nothing else changes |
| Extraction.Workspace.FullText | pipeline/pdf2txt.py:257-316 | the method's result, file system and extractor calls are those of `Extract` |
| Extraction.Workspace.Convert | pipeline/pdf2txt.py:318-350 | the method's result, file system and extractor calls are those of `Conversion` |
| Extraction.Workspace.ConvertSafe | pipeline/pdf2txt.py:352-357 | raises nothing, whatever `convert` does; leaves the file system and extractor calls of `Conversion` |
| Extraction.Workspace.MoveInto | datasources/arxiv.py:407 | `shutil.move` succeeds exactly when the source exists and the target name is free; it then moves the contents |
| Extraction.Workspace.Delete | datasources/arxiv.py:409 | `os.remove` succeeds exactly when the file exists; the file is gone afterwards |
| Extraction.Workspace.Write | datasources/arxiv.py:490-492 | the file holds exactly what was written |
| Extraction.Workspace.Receive | datasources/arxiv.py:497 | the downloaded files are added |
| Extraction.Workspace.RemoveTree | datasources/arxiv.py:503-510 | `rm -rf` leaves exactly the files not under the directory |
| Extraction.WithoutTree | datasources/arxiv.py:503-510 | a path remains exactly when it is not under the directory, with its contents unchanged |
| Extraction.PreflightChecks | pipeline/pdf2txt.py:276-280 | a missing file raises FileNotFoundError and an empty one RuntimeError before any extractor runs; otherwise pdftotext runs first |
| Extraction.FallbackPolicy | pipeline/pdf2txt.py:282-301 | pdf2txt runs exactly when pdftotext fails; `pdf2txt -A` runs exactly when the first text fails the test; in that order, nothing else |
| Extraction.ExtractInvoked | pipeline/pdf2txt.py:282-301 | after the file checks the calls are pdftotext, then pdf2txt exactly when pdftotext failed, then `pdf2txt -A` exactly when the first text was produced and fails the test |
| Extraction.InvokedShape | pipeline/pdf2txt.py:282-301 | in such a call list pdf2txt appears exactly when pdftotext failed and `pdf2txt -A` exactly when the text was rejected |
| Extraction.FailuresPropagate | pipeline/pdf2txt.py:285-286 | a failing fallback or `-A` run is the error `fulltext` raises |
| Extraction.ReturnedTextAccurate | pipeline/pdf2txt.py:289-316 | a returned text has average word length at most 45 and is the fixed output of the last extractor run |
| Extraction.FirstTextLast | pipeline/pdf2txt.py:282-289 | a successful first extraction returns the text of the last extractor it ran |
| Extraction.NoAccurateTextWhen | pipeline/pdf2txt.py:301-309 | "No accurate text" is raised exactly when the `-A` run produced text that fails the test |
| Extraction.TempFilesDistinct | pipeline/pdf2txt.py:295 | the `.pdftotxt`, `.pdf2txt` and `.txt` files are distinct; both pdf2txt runs share one file |
| Extraction.CleanupOnlyPdfToTextFile | pipeline/pdf2txt.py:293-316 | only the two temporary files can change; the `.pdf2txt` file is never removed; nothing is removed on failure; `.pdftotxt` is gone on success |
| Extraction.ConvertMissingSource | pipeline/pdf2txt.py:335-336 | a missing source raises without touching anything |
| Extraction.ConvertSkipsConverted | pipeline/pdf2txt.py:337-340 | an existing `.txt` is returned with the file system unchanged and no extractor run |
| Extraction.ConvertWritesText | pipeline/pdf2txt.py:342-350 | otherwise the `.txt` holds exactly `fulltext`'s text on success, and is absent on failure |
| Extraction.ConvertIdempotent | pipeline/pdf2txt.py:337-350 | converting again after a success changes nothing and runs no extractor |
| Extraction.ExtractKeepsKeys | pipeline/pdf2txt.py:276-316 | `fulltext` deletes no file except the pdftotext temporary file |
| Cleaner.TrimIntroduction | pipeline/pdf2txt.py:29-30 | drops a prefix ending with the first "introduction" (any case) of the first line, or nothing |
| Cleaner.IntroStart | pipeline/pdf2txt.py:29 | where the word the lazy match stops at begins: an occurrence of "introduction" in any case, or none |
| Cleaner.IntroStartFirst | pipeline/pdf2txt.py:29 | the occurrence found is the first one and no newline precedes it; none is found only when every occurrence comes after a newline |
| Cleaner.TrimStaysOnFirstLine | pipeline/pdf2txt.py:29-30 | when "introduction" appears only after a newline nothing is trimmed |
| Cleaner.IntroAtWord | pipeline/pdf2txt.py:29-30 | the capitalised word "Introduction" is an occurrence: the pattern is matched case-insensitively |
| Cleaner.FirstTrim | pipeline/pdf2txt.py:29 | one trim of "Introduction Introduction text" leaves " Introduction text" |
| Cleaner.SecondTrim | pipeline/pdf2txt.py:30 | the second trim cuts " Introduction text" down to " text" |
| Cleaner.SecondTrimCutsAgain | pipeline/pdf2txt.py:29-30 | applied twice, the trim cuts through the second occurrence |
| Cleaner.UrlAt | pipeline/pdf2txt.py:45 | a match of `https?://\S+` stays inside the text |
| Cleaner.LetterAt | pipeline/pdf2txt.py:61 | a match of `\s+[a-zA-Z]\s+` (or with a comma, line 97) stays inside the text |
| Cleaner.SpaceRunAt | pipeline/pdf2txt.py:67-73 | a match of a space run with its look-around stays inside the text |
| Cleaner.RepeatAt | pipeline/pdf2txt.py:76-79 | a match of four or more repeats stays inside the text |
| Cleaner.BackslashWordAt | pipeline/pdf2txt.py:94 | a match of `\w*\\+\w*` stays inside the text |
| Cleaner.ClassRunAt | pipeline/pdf2txt.py:36-58 | a match of a character-class run stays inside the text and its replacement uses only text characters |
| Cleaner.MatchAt | pipeline/pdf2txt.py:33-97 | any pattern's match stays inside the text and is replaced by spaces and text characters |
| Cleaner.Replace | pipeline/pdf2txt.py:33-97 | `re.sub` introduces no character except spaces |
| Cleaner.Step | pipeline/pdf2txt.py:33-97 | one step of `re.sub` moves forward within the text and writes only spaces and characters of its input |
| Cleaner.DeletingStep | pipeline/pdf2txt.py:36-85 | at a character of its class a deleting rewrite writes nothing and skips only such characters; elsewhere it copies the character |
| Cleaner.WhitespaceStep | pipeline/pdf2txt.py:33 | line 33 turns a run of whitespace into one space and resumes after the run; other characters are copied |
| Cleaner.ApplyAll | pipeline/pdf2txt.py:33-97 | the chain introduces no character except spaces |
| Cleaner.Without | pipeline/pdf2txt.py:36-58 | what a deleting rewrite leaves holds no character of its class |
| Cleaner.DeletingMatch | pipeline/pdf2txt.py:36-85 | a deleting pattern matches exactly at characters of its class |
| Cleaner.DeletionIsFilter | pipeline/pdf2txt.py:36-85 | a deleting rewrite is the filter that drops its class |
| Cleaner.DeletionRemovesClass | pipeline/pdf2txt.py:36-85 | after a deleting rewrite no character of its class is left |
| Cleaner.WhitespaceCollapsed | pipeline/pdf2txt.py:33 | after line 33 no whitespace but single spaces remains and no two spaces are adjacent |
| Cleaner.SingleLetterGlues | pipeline/pdf2txt.py:61 | " a " between words matches line 61 and is replaced by nothing, gluing the words |
| Cleaner.BackslashPatternsIdle | pipeline/pdf2txt.py:64-94 | once line 48 removed every backslash, lines 64 and 94 change nothing |
| Cleaner.Tokens | pipeline/pdf2txt.py:100 | `wordpunct_tokenize`: non-empty tokens without whitespace, made of text characters |
| Cleaner.KeepTokens | pipeline/pdf2txt.py:100 | the kept tokens are tokens that are non-alphabetic or English words |
| Cleaner.ChainAvoids | pipeline/pdf2txt.py:33-97 | what a deleting rewrite removes never comes back later in the chain |
| Cleaner.RewrittenClean | pipeline/pdf2txt.py:36-85 | after the rewrites no bracket, digit, `=`, backslash or non-ASCII character is left |
| Cleaner.EnglishOnlyShape | pipeline/pdf2txt.py:100 | line 100's output is single-spaced, its characters come from its input, and every alphabetic token, lower-cased, is an English word |
| Cleaner.StripSingleSpaced | pipeline/pdf2txt.py:103 | stripping a single-spaced text changes nothing |
| Cleaner.CleanedTextShape | pipeline/pdf2txt.py:24-109 | `cleaned_text`'s output is stripped and single-spaced, its alphabetic tokens are English words, and it holds no bracket, digit, `=`, backslash or non-ASCII character |
| Cleaner.OneLineTrimmed | pipeline/pdf2txt.py:29 | a single-spaced text holding "introduction" is cut by the trim, by at least the length of the word |
| Cleaner.RecleaningCuts | pipeline/pdf2txt.py:24-109 | `cleaned_text` is not idempotent: an output that still holds "introduction" is changed by the first step of cleaning it again |
| Cleaner.TrimAfterWord | pipeline/pdf2txt.py:29 | a first line with no `i` before "introduction" is cut right after the word |
| Cleaner.RecleaningExample | pipeline/pdf2txt.py:29 | the output "alpha introduction beta" is trimmed to " beta" when cleaned again |
| Rows.Filter | datasources/arxiv.py:463 | a boolean mask keeps only rows that satisfy it, never more rows |
| Rows.FilterSelects | datasources/arxiv.py:463 | a mask keeps exactly the rows that satisfy it, in their order |
| Rows.Find | datasources/arxiv.py:436 | the first row with a key, or none exactly when no row has it |
| Rows.Dedup | datasources/arxiv.py:430-431 | the rows kept have keys not already seen |
| Rows.DedupUnique | datasources/arxiv.py:430-431 | the keys kept are unique |
| Rows.DedupSubsequence | datasources/arxiv.py:430-431 | the rows kept are in their original order |
| Rows.DedupFind | datasources/arxiv.py:430-431 | for every unseen key, the row kept is the first with that key |
| Rows.DropDuplicatesKeepsFirst | datasources/arxiv.py:430-431 | `drop_duplicates(subset="id")`: unique ids, order kept, the first row of each id kept, no id lost |
| Rows.FindMap | datasources/arxiv.py:441 | changing a column other than the key commutes with lookup |
| Rows.MapUniqueKeys | datasources/arxiv.py:441 | changing a column other than the key keeps the keys unique |
| Corpus.StripVersionsKeeps | datasources/arxiv.py:429 | `v\d+` removal leaves a version-free prefix as it is |
| Corpus.VersionGoes | datasources/arxiv.py:429 | a `v` with all the digits after it is removed |
| Corpus.StripVersionsNone | datasources/arxiv.py:429 | text without `v` is unchanged |
| Corpus.StripTxtExtension | datasources/arxiv.py:429 | `.txt` removal strips the extension of a name with no other `txt` |
| Corpus.VersionedFileId | datasources/arxiv.py:429 | the id of `<id>v<digits>.txt` is `<id>` |
| Corpus.VersionedFileExample | datasources/arxiv.py:429 | `1701.00001v2.txt` gives `1701.00001` |
| Corpus.AnyCharacterBeforeTxt | datasources/arxiv.py:429 | `contxt.txt` gives `co`: the unescaped dot removes the `n` too |
| Corpus.CleanAbstractSingleSpaced | datasources/arxiv.py:441 | a cleaned abstract has no whitespace at either end and no two whitespace characters in a row |
| Corpus.Partners | datasources/arxiv.py:436 | the merged rows of one paper pair it with texts of its id |
| Corpus.Merge | datasources/arxiv.py:436 | every merged row pairs a metadata row with a text row of the same id |
| Corpus.PartnersOfUnique | datasources/arxiv.py:436 | with unique text ids a paper has one partner if its id has a text, none otherwise |
| Corpus.MergeUnique | datasources/arxiv.py:436 | merging frames with unique ids gives unique ids |
| Corpus.MergeFind | datasources/arxiv.py:436 | the merged row of an id is the pair of its metadata row and its text row |
| Corpus.MergeIsInnerJoin | datasources/arxiv.py:436 | the merge is the inner join: one record exactly for each id in both frames |
| Corpus.CleanWithCleans | datasources/arxiv.py:421 | every text read has the shape `cleaned_text` promises |
| Corpus.ReadTexts | datasources/arxiv.py:419-425 | one row per file listed |
| Corpus.ReadTextsRow | datasources/arxiv.py:419-425 | row `k` is the name of file `k` and its cleaned contents |
| Corpus.ReadTextsCleaned | datasources/arxiv.py:419-425 | every row holds its file's name and a cleaned text |
| Corpus.AssembledCorpus | datasources/arxiv.py:429-441 | corpus ids are unique; the record of an id is the first metadata row with it, abstract cleaned, joined with the first text file giving that id |
| Corpus.CorpusAbstracts | datasources/arxiv.py:441 | every corpus abstract is single-spaced |
| Corpus.CorpusTextsFrom | datasources/arxiv.py:429-441 | every corpus text is the text of some file read |
| Corpus.CorpusTexts | datasources/arxiv.py:419-441 | every corpus text has the shape `cleaned_text` promises |
| Corpus.UnderPdfDir | datasources/arxiv.py:407 | the text file of a PDF in the PDF directory is in the PDF directory too |
| Corpus.JoinTxtDir | datasources/arxiv.py:407 | moving into the text directory puts a file at `./tmp/arxiv_txt/<name>` |
| Corpus.MoveStepKeeps | datasources/arxiv.py:406-409 | a round of the move loop adds no file to the PDF directory |
| Corpus.MoveStepNeedsText | datasources/arxiv.py:407 | a round succeeds only if its text file exists |
| Corpus.MoveAllFirst | datasources/arxiv.py:406-409 | a finished loop finished its first round and the rest |
| Corpus.MoveAllNext | datasources/arxiv.py:406-409 | the first round needs its text file and adds nothing to the PDF directory |
| Corpus.MoveAllNeedsTexts | datasources/arxiv.py:406-409 | the move loop finishes only if every PDF's text file existed after conversion |
| Corpus.ConvertEach | datasources/arxiv.py:399-402 | `convert_safe` ran on every PDF, in order |
| Corpus.MoveTexts | datasources/arxiv.py:406-409 | the loop moves and deletes until the first failure and reports whether it finished |
| Corpus.TxtListing | datasources/arxiv.py:413 | every name listed is a `.txt` file in the text directory |
| Corpus.ReadTextFiles | datasources/arxiv.py:419-425 | the loop's `file_list` is one cleaned row per listed file, in listing order |
| Corpus.Process | datasources/arxiv.py:388-453 | True exactly when the pool can start and every PDF's text file could be moved; the file system and the corpus written are those of the specification functions |
| Metadata.Head | datasources/arxiv.py:40-41 | `df.head(n)`: a prefix of the rows with pandas' length for positive and negative `n` |
| Metadata.LiteralOccurrenceMatches | datasources/arxiv.py:44 | a category string holding the pattern literally is selected |
| Metadata.DotlessPatternIsLiteral | datasources/arxiv.py:44 | a pattern without a dot selects exactly where it occurs literally |
| Metadata.PreprocessSelects | datasources/arxiv.py:37-51 | truncation first, then the category filter, keeping order; no arguments keeps all rows |
| Metadata.DateFilterSelects | datasources/arxiv.py:463 | the date filter keeps exactly the rows with `update_date >= "2007-01-01"`, in order |
| Metadata.RecentIsUpwardClosed | datasources/arxiv.py:463 | the date test is a threshold in string order |
| Metadata.Urls | datasources/arxiv.py:476-483 | one URL per row, in row order, with the id prefix, id and last version; none when a row has no versions |
| Metadata.CollectUrls | datasources/arxiv.py:476-483 | the loop's URL list is `Urls` of the rows, or the error when a row has no versions |
| Metadata.DownloadedFileId | datasources/arxiv.py:478-481 | the URL's file is `<id>v<n>.pdf`; the id `process` derives from its text file is the paper's id again |
| Metadata.TextNameOfPdf | datasources/arxiv.py:483-497 | a PDF saved as `dir/stem.pdf` gets the text file name `stem.txt` |
| Metadata.ReadLinesOfLines | datasources/arxiv.py:490-492 | reading the URL file line by line gives back the URLs |
| Metadata.UnprocessedDownloadFails | datasources/arxiv.py:499-520 | without processing, `download` returns False |
| Metadata.IntendedDownloadStatus | datasources/arxiv.py:516 | the intended status: True without processing, `process`'s status with it |
| Metadata.StatusesAgreeWhenProcessing | datasources/arxiv.py:499-516 | the returned and intended statuses agree exactly when processing runs |
| Metadata.WithoutNestedTree | datasources/arxiv.py:503-510 | removing a subtree and then its parent tree removes just the parent tree |
| Metadata.ScratchRemoved | datasources/arxiv.py:503-510 | the four `rm -rf` calls together remove `./tmp` |
| Metadata.Download | datasources/arxiv.py:455-520 | the status is False without processing or when a URL cannot be built; with processing it is `process`'s; the URL file and downloads are written, `./tmp` is removed after processing |

## Left out

- Running the extractors (`run_pdftotext`, `run_pdf2txt`, `run_pdf2txt_A`, their timeouts and subprocesses) is not modelled: each is an input saying whether it produced text and which text.
- `helpers.fixunicode.fix_unicode` is not part of this model. It is a function parameter.
- The nltk word list is a parameter, and `wordpunct_tokenize` is modelled as its `\w+|[^\w\s]+` rule over ASCII.
- Regular-expression classes are modelled over ASCII. `\d` and `\w` do not include other Unicode digits and letters, and `(?i)` folds only ASCII letters. A non-ASCII digit that line 42 of `pipeline/pdf2txt.py` would remove therefore stays in the model until line 58, and it can change what lines 45 and 52 match in between: in `http://٣ abc` the model removes the whole URL, while Python leaves `http:` behind.
- Concurrency: `multiprocessing.Pool` is not modelled. Conversions are applied one after another, which matches the file system the pool leaves when each PDF has its own files.
- The pool size: `os.cpu_count()` is an input. A pool size below 1 is modelled as the exception it raises.
- Glob matching is not modelled: the paths `glob.glob` returns are an input. The order `os.listdir` returns is also an input, constrained to list each file of the directory once.
- Directories are not modelled. The file system is a map from paths to contents, and `os.makedirs` has no counterpart.
- `shutil.move` and `os.remove` are modelled only in the cases the loop meets: moving a file into an existing directory, and removing a file.
- Reading and writing JSON is not modelled:
  - The metadata rows are an input.
  - The corpus `process` writes to `arxiv_fulltext.json` is returned.
  - `preprocess`'s output file is not modelled.
- The gsutil download is an input map of the files it writes. The `rm -rf` calls are modelled as removing every path under the named one.
- Metadata.Contains: of the regular-expression syntax of `str.contains`, only `.` is modelled. Other metacharacters in a category pattern are taken literally, and missing values in the `categories` column are not modelled.
- `process` drops duplicate metadata rows in place, which changes the caller's frame. The model returns the new rows and does not model the change to the caller's frame.
- Corpus.Process: the `print` calls and the `Exception` handler's message are not modelled; only the boolean outcome is.
- Quality.AverageTimesCount: the average is exact rational arithmetic, not floating point. The test against 45 is stated over integers.

## Findings

| source | as written | input that shows it | evidently intended | confidence | as-written member | corrected member |
|---|---|---|---|---|---|---|
| pipeline/pdf2txt.py:137-141 | The numbers found in a file name are kept as strings (`str(int(n))`) and compared as strings. | `["f9.pdf","f10.pdf","f2.pdf"]` sorts to `["f10.pdf","f2.pdf","f9.pdf"]` | Numbers compared by value, as the docstring (lines 117-121) describes: `["f2.pdf","f9.pdf","f10.pdf"]` | high; not executed | NaturalSort.StringComparedNumbers | NaturalSort.NumericOrderSorted |
| datasources/arxiv.py:499-520 | `is_processed` is bound only inside `if arxiv_process:`. Without processing, line 516 raises UnboundLocalError, which line 518 catches and turns into False. | `download(df, arxiv_process=False)` with every paper having versions | Report success once the download completes; report `process`'s status when processing runs | medium; not executed | Metadata.UnprocessedDownloadFails | Metadata.IntendedDownloadStatus |

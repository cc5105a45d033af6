/**
 * `cleaned_text` (pipeline/pdf2txt.py): an ordered chain of `re.sub`
 * rewrites, a tokenise-and-filter step against an English word set, and a
 * final strip.
 *
 * Each rewrite is a `Pattern`; `MatchAt` says what the pattern matches at a
 * position (its length, with Python's greedy matching and backtracking, and
 * the replacement) and `Sub` is `re.sub`: scan left to right, replace a match
 * and continue after it, otherwise keep the character and move on. Lookbehind
 * reads the original string, as Python's does.
 *
 * `\d`, `\w`, `(?i)` and `str.isalpha` are taken over ASCII. From line 58 on
 * the text is ASCII, so only the introduction trim, `\d+` (line 42), the
 * rewrites of lines 45-52 and the whitespace classes see other characters.
 * A non-ASCII digit that line 42 would remove stays in the model until line
 * 58, and in between it changes what lines 45 and 52 match: in `http://٣ abc`
 * it is the tail of a URL that line 45 removes whole, and in `-٣ x` it keeps
 * line 52 from joining the hyphen to the next word.
 */
module Cleaner {
  import opened Outcomes
  import opened Text

  predicate IsBracket(c: char) {
    c == '(' || c == ')' || c == '[' || c == ']' || c == '{' || c == '}'
  }

  predicate IsBackslash(c: char) { c == '\\' }

  predicate IsEquals(c: char) { c == '=' }

  predicate NonAscii(c: char) { !IsAscii(c) }

  /** `[^\w\s]`: what `wordpunct_tokenize` groups into punctuation tokens. */
  predicate IsSymbol(c: char) { !IsSpace(c) && !IsWordChar(c) }

  /** Every character of `r` is a space or occurs in `s`. */
  predicate CharsFrom(r: string, s: string) {
    forall j :: 0 <= j < |r| ==> r[j] == ' ' || r[j] in s
  }

  /** No character of `s` is of the class that `p` deletes. */
  predicate Avoids(s: string, p: Pattern) {
    forall j :: 0 <= j < |s| ==> !Deleted(p, s[j])
  }

  lemma CharsFromTrans(r: string, s: string, t: string)
    requires CharsFrom(r, s) && CharsFrom(s, t)
    ensures CharsFrom(r, t)
  {
    forall j | 0 <= j < |r| && r[j] != ' ' ensures r[j] in t {
      var k :| 0 <= k < |s| && s[k] == r[j];
    }
  }

  lemma AvoidsFrom(r: string, s: string, p: Pattern)
    requires CharsFrom(r, s) && Avoids(s, p) && !Deleted(p, ' ')
    ensures Avoids(r, p)
  {
    forall j | 0 <= j < |r| ensures !Deleted(p, r[j]) {
      if r[j] != ' ' {
        var k :| 0 <= k < |s| && s[k] == r[j];
      }
    }
  }

  // ---------------------------------------------------------------------
  // Lines 29-30: `(?i)^(.*?Introduction)` and `(?i)^(.*?INTRODUCTION)`
  // ---------------------------------------------------------------------

  const Introduction: string := "introduction"

  /** The word "introduction", in any case, starts at `k`. */
  predicate IntroAt(s: string, k: nat) {
    k + |Introduction| <= |s| && forall j :: 0 <= j < |Introduction| ==> LowerChar(s[k + j]) == Introduction[j]
  }

  /**
   * Where the word that a lazy `.*?Introduction` starting at `k` matches
   * begins: the first occurrence of the word, provided no newline comes
   * before it (`.` does not match a newline).
   */
  function IntroStart(s: string, k: nat): (e: Option<nat>)
    requires k <= |s|
    ensures e.Some? ==> k <= e.value && IntroAt(s, e.value)
    decreases |s| - k
  {
    if k + |Introduction| > |s| then None
    else if IntroAt(s, k) then Some(k)
    else if s[k] == '\n' then None
    else IntroStart(s, k + 1)
  }

  /** The occurrence found is the first one, and nothing is found past a newline. */
  lemma {:induction false} IntroStartFirst(s: string, k: nat)
    requires k <= |s|
    ensures IntroStart(s, k).Some? ==> forall j :: k <= j < IntroStart(s, k).value ==> s[j] != '\n' && !IntroAt(s, j)
    ensures IntroStart(s, k).None? ==> forall j :: k <= j <= |s| && IntroAt(s, j) ==> exists m :: k <= m < j && s[m] == '\n'
    decreases |s| - k
  {
    if k + |Introduction| > |s| {
      assert forall j :: k <= j <= |s| ==> !IntroAt(s, j);
    } else if IntroAt(s, k) {
    } else if s[k] == '\n' {
      forall j | k < j <= |s| && IntroAt(s, j) ensures exists m :: k <= m < j && s[m] == '\n' {
        assert s[k] == '\n';
      }
    } else {
      IntroStartFirst(s, k + 1);
      var r := IntroStart(s, k + 1);
      assert IntroStart(s, k) == r;
      if r.Some? {
        forall j | k <= j < r.value ensures s[j] != '\n' && !IntroAt(s, j) {
          if j == k {
            assert s[k] != '\n' && !IntroAt(s, k);
          }
        }
      } else {
        forall j | k <= j <= |s| && IntroAt(s, j) ensures exists m :: k <= m < j && s[m] == '\n' {
          assert j != k;
          var m :| k + 1 <= m < j && s[m] == '\n';
        }
      }
    }
  }

  /** One `re.sub(r'(?i)^(.*?Introduction)', '', text)`: `^` anchors at the start, so at most one cut. */
  function TrimIntroduction(s: string): (r: string)
    ensures |r| <= |s| && r == s[|s| - |r|..]
    ensures r != s ==> |s| - |r| >= |Introduction|
    ensures r != s ==> IntroAt(s, |s| - |r| - |Introduction|)
    ensures r != s ==> forall j :: 0 <= j < |s| - |r| - |Introduction| ==> s[j] != '\n' && !IntroAt(s, j)
  {
    IntroStartFirst(s, 0);
    match IntroStart(s, 0)
    case Some(e) => s[e + |Introduction|..]
    case None => s
  }

  /** The trim never reaches past the first line. */
  lemma TrimStaysOnFirstLine(s: string)
    requires forall j :: 0 <= j < |s| && IntroAt(s, j) ==> exists m :: 0 <= m < j && s[m] == '\n'
    ensures TrimIntroduction(s) == s
  {
    IntroStartFirst(s, 0);
  }

  /** "Introduction" as written at `k` is an occurrence of the word. */
  lemma IntroAtWord(t: string, k: nat)
    requires k + |Introduction| <= |t| && t[k..k + |Introduction|] == "Introduction"
    ensures IntroAt(t, k)
  {
    forall j | 0 <= j < |Introduction| ensures LowerChar(t[k + j]) == Introduction[j] {
      assert t[k + j] == "Introduction"[j];
      if j == 0 {
        assert LowerChar('I') == 'i';
      }
    }
  }

  lemma FirstTrim()
    ensures TrimIntroduction("Introduction Introduction text") == " Introduction text"
  {
    var s := "Introduction Introduction text";
    IntroAtWord(s, 0);
    assert IntroStart(s, 0) == Some(0);
  }

  lemma SecondTrim()
    ensures TrimIntroduction(" Introduction text") == " text"
  {
    var t := " Introduction text";
    assert !IntroAt(t, 0) by {
      assert LowerChar(t[0 + 0]) != Introduction[0];
    }
    assert t[1..1 + |Introduction|] == "Introduction" by {
      assert t == " " + "Introduction" + " text";
    }
    IntroAtWord(t, 1);
    assert IntroStart(t, 1) == Some(1);
    assert IntroStart(t, 0) == Some(1);
  }

  /**
   * Lines 29 and 30 are the same case-insensitive pattern, so the second one
   * cuts through a second occurrence of the word on the first line.
   */
  lemma SecondTrimCutsAgain()
    ensures TrimIntroduction("Introduction Introduction text") == " Introduction text"
    ensures TrimIntroduction(TrimIntroduction("Introduction Introduction text")) == " text"
  {
    FirstTrim();
    SecondTrim();
  }

  // ---------------------------------------------------------------------
  // The `re.sub` rewrites of lines 33-97
  // ---------------------------------------------------------------------

  /** The end of the run of characters satisfying `p` that starts at `i`, as a length. */
  function Span(s: string, i: nat, p: char -> bool): (n: nat)
    requires i <= |s|
    ensures i + n <= |s|
    ensures forall j :: i <= j < i + n ==> p(s[j])
    ensures i + n < |s| ==> !p(s[i + n])
    decreases |s| - i
  {
    if i == |s| || !p(s[i]) then 0 else 1 + Span(s, i + 1, p)
  }

  /** The length of the run of copies of `c` that starts at `i`. */
  function SameRun(s: string, i: nat, c: char): (n: nat)
    requires i <= |s|
    ensures i + n <= |s|
    ensures forall j :: i <= j < i + n ==> s[j] == c
    ensures i + n < |s| ==> s[i + n] != c
    decreases |s| - i
  {
    if i == |s| || s[i] != c then 0 else 1 + SameRun(s, i + 1, c)
  }

  predicate StartsAt(s: string, i: nat, w: string) {
    i + |w| <= |s| && s[i..i + |w|] == w
  }

  /** The patterns of `cleaned_text`, in the order of the source. */
  datatype Pattern =
    | Whitespace           // line 33: `\s+` -> ' '
    | Brackets             // line 36: `[\(\)\[\]\{\}]` -> ''
    | Digits               // line 42: `\d+` -> ''
    | Url                  // line 45: `https?://\S+` -> ''
    | Backslash            // line 48: `\\` -> ''
    | HyphenBreak          // line 51: `-\s+` -> ''
    | NonAsciiRun          // line 58: `[^\x00-\x7F]+` -> ''
    | SingleLetter(spaced: bool)  // line 61: `\s+[a-zA-Z]\s+` -> '' (or ' ' when spaced)
    | EscapedWord          // line 64: `\\[a-zA-Z0-9]+` -> ''
    | SpaceBeforeSymbol    // line 67: `\s+(?=[^a-zA-Z0-9])` -> ''
    | SpaceAfterSymbol     // line 70: `(?<=[^a-zA-Z0-9])\s+` -> ''
    | SpaceBetweenSymbols  // line 73: `(?<=[^a-zA-Z0-9])\s+(?=[^a-zA-Z0-9])` -> ''
    | RepeatedAlnum        // line 76: `([a-zA-Z0-9])\1{3,}` -> '\1'
    | RepeatedPunct        // line 79: `([^\s\w]|_)\1{3,}` -> '\1'
    | PunctRun             // line 82: `([^\s\w]|_)+` -> '\1 '
    | EqualsSign           // line 85: `=` -> ''
    | WordWithBackslash    // line 94: `\w*\\+\w*` -> ''
    | LetterBeforeComma    // line 97: `\s+[a-zA-Z]\s+,` -> ''

  /** A match: how many characters it covers and what replaces them. */
  datatype Hit = Hit(len: nat, rep: string)

  /** A match that starts at `i` and stays inside `s`, replaced by spaces and characters of `s`. */
  predicate Fits(s: string, i: nat, h: Option<Hit>) {
    h.Some? ==> 1 <= h.value.len && i + h.value.len <= |s| && CharsFrom(h.value.rep, s)
  }

  /** `https?://\S+`: the scheme, then at least one non-space; `\S+` is greedy. */
  function UrlAt(s: string, i: nat): (h: Option<Hit>)
    requires i < |s|
    ensures Fits(s, i, h)
  {
    var k := if StartsAt(s, i, "https://") then 8 else if StartsAt(s, i, "http://") then 7 else 0;
    if k > 0 && i + k < |s| && !IsSpace(s[i + k]) then Some(Hit(k + Span(s, i + k, NotSpace), ""))
    else None
  }

  /** `\s+[a-zA-Z]\s+`, optionally followed by a comma (line 97). */
  function LetterAt(s: string, i: nat, comma: bool, rep: string): (h: Option<Hit>)
    requires i < |s|
    requires CharsFrom(rep, s)
    ensures Fits(s, i, h)
  {
    if !IsSpace(s[i]) then None
    else
      var n := Span(s, i, IsSpace);
      var j := i + n;
      if j + 1 < |s| && IsLetter(s[j]) && IsSpace(s[j + 1]) then
        var m := Span(s, j + 1, IsSpace);
        if !comma then Some(Hit(n + 1 + m, rep))
        else if j + 1 + m < |s| && s[j + 1 + m] == ',' then Some(Hit(n + 1 + m + 1, rep))
        else None
      else None
  }

  /**
   * A whitespace run, with the lookbehind `(?<=[^a-zA-Z0-9])` when `behind`
   * and the lookahead `(?=[^a-zA-Z0-9])` when `ahead`. When the character
   * after the run fails the lookahead, the greedy `\s+` gives back its last
   * space, which passes it.
   */
  function SpaceRunAt(s: string, i: nat, behind: bool, ahead: bool): (h: Option<Hit>)
    requires i < |s|
    ensures Fits(s, i, h)
  {
    if !IsSpace(s[i]) then None
    else if behind && !(i > 0 && !IsAlnum(s[i - 1])) then None
    else
      var n := Span(s, i, IsSpace);
      if !ahead || (i + n < |s| && !IsAlnum(s[i + n])) then Some(Hit(n, ""))
      else if n >= 2 then Some(Hit(n - 1, ""))
      else None
  }

  /** `(c)\1{3,}` -> `\1` for a character of the class `p`: four or more copies become one. */
  function RepeatAt(s: string, i: nat, p: char -> bool): (h: Option<Hit>)
    requires i < |s|
    ensures Fits(s, i, h)
  {
    if p(s[i]) && SameRun(s, i, s[i]) >= 4 then Some(Hit(SameRun(s, i, s[i]), [s[i]])) else None
  }

  /** `\w*\\+\w*`. */
  function BackslashWordAt(s: string, i: nat): (h: Option<Hit>)
    requires i < |s|
    ensures Fits(s, i, h)
  {
    var w := Span(s, i, IsWordChar);
    var j := i + w;
    if j < |s| && s[j] == '\\' then
      var b := Span(s, j, IsBackslash);
      Some(Hit(w + b + Span(s, j + b, IsWordChar), ""))
    else None
  }

  /** A run of characters of the class `p` replaced by `rep`. */
  function ClassRunAt(s: string, i: nat, p: char -> bool, rep: string): (h: Option<Hit>)
    requires i < |s|
    requires CharsFrom(rep, s)
    ensures Fits(s, i, h)
  {
    if p(s[i]) then Some(Hit(Span(s, i, p), rep)) else None
  }

  /** What pattern `p` matches at position `i` of `s`, if anything. */
  function MatchAt(p: Pattern, s: string, i: nat): (h: Option<Hit>)
    requires i < |s|
    ensures Fits(s, i, h)
  {
    match p
    case Whitespace => ClassRunAt(s, i, IsSpace, " ")
    case Brackets => ClassRunAt(s, i, IsBracket, "")
    case Digits => ClassRunAt(s, i, IsDigit, "")
    case Url => UrlAt(s, i)
    case Backslash => ClassRunAt(s, i, IsBackslash, "")
    case HyphenBreak =>
      if s[i] == '-' && i + 1 < |s| && IsSpace(s[i + 1]) then Some(Hit(1 + Span(s, i + 1, IsSpace), ""))
      else None
    case NonAsciiRun => ClassRunAt(s, i, NonAscii, "")
    case SingleLetter(spaced) => LetterAt(s, i, false, if spaced then " " else "")
    case EscapedWord =>
      if s[i] == '\\' && i + 1 < |s| && IsAlnum(s[i + 1]) then Some(Hit(1 + Span(s, i + 1, IsAlnum), ""))
      else None
    case SpaceBeforeSymbol => SpaceRunAt(s, i, false, true)
    case SpaceAfterSymbol => SpaceRunAt(s, i, true, false)
    case SpaceBetweenSymbols => SpaceRunAt(s, i, true, true)
    case RepeatedAlnum => RepeatAt(s, i, IsAlnum)
    case RepeatedPunct => RepeatAt(s, i, IsPunct)
    case PunctRun =>
      if IsPunct(s[i]) then
        var n := Span(s, i, IsPunct);
        Some(Hit(n, [s[i + n - 1], ' ']))
      else None
    case EqualsSign => ClassRunAt(s, i, IsEquals, "")
    case WordWithBackslash => BackslashWordAt(s, i)
    case LetterBeforeComma => LetterAt(s, i, true, "")
  }

  /**
   * One step of `re.sub` at `i`: the replacement of the match there, or
   * `s[i]` kept when nothing matches; and the position the scan resumes at.
   */
  function Step(p: Pattern, s: string, i: nat): (st: (string, nat))
    requires i < |s|
    ensures i < st.1 <= |s| && CharsFrom(st.0, s)
  {
    match MatchAt(p, s, i)
    case Some(h) => (h.rep, i + h.len)
    case None => assert [s[i]][0] == s[i]; ([s[i]], i + 1)
  }

  /** `re.sub(p, rep, s[i..])`, with lookbehind reading `s`. */
  function Sub(p: Pattern, s: string, i: nat): string
    requires i <= |s|
    decreases |s| - i
  {
    if i == |s| then []
    else
      var st := Step(p, s, i);
      st.0 + Sub(p, s, st.1)
  }

  /** A rewrite adds nothing but spaces and characters of its input. */
  lemma {:induction false} SubCharsFrom(p: Pattern, s: string, i: nat)
    requires i <= |s|
    ensures CharsFrom(Sub(p, s, i), s)
    decreases |s| - i
  {
    if i < |s| {
      var st := Step(p, s, i);
      SubCharsFrom(p, s, st.1);
      CharsFromConcat(st.0, Sub(p, s, st.1), s);
    }
  }

  lemma CharsFromConcat(a: string, b: string, s: string)
    requires CharsFrom(a, s) && CharsFrom(b, s)
    ensures CharsFrom(a + b, s)
  {
    forall j | |a| <= j < |a + b| ensures (a + b)[j] == b[j - |a|] {
    }
  }

  /** `re.sub(p, rep, s)`. */
  function Replace(p: Pattern, s: string): (r: string)
    ensures CharsFrom(r, s)
  {
    SubCharsFrom(p, s, 0);
    Sub(p, s, 0)
  }

  /** The rewrites of lines 33-97, in order. */
  const Rewrites: seq<Pattern> := [
    Whitespace, Brackets, Digits, Url, Backslash, HyphenBreak, NonAsciiRun,
    SingleLetter(false), EscapedWord, SpaceBeforeSymbol, SpaceAfterSymbol,
    SpaceBetweenSymbols, RepeatedAlnum, RepeatedPunct, PunctRun, EqualsSign,
    WordWithBackslash, LetterBeforeComma
  ]

  /** Apply the rewrites `ps` one after the other. */
  function ApplyAll(ps: seq<Pattern>, s: string): (r: string)
    ensures CharsFrom(r, s)
  {
    if ps == [] then s
    else
      var t := Replace(ps[0], s);
      var r := ApplyAll(ps[1..], t);
      CharsFromTrans(r, t, s);
      r
  }

  lemma {:induction false} ApplyAllSplit(ps: seq<Pattern>, k: nat, s: string)
    requires k < |ps|
    ensures ApplyAll(ps, s) == ApplyAll(ps[k + 1..], Replace(ps[k], ApplyAll(ps[..k], s)))
  {
    if k > 0 {
      ApplyAllSplit(ps[1..], k - 1, Replace(ps[0], s));
      assert ps[1..][k..] == ps[k + 1..];
      assert ps[1..][..k - 1] == ps[1..k];
      assert ps[..k][1..] == ps[1..k];
    }
  }

  // ---------------------------------------------------------------------
  // Properties of single rewrites
  // ---------------------------------------------------------------------

  /** The class of characters a deleting pattern removes without a trace. */
  predicate Deleted(p: Pattern, c: char) {
    match p
    case Brackets => IsBracket(c)
    case Digits => IsDigit(c)
    case Backslash => c == '\\'
    case NonAsciiRun => !IsAscii(c)
    case EqualsSign => c == '='
    case _ => false
  }

  predicate Deleting(p: Pattern) {
    p == Brackets || p == Digits || p == Backslash || p == NonAsciiRun || p == EqualsSign
  }

  /** `s` without the characters that satisfy `bad`. */
  function Without(s: string, p: Pattern): (r: string)
    ensures forall j :: 0 <= j < |r| ==> !Deleted(p, r[j])
  {
    if s == [] then []
    else if Deleted(p, s[0]) then Without(s[1..], p)
    else [s[0]] + Without(s[1..], p)
  }

  /** A deleting pattern matches exactly at the characters of its class, and covers only such characters. */
  lemma DeletingMatch(p: Pattern, s: string, i: nat)
    requires Deleting(p) && i < |s|
    ensures MatchAt(p, s, i).Some? <==> Deleted(p, s[i])
    ensures MatchAt(p, s, i).Some? ==>
      MatchAt(p, s, i).value.rep == "" &&
      forall j :: i <= j < i + MatchAt(p, s, i).value.len ==> Deleted(p, s[j])
  {
  }

  /** A deleting rewrite removes every character of its class and keeps every other one, in order. */
  lemma {:induction false} DeletionIsFilter(p: Pattern, s: string, i: nat)
    requires Deleting(p) && i <= |s|
    ensures Sub(p, s, i) == Without(s[i..], p)
    decreases |s| - i
  {
    if i < |s| {
      var t := s[i..];
      assert t[1..] == s[i + 1..];
      var st := Step(p, s, i);
      DeletingStep(p, s, i);
      DeletionIsFilter(p, s, st.1);
      if Deleted(p, s[i]) {
        WithoutSkips(s, i, st.1 - i, p);
      } else {
        assert Without(t, p) == [s[i]] + Without(s[i + 1..], p);
      }
    }
  }

  /** At a character of its class a deleting rewrite drops a run of such characters; elsewhere it keeps the character. */
  lemma DeletingStep(p: Pattern, s: string, i: nat)
    requires Deleting(p) && i < |s|
    ensures var st := Step(p, s, i);
      if Deleted(p, s[i]) then st.0 == "" && forall j :: i <= j < st.1 ==> Deleted(p, s[j])
      else st == ([s[i]], i + 1)
  {
    DeletingMatch(p, s, i);
  }

  /** Dropping a run of deleted characters. */
  lemma {:induction false} WithoutSkips(s: string, i: nat, n: nat, p: Pattern)
    requires i + n <= |s|
    requires forall j :: i <= j < i + n ==> Deleted(p, s[j])
    ensures Without(s[i..], p) == Without(s[i + n..], p)
    decreases n
  {
    if n > 0 {
      assert s[i..][1..] == s[i + 1..];
      WithoutSkips(s, i + 1, n - 1, p);
    }
  }

  /** Lines 36, 42, 48, 58 and 85 leave no bracket, digit, backslash, non-ASCII character or `=`. */
  lemma DeletionRemovesClass(p: Pattern, s: string)
    requires Deleting(p)
    ensures forall j :: 0 <= j < |Replace(p, s)| ==> !Deleted(p, Replace(p, s)[j])
  {
    DeletionIsFilter(p, s, 0);
  }

  /** Runs of whitespace become one space: line 33 leaves only single spaces. */
  lemma {:induction false} WhitespaceCollapsed(s: string, i: nat)
    requires i <= |s|
    ensures var r := Sub(Whitespace, s, i);
      forall j :: 0 <= j < |r| && IsSpace(r[j]) ==> r[j] == ' ' && (j + 1 < |r| ==> !IsSpace(r[j + 1]))
    ensures var r := Sub(Whitespace, s, i);
      r != [] && IsSpace(r[0]) ==> IsSpace(s[i])
    decreases |s| - i
  {
    if i < |s| {
      var st := Step(Whitespace, s, i);
      WhitespaceStep(s, i);
      WhitespaceCollapsed(s, st.1);
      assert Sub(Whitespace, s, i) == st.0 + Sub(Whitespace, s, st.1);
      if IsSpace(s[i]) {
        assert st.1 == |s| ==> Sub(Whitespace, s, st.1) == [];
      }
    }
  }

  /** Line 33 at `i`: a run of whitespace becomes one space and the scan resumes past it; anything else is kept. */
  lemma WhitespaceStep(s: string, i: nat)
    requires i < |s|
    ensures var st := Step(Whitespace, s, i);
      if IsSpace(s[i]) then st.0 == " " && (st.1 < |s| ==> !IsSpace(s[st.1]))
      else st == ([s[i]], i + 1)
  {
  }

  /**
   * Line 61 on a single letter with one space on each side: the match takes
   * both spaces and the letter, and with the empty replacement the words on
   * either side are glued together; the abstract cleanup's `' '` keeps them apart.
   */
  lemma SingleLetterGlues(s: string, i: nat, spaced: bool)
    requires i + 3 < |s|
    requires IsSpace(s[i]) && IsLetter(s[i + 1]) && IsSpace(s[i + 2]) && !IsSpace(s[i + 3])
    ensures MatchAt(SingleLetter(spaced), s, i) == Some(Hit(3, if spaced then " " else ""))
  {
    assert Span(s, i, IsSpace) == 1;
    assert Span(s, i + 2, IsSpace) == 1;
  }

  /** On a text without backslashes, lines 64 and 94 change nothing (line 48 removed every backslash). */
  lemma {:induction false} BackslashPatternsIdle(p: Pattern, s: string, i: nat)
    requires p == EscapedWord || p == WordWithBackslash
    requires i <= |s|
    requires forall j :: 0 <= j < |s| ==> s[j] != '\\'
    ensures Sub(p, s, i) == s[i..]
    decreases |s| - i
  {
    if i < |s| {
      IdleStep(p, s, i);
      BackslashPatternsIdle(p, s, i + 1);
      assert s[i..] == [s[i]] + s[i + 1..];
    }
  }

  lemma IdleStep(p: Pattern, s: string, i: nat)
    requires p == EscapedWord || p == WordWithBackslash
    requires i < |s|
    requires forall j :: 0 <= j < |s| ==> s[j] != '\\'
    ensures Step(p, s, i) == ([s[i]], i + 1)
  {
    assert MatchAt(p, s, i).None?;
  }

  // ---------------------------------------------------------------------
  // Line 100: keep English words and non-alphabetic tokens
  // ---------------------------------------------------------------------

  /** `wordpunct_tokenize`: the tokens `\w+|[^\w\s]+`, left to right. */
  function Tokens(s: string, i: nat): (ts: seq<string>)
    requires i <= |s|
    ensures forall k :: 0 <= k < |ts| ==> ts[k] != [] && NoSpace(ts[k]) && CharsFrom(ts[k], s)
    decreases |s| - i
  {
    if i == |s| then []
    else if IsWordChar(s[i]) then
      var n := Span(s, i, IsWordChar);
      var w := s[i..i + n];
      assert forall j :: 0 <= j < n ==> w[j] == s[i + j];
      [w] + Tokens(s, i + n)
    else if IsSymbol(s[i]) then
      var n := Span(s, i, IsSymbol);
      var w := s[i..i + n];
      assert forall j :: 0 <= j < n ==> w[j] == s[i + j];
      [w] + Tokens(s, i + n)
    else Tokens(s, i + 1)
  }

  /** `w.lower() in words or not w.isalpha()`. */
  predicate Keep(w: string, words: set<string>) {
    Lower(w) in words || !IsAlpha(w)
  }

  function KeepTokens(ts: seq<string>, words: set<string>): (kept: seq<string>)
    ensures forall k :: 0 <= k < |kept| ==> Keep(kept[k], words)
    ensures forall k :: 0 <= k < |kept| ==> kept[k] in ts
  {
    if ts == [] then []
    else if Keep(ts[0], words) then [ts[0]] + KeepTokens(ts[1..], words)
    else KeepTokens(ts[1..], words)
  }

  /** Line 100. */
  function EnglishOnly(s: string, words: set<string>): string {
    Join(KeepTokens(Tokens(s, 0), words))
  }

  // ---------------------------------------------------------------------
  // The whole chain
  // ---------------------------------------------------------------------

  /** `cleaned_text(text)`, with the English word list as `words`. */
  function CleanedText(text: string, words: set<string>): string {
    var t := TrimIntroduction(TrimIntroduction(text));
    Strip(EnglishOnly(ApplyAll(Rewrites, t), words))
  }

  /** No bracket, digit, `=`, backslash or non-ASCII character. */
  predicate Clean(s: string) {
    forall j :: 0 <= j < |s| ==>
      !IsBracket(s[j]) && !IsDigit(s[j]) && s[j] != '=' && s[j] != '\\' && IsAscii(s[j])
  }

  lemma CleanFrom(r: string, s: string)
    requires CharsFrom(r, s) && Clean(s)
    ensures Clean(r)
  {
    forall j | 0 <= j < |r| && r[j] != ' ' ensures
      !IsBracket(r[j]) && !IsDigit(r[j]) && r[j] != '=' && r[j] != '\\' && IsAscii(r[j])
    {
      var m :| 0 <= m < |s| && s[m] == r[j];
    }
  }

  /** A deleting rewrite in the chain: nothing of its class survives the rest of the chain. */
  lemma ChainAvoids(k: nat, p: Pattern, s: string)
    requires k < |Rewrites| && Rewrites[k] == p && Deleting(p)
    ensures forall j :: 0 <= j < |ApplyAll(Rewrites, s)| ==> !Deleted(p, ApplyAll(Rewrites, s)[j])
  {
    var before := ApplyAll(Rewrites[..k], s);
    var t := Replace(p, before);
    ApplyAllSplit(Rewrites, k, s);
    var r := ApplyAll(Rewrites, s);
    assert CharsFrom(r, t) by {
      assert r == ApplyAll(Rewrites[k + 1..], t);
    }
    DeletionRemovesClass(p, before);
    assert Avoids(t, p);
    assert !Deleted(p, ' ');
    AvoidsFrom(r, t, p);
  }

  lemma NoBracketLeft(t: string)
    ensures forall j :: 0 <= j < |ApplyAll(Rewrites, t)| ==> !IsBracket(ApplyAll(Rewrites, t)[j])
  {
    ChainAvoids(1, Brackets, t);
  }

  lemma NoDigitLeft(t: string)
    ensures forall j :: 0 <= j < |ApplyAll(Rewrites, t)| ==> !IsDigit(ApplyAll(Rewrites, t)[j])
  {
    ChainAvoids(2, Digits, t);
  }

  lemma NoBackslashLeft(t: string)
    ensures forall j :: 0 <= j < |ApplyAll(Rewrites, t)| ==> ApplyAll(Rewrites, t)[j] != '\\'
  {
    ChainAvoids(4, Backslash, t);
  }

  lemma NoNonAsciiLeft(t: string)
    ensures forall j :: 0 <= j < |ApplyAll(Rewrites, t)| ==> IsAscii(ApplyAll(Rewrites, t)[j])
  {
    ChainAvoids(6, NonAsciiRun, t);
  }

  lemma NoEqualsLeft(t: string)
    ensures forall j :: 0 <= j < |ApplyAll(Rewrites, t)| ==> ApplyAll(Rewrites, t)[j] != '='
  {
    ChainAvoids(15, EqualsSign, t);
  }

  /** After the rewrites of lines 33-97 no bracket, digit, `=`, backslash or non-ASCII character is left. */
  lemma RewrittenClean(t: string)
    ensures Clean(ApplyAll(Rewrites, t))
  {
    NoBracketLeft(t);
    NoDigitLeft(t);
    NoBackslashLeft(t);
    NoNonAsciiLeft(t);
    NoEqualsLeft(t);
  }

  /** What line 100 keeps is joined by single spaces, and its alphabetic tokens are English words. */
  lemma EnglishOnlyShape(s: string, words: set<string>)
    ensures SingleSpaced(EnglishOnly(s, words))
    ensures CharsFrom(EnglishOnly(s, words), s)
    ensures forall k :: 0 <= k < |Split(EnglishOnly(s, words))| && IsAlpha(Split(EnglishOnly(s, words))[k]) ==>
      Lower(Split(EnglishOnly(s, words))[k]) in words
  {
    var kept := KeepTokens(Tokens(s, 0), words);
    JoinSingleSpaced(kept);
    KeptCharsFrom(Tokens(s, 0), words, s);
    JoinCharsFrom(kept, s);
    EnglishOnlyWords(s, words);
  }

  /** The tokens of what line 100 keeps are the kept tokens, so each alphabetic one is an English word. */
  lemma EnglishOnlyWords(s: string, words: set<string>)
    ensures forall k :: 0 <= k < |Split(EnglishOnly(s, words))| && IsAlpha(Split(EnglishOnly(s, words))[k]) ==>
      Lower(Split(EnglishOnly(s, words))[k]) in words
  {
    var kept := KeepTokens(Tokens(s, 0), words);
    SplitJoin(kept);
    forall k | 0 <= k < |kept| && IsAlpha(kept[k]) ensures Lower(kept[k]) in words {
      assert Keep(kept[k], words);
    }
  }

  /** Keeping some of the tokens keeps them made of characters of `s`. */
  lemma {:induction false} KeptCharsFrom(ts: seq<string>, words: set<string>, s: string)
    requires forall k :: 0 <= k < |ts| ==> CharsFrom(ts[k], s)
    ensures forall k :: 0 <= k < |KeepTokens(ts, words)| ==> CharsFrom(KeepTokens(ts, words)[k], s)
  {
    if ts != [] {
      KeptCharsFrom(ts[1..], words, s);
      assert CharsFrom(ts[0], s);
    }
  }

  /** Joining words made of characters of `s` gives spaces and characters of `s`. */
  lemma {:induction false} JoinCharsFrom(ws: seq<string>, s: string)
    requires forall k :: 0 <= k < |ws| ==> CharsFrom(ws[k], s)
    ensures CharsFrom(Join(ws), s)
  {
    if |ws| > 1 {
      JoinCharsFrom(ws[1..], s);
      assert CharsFrom(ws[0], s);
      assert CharsFrom(" ", s);
      CharsFromConcat(ws[0], " ", s);
      CharsFromConcat(ws[0] + " ", Join(ws[1..]), s);
    } else if |ws| == 1 {
      assert CharsFrom(ws[0], s);
    }
  }

  /** A single-spaced text is its own strip. */
  lemma StripSingleSpaced(s: string)
    requires SingleSpaced(s)
    ensures Strip(s) == s
  {
    if s != [] {
      assert LeadingSpaces(s) == 0;
    }
  }

  /** What `cleaned_text` promises of its output. */
  predicate Cleaned(out: string, words: set<string>) {
    && SingleSpaced(out)
    && (forall k :: 0 <= k < |Split(out)| && IsAlpha(Split(out)[k]) ==> Lower(Split(out)[k]) in words)
    && Clean(out)
  }

  /**
   * The output of `cleaned_text` has no whitespace at either end and single
   * spaces between its tokens; each purely alphabetic token is, in lower
   * case, an English word; and it holds no bracket, digit, `=`, backslash or
   * non-ASCII character.
   */
  lemma CleanedTextShape(text: string, words: set<string>)
    ensures Cleaned(CleanedText(text, words), words)
  {
    var t := TrimIntroduction(TrimIntroduction(text));
    var rewritten := ApplyAll(Rewrites, t);
    var e := EnglishOnly(rewritten, words);
    EnglishOnlyShape(rewritten, words);
    StripSingleSpaced(e);
    RewrittenClean(t);
    CleanFrom(e, rewritten);
  }

  // ---------------------------------------------------------------------
  // Cleaning twice
  // ---------------------------------------------------------------------

  /**
   * A single-spaced text is one line, so the trim of line 29 finds any
   * "introduction" in it and cuts at least that word away.
   */
  lemma OneLineTrimmed(out: string, k: nat)
    requires SingleSpaced(out) && IntroAt(out, k)
    ensures |TrimIntroduction(out)| + |Introduction| <= |out|
  {
    forall m | 0 <= m < |out| ensures out[m] != '\n' {
      if out[m] == '\n' {
        assert IsSpace(out[m]);
      }
    }
    IntroStartFirst(out, 0);
  }

  /**
   * `cleaned_text` is not idempotent: when its output still holds the word
   * "introduction", cleaning that output again cuts it at the trim of line 29.
   */
  lemma RecleaningCuts(text: string, words: set<string>, k: nat)
    requires IntroAt(CleanedText(text, words), k)
    ensures TrimIntroduction(CleanedText(text, words)) != CleanedText(text, words)
  {
    CleanedTextShape(text, words);
    OneLineTrimmed(CleanedText(text, words), k);
  }

  /**
   * A first line that reaches "introduction" without an `i` before it is cut
   * right after the word: "alpha introduction beta", an output of
   * `cleaned_text` for the words {alpha, introduction, beta}, becomes " beta"
   * when it is cleaned again.
   */
  lemma TrimAfterWord(a: string, b: string)
    requires forall j :: 0 <= j < |a| ==> a[j] != 'i' && a[j] != 'I' && a[j] != '\n'
    ensures TrimIntroduction(a + Introduction + b) == b
  {
    var t := a + Introduction + b;
    IntroAtLower(a, b);
    forall j | 0 <= j < |a| ensures t[j] != '\n' && !IntroAt(t, j) {
      assert t[j] == a[j];
      NotIntroAt(t, j);
    }
    IntroStartFirst(t, 0);
    assert IntroStart(t, 0) == Some(|a|);
    DropPrefix(a + Introduction, b);
  }

  lemma DropPrefix(x: string, y: string)
    ensures (x + y)[|x|..] == y
  {
  }

  /** Cleaning "alpha introduction beta" again starts by cutting it down to " beta". */
  lemma RecleaningExample()
    ensures TrimIntroduction("alpha " + Introduction + " beta") == " beta"
  {
    TrimAfterWord("alpha ", " beta");
  }

  /** The word written in lower case between `a` and `b` is an occurrence. */
  lemma IntroAtLower(a: string, b: string)
    ensures IntroAt(a + Introduction + b, |a|)
  {
    var t := a + Introduction + b;
    forall j | 0 <= j < |Introduction| ensures LowerChar(t[|a| + j]) == Introduction[j] {
      assert t[|a| + j] == Introduction[j];
    }
  }

  /** No occurrence starts at a character other than `i` or `I`. */
  lemma NotIntroAt(s: string, k: nat)
    requires k < |s| && s[k] != 'i' && s[k] != 'I'
    ensures !IntroAt(s, k)
  {
    var c := s[k + 0];
    if 'A' <= c <= 'Z' {
      assert LowerChar(c) as int == c as int - 'A' as int + 'a' as int;
    }
    assert LowerChar(c) != Introduction[0];
  }
}

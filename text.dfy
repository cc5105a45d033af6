/** Option and Result, used for the source's exceptions and missing values. */
module Outcomes {
  datatype Option<T> = None | Some(value: T)

  datatype Result<T, E> = Ok(value: T) | Err(error: E)
}

/**
 * Character classes and the few `str` methods (strip, split, join, lower)
 * that the pipeline relies on.
 *
 * `IsSpace` is the whitespace set of Python's `str.isspace`, which is also
 * what `\s` matches in a `re` pattern over `str`. Digits, letters and word
 * characters are the ASCII ones: `\d`, `\w` and `str.isalpha` are modelled
 * over ASCII only.
 */
module Text {

  predicate IsSpace(c: char) {
    || c == ' '
    || ('\t' <= c <= '\r')
    || ('\U{1c}' <= c <= '\U{1f}')
    || c == '\U{85}' || c == '\U{a0}' || c == '\U{1680}'
    || ('\U{2000}' <= c <= '\U{200a}')
    || c == '\U{2028}' || c == '\U{2029}' || c == '\U{202f}' || c == '\U{205f}' || c == '\U{3000}'
  }

  predicate IsDigit(c: char) { '0' <= c <= '9' }

  predicate IsLetter(c: char) { ('a' <= c <= 'z') || ('A' <= c <= 'Z') }

  predicate IsAlnum(c: char) { IsLetter(c) || IsDigit(c) }

  /** `\w` over ASCII. */
  predicate IsWordChar(c: char) { IsAlnum(c) || c == '_' }

  /** `[^\s\w]|_`: neither whitespace nor a letter or digit. */
  predicate IsPunct(c: char) { !IsSpace(c) && !IsAlnum(c) }

  predicate IsAscii(c: char) { c as int < 0x80 }

  function LowerChar(c: char): (l: char)
    ensures IsLetter(c) ==> 'a' <= l <= 'z'
    ensures !('A' <= c <= 'Z') ==> l == c
  {
    if 'A' <= c <= 'Z' then (c as int - 'A' as int + 'a' as int) as char else c
  }

  /** `str.lower()` over ASCII letters. */
  function Lower(s: string): (r: string)
    ensures |r| == |s|
    ensures forall j :: 0 <= j < |s| ==> r[j] == LowerChar(s[j])
  {
    if s == [] then [] else [LowerChar(s[0])] + Lower(s[1..])
  }

  /** `str.isalpha()` over ASCII: non-empty and letters only. */
  predicate IsAlpha(s: string) {
    |s| > 0 && forall j :: 0 <= j < |s| ==> IsLetter(s[j])
  }

  predicate NotSpace(c: char) { !IsSpace(c) }

  predicate NoSpace(s: string) {
    forall j :: 0 <= j < |s| ==> !IsSpace(s[j])
  }

  predicate StartsWith(s: string, prefix: string) {
    |prefix| <= |s| && s[..|prefix|] == prefix
  }

  predicate EndsWith(s: string, suffix: string) {
    |suffix| <= |s| && s[|s| - |suffix|..] == suffix
  }

  /** The number of leading characters of `s` that satisfy `p`. */
  function RunLength(s: string, p: char -> bool): (n: nat)
    ensures n <= |s|
    ensures forall j :: 0 <= j < n ==> p(s[j])
    ensures n < |s| ==> !p(s[n])
  {
    if s == [] || !p(s[0]) then 0 else 1 + RunLength(s[1..], p)
  }

  /** `str.lstrip()`. */
  function LStrip(s: string): (r: string)
    ensures |r| <= |s| && r == s[|s| - |r|..]
    ensures forall j :: 0 <= j < |s| - |r| ==> IsSpace(s[j])
    ensures r != [] ==> !IsSpace(r[0])
  {
    s[RunLength(s, IsSpace)..]
  }

  /** `str.rstrip()`. */
  function RStrip(s: string): (r: string)
    ensures |r| <= |s| && r == s[..|r|]
    ensures forall j :: |r| <= j < |s| ==> IsSpace(s[j])
    ensures r != [] ==> !IsSpace(r[|r| - 1])
  {
    if s == [] || !IsSpace(s[|s| - 1]) then s else RStrip(s[..|s| - 1])
  }

  /** The number of leading whitespace characters of `s`. */
  function LeadingSpaces(s: string): (n: nat)
    ensures n <= |s|
  {
    RunLength(s, IsSpace)
  }

  /** `str.strip()`: a slice of `s` with no whitespace at either end. */
  function Strip(s: string): (r: string)
    ensures LeadingSpaces(s) + |r| <= |s|
    ensures r == s[LeadingSpaces(s)..LeadingSpaces(s) + |r|]
    ensures r != [] ==> !IsSpace(r[0]) && !IsSpace(r[|r| - 1])
    ensures forall j :: 0 <= j < LeadingSpaces(s) || LeadingSpaces(s) + |r| <= j < |s| ==> IsSpace(s[j])
  {
    RStrip(LStrip(s))
  }

  /** `str.split()` with no separator: the maximal runs of non-whitespace. */
  function Split(s: string): (words: seq<string>)
    ensures forall k :: 0 <= k < |words| ==> words[k] != [] && NoSpace(words[k])
    decreases |s|
  {
    var t := LStrip(s);
    if t == [] then []
    else
      var n := RunLength(t, NotSpace);
      FirstWord(t);
      var w := t[..n];
      var rest := Split(t[n..]);
      ConsWords(w, rest);
      [w] + rest
  }

  /** A text that starts with a non-space starts with a word. */
  lemma FirstWord(t: string)
    requires t != [] && !IsSpace(t[0])
    ensures RunLength(t, NotSpace) >= 1
    ensures NoSpace(t[..RunLength(t, NotSpace)])
  {
    var n := RunLength(t, NotSpace);
    assert NotSpace(t[0]);
    forall j | 0 <= j < n ensures !IsSpace(t[..n][j]) {
      assert t[..n][j] == t[j] && NotSpace(t[j]);
    }
  }

  lemma ConsWords(w: string, rest: seq<string>)
    requires w != [] && NoSpace(w)
    requires forall k :: 0 <= k < |rest| ==> rest[k] != [] && NoSpace(rest[k])
    ensures forall k :: 0 <= k < |[w] + rest| ==> ([w] + rest)[k] != [] && NoSpace(([w] + rest)[k])
  {
    forall k | 0 < k <= |rest| ensures ([w] + rest)[k] == rest[k - 1] {
    }
  }

  /** `" ".join(words)`. */
  function Join(words: seq<string>): string {
    if words == [] then ""
    else if |words| == 1 then words[0]
    else words[0] + " " + Join(words[1..])
  }

  /**
   * Joining non-empty, whitespace-free words gives a text with no whitespace
   * at either end and whose only whitespace is single spaces between words.
   */
  predicate SingleSpaced(s: string) {
    && (s != [] ==> !IsSpace(s[0]) && !IsSpace(s[|s| - 1]))
    && forall j :: 0 <= j < |s| && IsSpace(s[j]) ==> s[j] == ' ' && 0 < j < |s| - 1 && !IsSpace(s[j + 1])
  }

  lemma {:induction false} JoinSingleSpaced(words: seq<string>)
    requires forall k :: 0 <= k < |words| ==> words[k] != [] && NoSpace(words[k])
    ensures SingleSpaced(Join(words))
    ensures forall c :: c in Join(words) ==> c == ' ' || exists k :: 0 <= k < |words| && c in words[k]
  {
    if |words| > 1 {
      var rest := Join(words[1..]);
      JoinSingleSpaced(words[1..]);
      var s := words[0] + " " + rest;
      assert s == Join(words);
      assert forall j :: 0 <= j < |words[0]| ==> s[j] == words[0][j];
      assert forall j :: |words[0]| < j < |s| ==> s[j] == rest[j - |words[0]| - 1];
      forall c | c in s
        ensures c == ' ' || exists k :: 0 <= k < |words| && c in words[k]
      {
        if c in rest && c != ' ' {
          var k :| 0 <= k < |words[1..]| && c in words[1..][k];
          assert c in words[k + 1];
        }
      }
    }
  }

  /** A run that stops where `p` first fails. */
  lemma {:induction false} RunLengthOfPrefix(w: string, t: string, p: char -> bool)
    requires forall j :: 0 <= j < |w| ==> p(w[j])
    requires t == [] || !p(t[0])
    ensures RunLength(w + t, p) == |w|
  {
    if w != [] {
      assert (w + t)[1..] == w[1..] + t;
      RunLengthOfPrefix(w[1..], t, p);
    }
  }

  lemma SplitAfterSpace(rest: string)
    ensures Split(" " + rest) == Split(rest)
  {
    var s := " " + rest;
    assert RunLength(s, IsSpace) == 1 + RunLength(rest, IsSpace) by {
      assert s[1..] == rest;
    }
    assert LStrip(s) == LStrip(rest);
  }

  lemma SplitWord(w: string, t: string)
    requires w != [] && NoSpace(w)
    requires t == [] || IsSpace(t[0])
    ensures Split(w + t) == [w] + Split(t)
  {
    var s := w + t;
    RunLengthOfPrefix([], s, IsSpace);
    assert LStrip(s) == s;
    RunLengthOfPrefix(w, t, NotSpace);
    assert s[..|w|] == w && s[|w|..] == t;
  }

  lemma SplitOne(w: string)
    requires w != [] && NoSpace(w)
    ensures Split(w) == [w]
  {
    assert w + [] == w;
    assert Split([]) == [] by {
      assert LStrip([]) == [];
    }
    SplitWord(w, []);
  }

  lemma JoinCons(words: seq<string>)
    requires |words| > 1
    ensures Join(words) == words[0] + (" " + Join(words[1..]))
  {
  }

  /** Splitting a word, a space and a rest gives the word and then the split rest. */
  lemma SplitJoinStep(w: string, rest: string)
    requires w != [] && NoSpace(w)
    ensures Split(w + (" " + rest)) == [w] + Split(rest)
  {
    SplitWord(w, " " + rest);
    SplitAfterSpace(rest);
  }

  /** Splitting the join of non-empty, whitespace-free words gives the words back. */
  lemma {:induction false} SplitJoin(words: seq<string>)
    requires forall k :: 0 <= k < |words| ==> words[k] != [] && NoSpace(words[k])
    ensures Split(Join(words)) == words
  {
    if |words| == 1 {
      SplitOne(words[0]);
    } else if |words| > 1 {
      var tail := words[1..];
      assert words == [words[0]] + tail;
      JoinCons(words);
      SplitJoinStep(words[0], Join(tail));
      SplitJoin(tail);
    }
  }
}

/**
 * `average_word_length` (pipeline/pdf2txt.py) and the test `fulltext`
 * applies to its result: a text passes when its length divided by one more
 * than its number of whitespace-separated words is at most 45. Text from
 * which an extractor lost the spaces between words scores high.
 */
module Quality {
  import opened Text

  /** The largest average word length `fulltext` accepts. */
  const MaxWordLength: int := 45

  /** `len(txt.split())`. */
  function WordCount(t: string): nat {
    |Split(t)|
  }

  /** `len(txt) / (len(txt.split()) + 1)`, in exact arithmetic. */
  function AverageWordLength(t: string): real {
    (|t| as real) / ((WordCount(t) + 1) as real)
  }

  /** The average times one more than the word count is the length. */
  lemma AverageTimesCount(t: string)
    ensures AverageWordLength(t) >= 0.0
    ensures AverageWordLength(t) * ((WordCount(t) + 1) as real) == |t| as real
  {
    Quotient(AverageWordLength(t), |t| as real, (WordCount(t) + 1) as real);
  }

  /** Step of AverageTimesCount: a quotient named by its value, so the division is not expanded again. */
  lemma Quotient(q: real, x: real, d: real)
    requires x >= 0.0 && d > 0.0 && q == x / d
    ensures q >= 0.0 && q * d == x
  {
    DivideThenMultiply(x, d);
  }

  /** Step of RatioAtMost and Quotient: dividing by a positive `d` and multiplying back gives `x`. */
  lemma DivideThenMultiply(x: real, d: real)
    requires x >= 0.0 && d > 0.0
    ensures x / d >= 0.0 && (x / d) * d == x
  {
  }

  /** Step of RatioAtMost: multiplying by a positive `d` keeps the order. */
  lemma ScaleMonotone(a: real, b: real, d: real)
    requires d > 0.0
    ensures a <= b <==> a * d <= b * d
  {
    if a <= b {
      assert (b - a) * d >= 0.0;
    } else {
      assert (a - b) * d > 0.0;
    }
  }

  lemma RatioAtMost(c: nat, n: nat, bound: int)
    ensures (c as real) / ((n + 1) as real) <= bound as real <==> c <= bound * (n + 1)
  {
    var d := (n + 1) as real;
    DivideThenMultiply(c as real, d);
    ScaleMonotone((c as real) / d, bound as real, d);
    assert (bound as real) * d == (bound * (n + 1)) as real;
  }

  /** `average_word_length(t) <= 45`, stated over integers. */
  predicate Acceptable(t: string) {
    |t| <= MaxWordLength * (WordCount(t) + 1)
  }

  /** The integer test is the same as comparing the average with 45. */
  lemma AcceptableIffAverage(t: string)
    ensures Acceptable(t) <==> AverageWordLength(t) <= MaxWordLength as real
  {
    RatioAtMost(|t|, WordCount(t), MaxWordLength);
  }

  /** The empty text passes. */
  lemma EmptyAcceptable()
    ensures Acceptable("")
  {
    assert Split("") == [];
  }

  /** A text with no whitespace is one word, and fails once it is longer than 90 characters. */
  lemma RunTogetherRejected(t: string)
    requires NoSpace(t) && |t| > 2 * MaxWordLength
    ensures WordCount(t) == 1
    ensures !Acceptable(t)
  {
    SplitOne(t);
  }

  function TotalLength(words: seq<string>): nat {
    if words == [] then 0 else |words[0]| + TotalLength(words[1..])
  }

  lemma {:induction false} JoinLength(words: seq<string>)
    ensures words != [] ==> |Join(words)| == TotalLength(words) + |words| - 1
  {
    if |words| > 1 {
      JoinLength(words[1..]);
    }
  }

  lemma {:induction false} TotalLengthBound(words: seq<string>)
    requires forall k :: 0 <= k < |words| ==> |words[k]| < MaxWordLength
    ensures TotalLength(words) <= (MaxWordLength - 1) * |words|
  {
    if words != [] {
      TotalLengthBound(words[1..]);
    }
  }

  /** Words of at most 44 characters joined by single spaces always pass. */
  lemma ShortWordsAccepted(words: seq<string>)
    requires forall k :: 0 <= k < |words| ==> words[k] != [] && NoSpace(words[k])
    requires forall k :: 0 <= k < |words| ==> |words[k]| < MaxWordLength
    ensures Acceptable(Join(words))
  {
    var t := Join(words);
    SplitJoin(words);
    assert WordCount(t) == |words|;
    if words != [] {
      JoinLength(words);
      TotalLengthBound(words);
      assert |t| <= (MaxWordLength - 1) * |words| + |words| - 1;
    }
  }
}

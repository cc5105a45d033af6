/**
 * `sorted_files` (pipeline/pdf2txt.py): the files a glob returns, ordered by
 * the key `[str(int(n)) for n in re.findall(r'\d+', fn)] + [fn]`.
 *
 * The numbers in the key are strings, so they are compared as text: "10"
 * sorts before "9". `NumericOrder` is the order the function's own
 * documentation describes, with the numbers compared as integers.
 */
module NaturalSort {
  import opened Text
  import opened Ordering

  predicate AllDigits(s: string) {
    forall j :: 0 <= j < |s| ==> IsDigit(s[j])
  }

  /** `re.findall(r'\d+', s)`: the maximal runs of digits, left to right. */
  function DigitRuns(s: string): (runs: seq<string>)
    ensures forall k :: 0 <= k < |runs| ==> runs[k] != [] && AllDigits(runs[k])
    decreases |s|
  {
    if s == [] then []
    else if IsDigit(s[0]) then
      var n := RunLength(s, IsDigit);
      [s[..n]] + DigitRuns(s[n..])
    else DigitRuns(s[1..])
  }

  function Pow10(n: nat): (p: nat)
    ensures p >= 1
  {
    if n == 0 then 1 else 10 * Pow10(n - 1)
  }

  /** `int(s)` for a string of ASCII digits. */
  function Value(s: string): nat
    requires AllDigits(s)
  {
    if s == [] then 0
    else
      assert IsDigit(s[0]) && AllDigits(s[1..]);
      DigitValue(s[0]) * Pow10(|s| - 1) + Value(s[1..])
  }

  /** The value of one ASCII digit. */
  function DigitValue(c: char): (d: nat)
    requires IsDigit(c)
    ensures d < 10
  {
    c as int - '0' as int
  }

  /** `str(int(run))`: the run without its leading zeros, "0" for a run of zeros. */
  function Canonical(run: string): (c: string)
    requires run != [] && AllDigits(run)
    ensures c != [] && AllDigits(c) && Value(c) == Value(run)
    ensures |c| > 1 ==> c[0] != '0'
    ensures |c| <= |run|
  {
    if |run| > 1 && run[0] == '0' then Canonical(run[1..]) else run
  }

  function CanonicalRuns(runs: seq<string>): (cs: seq<string>)
    requires forall k :: 0 <= k < |runs| ==> runs[k] != [] && AllDigits(runs[k])
    ensures |cs| == |runs|
    ensures forall k :: 0 <= k < |runs| ==> cs[k] == Canonical(runs[k])
  {
    if runs == [] then [] else [Canonical(runs[0])] + CanonicalRuns(runs[1..])
  }

  /** The sort key `[str(int(n)) for n in nums] + [fn]`. */
  function SortKey(fn: string): (key: seq<string>)
    ensures key != [] && key[|key| - 1] == fn
  {
    CanonicalRuns(DigitRuns(fn)) + [fn]
  }

  /** Python's `<` on the sort keys of two file names. */
  predicate KeyLess(a: string, b: string) {
    StrListLess(SortKey(a), SortKey(b))
  }

  lemma KeyLessIsOrder()
    ensures StrictTotalOrder(KeyLess)
  {
    StrListLessIsOrder();
    forall a: string, b: string | a != b ensures KeyLess(a, b) || KeyLess(b, a) {
      assert SortKey(a) != SortKey(b) by {
        assert SortKey(a)[|SortKey(a)| - 1] == a;
      }
    }
  }

  /** The order `sorted_files` returns: the files sorted by their keys. */
  function NaturalOrder(files: seq<string>): seq<string> {
    SortBy(files, KeyLess)
  }

  function Keys(files: seq<string>): (keys: seq<seq<string>>)
    ensures |keys| == |files|
    ensures forall k :: 0 <= k < |files| ==> keys[k] == SortKey(files[k])
  {
    if files == [] then [] else [SortKey(files[0])] + Keys(files[1..])
  }

  /** `f[-1]`; the keys built here are never empty. */
  function LastOf(key: seq<string>): string {
    if key == [] then "" else key[|key| - 1]
  }

  /** Every element of a permutation of the keys of `files` is the key of its own last element. */
  lemma KeysShape(keys: seq<seq<string>>, files: seq<string>)
    requires multiset(keys) == multiset(Keys(files))
    ensures forall k :: 0 <= k < |keys| ==> SortKey(LastOf(keys[k])) == keys[k]
  {
    forall k | 0 <= k < |keys| ensures SortKey(LastOf(keys[k])) == keys[k] {
      assert keys[k] in multiset(Keys(files));
      var i :| 0 <= i < |files| && Keys(files)[i] == keys[k];
    }
  }

  lemma LastsOfKeys(files: seq<string>)
    ensures Map(LastOf, Keys(files)) == files
  {
  }

  /** Sorting the keys of a permutation of `globbed` and keeping their last elements sorts `globbed` by key. */
  lemma SortedKeysLasts(files: seq<string>, globbed: seq<string>)
    requires multiset(files) == multiset(globbed)
    ensures Map(LastOf, SortBy(Keys(files), StrListLess)) == NaturalOrder(globbed)
  {
    var allfiles := SortBy(Keys(files), StrListLess);
    KeysShape(allfiles, files);
    var sorted := Map(LastOf, allfiles);
    MapPermutation(LastOf, allfiles, Keys(files));
    LastsOfKeys(files);
    StrListLessIsOrder();
    SortBySorted(Keys(files), StrListLess);
    assert SortedBy(sorted, KeyLess) by {
      forall i, j | 0 <= i < j < |sorted| ensures !KeyLess(sorted[j], sorted[i]) {
        assert SortKey(sorted[i]) == allfiles[i] && SortKey(sorted[j]) == allfiles[j];
      }
    }
    KeyLessIsOrder();
    SortBySorted(globbed, KeyLess);
    SortedUnique(sorted, NaturalOrder(globbed), KeyLess);
  }

  lemma KeysSnoc(files: seq<string>, i: nat)
    requires i < |files|
    ensures Keys(files[..i + 1]) == Keys(files[..i]) + [SortKey(files[i])]
  {
    var a := Keys(files[..i + 1]);
    var b := Keys(files[..i]) + [SortKey(files[i])];
    forall k | 0 <= k < |a| ensures a[k] == b[k] {
      if k < i {
        assert files[..i + 1][k] == files[..i][k];
      }
    }
  }

  /** The result of `sorted_files` is a permutation of the glob's result, sorted by key. */
  lemma NaturalOrderSorted(files: seq<string>)
    ensures multiset(NaturalOrder(files)) == multiset(files)
    ensures SortedBy(NaturalOrder(files), KeyLess)
  {
    KeyLessIsOrder();
    SortBySorted(files, KeyLess);
  }

  /**
   * `sorted_files(globber)` with the glob's result given: sort the paths,
   * build the key of each one, sort the keys and keep their last elements.
   */
  method SortedFiles(globbed: seq<string>) returns (sorted: seq<string>)
    ensures sorted == NaturalOrder(globbed)
    ensures multiset(sorted) == multiset(globbed)
    ensures SortedBy(sorted, KeyLess)
  {
    var files := SortBy(globbed, StrLess);
    var allfiles: seq<seq<string>> := [];
    for i := 0 to |files|
      invariant allfiles == Keys(files[..i])
    {
      KeysSnoc(files, i);
      allfiles := allfiles + [SortKey(files[i])];
    }
    assert files[..|files|] == files;
    allfiles := SortBy(allfiles, StrListLess);
    SortedKeysLasts(files, globbed);
    sorted := Map(LastOf, allfiles);
    NaturalOrderSorted(globbed);
  }

  predicate NoDigits(s: string) {
    forall j :: 0 <= j < |s| ==> !IsDigit(s[j])
  }

  lemma {:induction false} DigitRunsSkip(p: string, t: string)
    requires NoDigits(p)
    ensures DigitRuns(p + t) == DigitRuns(t)
  {
    if p != [] {
      var s := p + t;
      assert s[0] == p[0] && !IsDigit(s[0]);
      assert s[1..] == p[1..] + t;
      assert DigitRuns(s) == DigitRuns(s[1..]);
      DigitRunsSkip(p[1..], t);
    } else {
      assert p + t == t;
    }
  }

  lemma DigitRunsNone(q: string)
    requires NoDigits(q)
    ensures DigitRuns(q) == []
  {
    DigitRunsSkip(q, []);
    assert q + [] == q;
  }

  /** A name with one number in it has that number as its only digit run. */
  lemma DigitRunsSingle(p: string, d: string, q: string)
    requires NoDigits(p) && NoDigits(q)
    requires d != [] && AllDigits(d)
    requires q == [] || !IsDigit(q[0])
    ensures DigitRuns(p + d + q) == [d]
  {
    DigitRunsSkip(p, d + q);
    assert p + d + q == p + (d + q);
    RunLengthOfPrefix(d, q, IsDigit);
    assert (d + q)[..|d|] == d && (d + q)[|d|..] == q;
    DigitRunsNone(q);
  }

  /** The key of a name with one number in it. */
  lemma SortKeySingle(p: string, d: string, q: string)
    requires NoDigits(p) && NoDigits(q)
    requires d != [] && AllDigits(d)
    requires q == [] || !IsDigit(q[0])
    ensures SortKey(p + d + q) == [Canonical(d), p + d + q]
  {
    DigitRunsSingle(p, d, q);
  }

  /** The key of page `d`'s file, for a page number written without leading zeros. */
  lemma PageKey(d: string)
    requires d != [] && AllDigits(d) && (|d| == 1 || d[0] != '0')
    ensures SortKey("f" + d + ".pdf") == [d, "f" + d + ".pdf"]
  {
    assert NoDigits("f") && NoDigits(".pdf");
    SortKeySingle("f", d, ".pdf");
  }

  /**
   * As written, numbers in names are compared as strings: "f10.pdf" sorts
   * before "f9.pdf" and "f2.pdf", so pages 2, 9, 10 come out as 10, 2, 9.
   */
  lemma PageKeys()
    ensures SortKey("f2.pdf") == ["2", "f2.pdf"]
    ensures SortKey("f9.pdf") == ["9", "f9.pdf"]
    ensures SortKey("f10.pdf") == ["10", "f10.pdf"]
  {
    PageKey("2");
    assert "f" + "2" + ".pdf" == "f2.pdf";
    PageKey("9");
    assert "f" + "9" + ".pdf" == "f9.pdf";
    PageKey("10");
    assert "f" + "10" + ".pdf" == "f10.pdf";
  }

  lemma TenBeforeTwo()
    ensures KeyLess("f10.pdf", "f2.pdf")
  {
    PageKeys();
    assert StrLess("10", "2");
  }

  lemma TwoBeforeNine()
    ensures KeyLess("f2.pdf", "f9.pdf")
  {
    PageKeys();
    assert StrLess("2", "9");
  }

  /** Whatever order the glob lists pages 2, 9 and 10 in, they come out as 10, 2, 9. */
  lemma StringComparedNumbers(pages: seq<string>)
    requires multiset(pages) == multiset(["f10.pdf", "f2.pdf", "f9.pdf"])
    ensures NaturalOrder(pages) == ["f10.pdf", "f2.pdf", "f9.pdf"]
  {
    TenBeforeTwo();
    TwoBeforeNine();
    NaturalOrderOfThree(pages, "f10.pdf", "f2.pdf", "f9.pdf");
  }

  lemma NaturalOrderOfThree(files: seq<string>, a: string, b: string, c: string)
    requires KeyLess(a, b) && KeyLess(b, c)
    requires multiset(files) == multiset([a, b, c])
    ensures NaturalOrder(files) == [a, b, c]
  {
    KeyLessIsOrder();
    SortThree(files, a, b, c, KeyLess);
  }

  function Values(runs: seq<string>): (vs: seq<nat>)
    requires forall k :: 0 <= k < |runs| ==> AllDigits(runs[k])
    ensures |vs| == |runs|
    ensures forall k :: 0 <= k < |runs| ==> vs[k] == Value(runs[k])
  {
    if runs == [] then [] else [Value(runs[0])] + Values(runs[1..])
  }

  /** The integers written in a file name, left to right. */
  function Numbers(fn: string): seq<nat> {
    Values(DigitRuns(fn))
  }

  predicate NatLess(x: nat, y: nat) { x < y }

  /**
   * The order the documentation of `sorted_files` describes: by the integers
   * in the names, compared as integers, then by the name itself.
   */
  predicate NumericLess(a: string, b: string) {
    LexLess(Numbers(a), Numbers(b), NatLess) || (Numbers(a) == Numbers(b) && StrLess(a, b))
  }

  lemma NumericLessIsOrder()
    ensures StrictTotalOrder(NumericLess)
  {
    StrLessIsOrder();
    assert StrictTotalOrder(NatLess);
    forall a: string ensures !NumericLess(a, a) {
      LexIrreflexive(Numbers(a), NatLess);
    }
    forall a: string, b: string, c: string | NumericLess(a, b) && NumericLess(b, c)
      ensures NumericLess(a, c)
    {
      if LexLess(Numbers(a), Numbers(b), NatLess) && LexLess(Numbers(b), Numbers(c), NatLess) {
        LexTransitive(Numbers(a), Numbers(b), Numbers(c), NatLess);
      }
    }
    forall a: string, b: string | a != b ensures NumericLess(a, b) || NumericLess(b, a) {
      if Numbers(a) != Numbers(b) {
        LexTotal(Numbers(a), Numbers(b), NatLess);
      }
    }
  }

  /** `sorted_files` as its documentation describes it. */
  function NumericOrder(files: seq<string>): seq<string> {
    SortBy(files, NumericLess)
  }

  /**
   * The numeric order is a permutation of the files in which the integers of
   * an earlier name never compare above those of a later one.
   */
  lemma NumericOrderSorted(files: seq<string>)
    ensures multiset(NumericOrder(files)) == multiset(files)
    ensures forall i, j :: 0 <= i < j < |files| ==>
      !LexLess(Numbers(NumericOrder(files)[j]), Numbers(NumericOrder(files)[i]), NatLess)
  {
    NumericLessIsOrder();
    SortBySorted(files, NumericLess);
    assert |NumericOrder(files)| == |files| by {
      assert |multiset(NumericOrder(files))| == |multiset(files)|;
    }
  }

  lemma NumbersSingle(p: string, d: string, q: string)
    requires NoDigits(p) && NoDigits(q)
    requires d != [] && AllDigits(d)
    requires q == [] || !IsDigit(q[0])
    ensures Numbers(p + d + q) == [Value(d)]
  {
    DigitRunsSingle(p, d, q);
  }

  /** The numbers of a page file `f<d>.pdf`. */
  lemma PageNumber(d: string)
    requires d != [] && AllDigits(d)
    ensures Numbers("f" + d + ".pdf") == [Value(d)]
  {
    NumbersSingle("f", d, ".pdf");
  }

  lemma PageTwo()
    ensures Numbers("f2.pdf") == [2]
  {
    PageNumber("2");
    assert "f" + "2" + ".pdf" == "f2.pdf";
  }

  lemma PageNine()
    ensures Numbers("f9.pdf") == [9]
  {
    PageNumber("9");
    assert "f" + "9" + ".pdf" == "f9.pdf";
  }

  lemma PageTen()
    ensures Numbers("f10.pdf") == [10]
  {
    PageNumber("10");
    assert "f" + "10" + ".pdf" == "f10.pdf";
    ValueTen();
  }

  lemma ValueTen()
    ensures Value("10") == 10
  {
    assert "10"[1..] == "0";
    assert Value("0") == 0;
    assert Pow10(1) == 10;
  }

  lemma PageNumbers()
    ensures Numbers("f2.pdf") == [2] && Numbers("f9.pdf") == [9] && Numbers("f10.pdf") == [10]
  {
    PageTwo();
    PageNine();
    PageTen();
  }

  /** Under the documented order, pages 2, 9 and 10 come out as 2, 9, 10 whatever order the glob lists them in. */
  lemma NumericOrderExample(pages: seq<string>)
    requires multiset(pages) == multiset(["f2.pdf", "f9.pdf", "f10.pdf"])
    ensures NumericOrder(pages) == ["f2.pdf", "f9.pdf", "f10.pdf"]
  {
    assert NumericLess("f2.pdf", "f9.pdf") && NumericLess("f9.pdf", "f10.pdf") by {
      PageNumbers();
    }
    NumericOrderOfThree(pages, "f2.pdf", "f9.pdf", "f10.pdf");
  }

  lemma NumericOrderOfThree(files: seq<string>, a: string, b: string, c: string)
    requires NumericLess(a, b) && NumericLess(b, c)
    requires multiset(files) == multiset([a, b, c])
    ensures NumericOrder(files) == [a, b, c]
  {
    NumericLessIsOrder();
    SortThree(files, a, b, c, NumericLess);
  }
}

/**
 * The orders Python uses when it sorts: `<` on `str` (code point by code
 * point, a proper prefix first) and `<` on lists (element by element), both
 * instances of one lexicographic order; and `sorted`, modelled as an
 * insertion sort whose result is shown to be the only sorted permutation.
 */
module Ordering {

  ghost predicate Irreflexive<T(!new)>(lt: (T, T) -> bool) {
    forall a :: !lt(a, a)
  }

  ghost predicate Transitive<T(!new)>(lt: (T, T) -> bool) {
    forall a, b, c :: lt(a, b) && lt(b, c) ==> lt(a, c)
  }

  ghost predicate Total<T(!new)>(lt: (T, T) -> bool) {
    forall a, b :: a != b ==> lt(a, b) || lt(b, a)
  }

  ghost predicate StrictTotalOrder<T(!new)>(lt: (T, T) -> bool) {
    Irreflexive(lt) && Transitive(lt) && Total(lt)
  }

  /** Python's comparison of two sequences: the first differing element decides; a proper prefix is smaller. */
  predicate LexLess<T(==)>(a: seq<T>, b: seq<T>, lt: (T, T) -> bool) {
    if a == [] then b != []
    else if b == [] then false
    else lt(a[0], b[0]) || (a[0] == b[0] && LexLess(a[1..], b[1..], lt))
  }

  lemma {:induction false} LexIrreflexive<T(!new)>(a: seq<T>, lt: (T, T) -> bool)
    requires Irreflexive(lt)
    ensures !LexLess(a, a, lt)
  {
    if a != [] {
      LexIrreflexive(a[1..], lt);
    }
  }

  lemma {:induction false} LexTransitive<T(!new)>(a: seq<T>, b: seq<T>, c: seq<T>, lt: (T, T) -> bool)
    requires StrictTotalOrder(lt)
    requires LexLess(a, b, lt) && LexLess(b, c, lt)
    ensures LexLess(a, c, lt)
  {
    if a != [] && b != [] && c != [] && a[0] == b[0] && b[0] == c[0] {
      LexTransitive(a[1..], b[1..], c[1..], lt);
    }
  }

  lemma {:induction false} LexTotal<T(!new)>(a: seq<T>, b: seq<T>, lt: (T, T) -> bool)
    requires Total(lt)
    requires a != b
    ensures LexLess(a, b, lt) || LexLess(b, a, lt)
  {
    if a != [] && b != [] && a[0] == b[0] {
      assert a == [a[0]] + a[1..] && b == [b[0]] + b[1..];
      LexTotal(a[1..], b[1..], lt);
    }
  }

  function CharLess(x: char, y: char): bool {
    x < y
  }

  /** Python's `<` on `str`. */
  predicate StrLess(a: string, b: string) {
    LexLess(a, b, CharLess)
  }

  lemma StrLessIsOrder()
    ensures StrictTotalOrder(StrLess)
  {
    assert StrictTotalOrder(CharLess);
    forall a: string ensures !StrLess(a, a) {
      LexIrreflexive(a, CharLess);
    }
    forall a: string, b: string, c: string | StrLess(a, b) && StrLess(b, c) ensures StrLess(a, c) {
      LexTransitive(a, b, c, CharLess);
    }
    forall a: string, b: string | a != b ensures StrLess(a, b) || StrLess(b, a) {
      LexTotal(a, b, CharLess);
    }
  }

  /** Python's `<` on lists of `str`. */
  predicate StrListLess(a: seq<string>, b: seq<string>) {
    LexLess(a, b, StrLess)
  }

  lemma StrListLessIsOrder()
    ensures StrictTotalOrder(StrListLess)
  {
    StrLessIsOrder();
    forall a: seq<string> ensures !StrListLess(a, a) {
      LexIrreflexive(a, StrLess);
    }
    forall a: seq<string>, b: seq<string>, c: seq<string> | StrListLess(a, b) && StrListLess(b, c)
      ensures StrListLess(a, c)
    {
      LexTransitive(a, b, c, StrLess);
    }
    forall a: seq<string>, b: seq<string> | a != b ensures StrListLess(a, b) || StrListLess(b, a) {
      LexTotal(a, b, StrLess);
    }
  }

  ghost predicate SortedBy<T>(s: seq<T>, lt: (T, T) -> bool) {
    forall i, j :: 0 <= i < j < |s| ==> !lt(s[j], s[i])
  }

  /** Insert `x` before the first element that is not smaller than it. */
  function Insert<T>(x: T, s: seq<T>, lt: (T, T) -> bool): (r: seq<T>)
    ensures |r| == |s| + 1
    ensures multiset(r) == multiset(s) + multiset{x}
  {
    if s == [] || !lt(s[0], x) then [x] + s
    else
      assert s == [s[0]] + s[1..];
      [s[0]] + Insert(x, s[1..], lt)
  }

  /** `sorted(s)` under the order `lt`. */
  function SortBy<T>(s: seq<T>, lt: (T, T) -> bool): (r: seq<T>)
    ensures multiset(r) == multiset(s)
  {
    if s == [] then []
    else
      assert s == [s[0]] + s[1..];
      Insert(s[0], SortBy(s[1..], lt), lt)
  }

  lemma {:induction false} InsertSorted<T(!new)>(x: T, s: seq<T>, lt: (T, T) -> bool)
    requires StrictTotalOrder(lt)
    requires SortedBy(s, lt)
    ensures SortedBy(Insert(x, s, lt), lt)
  {
    var r := Insert(x, s, lt);
    if s == [] || !lt(s[0], x) {
      assert r == [x] + s;
      forall j | 0 <= j < |s| ensures !lt(s[j], x) {
        if j > 0 && s[j] != s[0] {
          assert lt(s[0], s[j]);
        }
      }
    } else {
      var tail := Insert(x, s[1..], lt);
      assert SortedBy(s[1..], lt);
      InsertSorted(x, s[1..], lt);
      assert r == [s[0]] + tail;
      forall j | 0 <= j < |tail| ensures !lt(tail[j], s[0]) {
        assert tail[j] in multiset(tail);
        if tail[j] != x {
          assert tail[j] in multiset(s[1..]);
          var k :| 0 <= k < |s[1..]| && s[1..][k] == tail[j];
          assert s[k + 1] == tail[j];
        }
      }
    }
  }

  lemma {:induction false} SortBySorted<T(!new)>(s: seq<T>, lt: (T, T) -> bool)
    requires StrictTotalOrder(lt)
    ensures SortedBy(SortBy(s, lt), lt)
  {
    if s != [] {
      SortBySorted(s[1..], lt);
      InsertSorted(s[0], SortBy(s[1..], lt), lt);
    }
  }

  lemma TailMultiset<T>(a: seq<T>)
    requires a != []
    ensures multiset(a[1..]) == multiset(a) - multiset{a[0]}
  {
    assert a == [a[0]] + a[1..];
    assert multiset(a) == multiset{a[0]} + multiset(a[1..]);
  }

  lemma RemoveMultiset<T>(b: seq<T>, i: nat)
    requires i < |b|
    ensures multiset(b) == multiset(b[..i] + b[i + 1..]) + multiset{b[i]}
    ensures multiset(b[..i] + b[i + 1..]) == multiset(b) - multiset{b[i]}
  {
    assert b == b[..i] + [b[i]] + b[i + 1..];
    assert multiset(b) == multiset(b[..i]) + multiset{b[i]} + multiset(b[i + 1..]);
  }

  /** `[f(x) for x in s]`. */
  function Map<A, B>(f: A -> B, s: seq<A>): (r: seq<B>)
    ensures |r| == |s|
    ensures forall k :: 0 <= k < |s| ==> r[k] == f(s[k])
  {
    if s == [] then [] else [f(s[0])] + Map(f, s[1..])
  }

  lemma MapRemove<A, B>(f: A -> B, b: seq<A>, i: nat)
    requires i < |b|
    ensures multiset(Map(f, b)) == multiset(Map(f, b[..i] + b[i + 1..])) + multiset{f(b[i])}
  {
    var m := Map(f, b);
    var rest := b[..i] + b[i + 1..];
    var mr := Map(f, rest);
    assert |mr| == |m[..i] + m[i + 1..]|;
    forall k | 0 <= k < |mr| ensures mr[k] == (m[..i] + m[i + 1..])[k] {
      if k < i {
        assert rest[k] == b[k];
      } else {
        assert rest[k] == b[k + 1];
      }
    }
    assert mr == m[..i] + m[i + 1..];
    RemoveMultiset(m, i);
  }

  /** The head of a sequence occurs in any permutation of it; removing it there leaves a permutation of the tail. */
  lemma PermutationHead<T>(a: seq<T>, b: seq<T>) returns (i: nat)
    requires a != [] && multiset(a) == multiset(b)
    ensures i < |b| && b[i] == a[0]
    ensures multiset(a[1..]) == multiset(b[..i] + b[i + 1..])
  {
    assert a[0] in multiset(b);
    i :| 0 <= i < |b| && b[i] == a[0];
    RemoveMultiset(b, i);
    TailMultiset(a);
  }

  lemma MapHead<A, B>(f: A -> B, a: seq<A>)
    requires a != []
    ensures multiset(Map(f, a)) == multiset(Map(f, a[1..])) + multiset{f(a[0])}
  {
    assert Map(f, a) == [f(a[0])] + Map(f, a[1..]);
  }

  /** Mapping a function over two permutations of each other gives permutations of each other. */
  lemma {:induction false} MapPermutation<A, B>(f: A -> B, a: seq<A>, b: seq<A>)
    requires multiset(a) == multiset(b)
    ensures multiset(Map(f, a)) == multiset(Map(f, b))
    decreases |a|
  {
    if a == [] {
      assert |b| == |multiset(b)| == 0;
    } else {
      var i := PermutationHead(a, b);
      MapPermutation(f, a[1..], b[..i] + b[i + 1..]);
      MapRemove(f, b, i);
      MapHead(f, a);
    }
  }

  /** Two sorted permutations of each other start with the same element. */
  lemma SortedHeads<T(!new)>(a: seq<T>, b: seq<T>, lt: (T, T) -> bool)
    requires StrictTotalOrder(lt)
    requires SortedBy(a, lt) && SortedBy(b, lt)
    requires multiset(a) == multiset(b) && a != []
    ensures b != [] && a[0] == b[0]
  {
    assert a[0] in multiset(b);
    var i :| 0 <= i < |b| && b[i] == a[0];
    assert b[0] in multiset(a);
    var k :| 0 <= k < |a| && a[k] == b[0];
    assert !lt(a[0], b[0]) by {
      if i > 0 {
        assert !lt(b[i], b[0]);
      }
    }
    assert !lt(b[0], a[0]) by {
      if k > 0 {
        assert !lt(a[k], a[0]);
      }
    }
  }

  /** `SortBy` returns the one sorted permutation. */
  lemma SortByUnique<T(!new)>(s: seq<T>, expected: seq<T>, lt: (T, T) -> bool)
    requires StrictTotalOrder(lt)
    requires SortedBy(expected, lt) && multiset(expected) == multiset(s)
    ensures SortBy(s, lt) == expected
  {
    SortBySorted(s, lt);
    SortedUnique(SortBy(s, lt), expected, lt);
  }

  /** Sorting three distinct elements. */
  lemma SortThree<T(!new)>(s: seq<T>, a: T, b: T, c: T, lt: (T, T) -> bool)
    requires StrictTotalOrder(lt)
    requires lt(a, b) && lt(b, c)
    requires multiset(s) == multiset([a, b, c])
    ensures SortBy(s, lt) == [a, b, c]
  {
    assert lt(a, c);
    SortByUnique(s, [a, b, c], lt);
  }

  /** Under a strict total order there is only one sorted permutation of a sequence. */
  lemma {:induction false} SortedUnique<T(!new)>(a: seq<T>, b: seq<T>, lt: (T, T) -> bool)
    requires StrictTotalOrder(lt)
    requires SortedBy(a, lt) && SortedBy(b, lt)
    requires multiset(a) == multiset(b)
    ensures a == b
  {
    if a == [] {
      assert |b| == |multiset(b)| == 0;
    } else {
      SortedHeads(a, b, lt);
      TailMultiset(a);
      TailMultiset(b);
      SortedTail(a, lt);
      SortedTail(b, lt);
      SortedUnique(a[1..], b[1..], lt);
      SameHeadAndTail(a, b);
    }
  }

  lemma SortedTail<T>(a: seq<T>, lt: (T, T) -> bool)
    requires a != [] && SortedBy(a, lt)
    ensures SortedBy(a[1..], lt)
  {
    forall i, j | 0 <= i < j < |a[1..]| ensures !lt(a[1..][j], a[1..][i]) {
      assert a[1..][j] == a[j + 1] && a[1..][i] == a[i + 1];
    }
  }

  lemma SameHeadAndTail<T>(a: seq<T>, b: seq<T>)
    requires a != [] && b != [] && a[0] == b[0] && a[1..] == b[1..]
    ensures a == b
  {
    assert a == [a[0]] + a[1..] && b == [b[0]] + b[1..];
  }
}

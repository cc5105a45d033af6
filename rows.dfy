/**
 * The row operations of the pandas frames in datasources/arxiv.py, over
 * sequences of records: a boolean-mask selection, lookup of the first row
 * with a given key, and `drop_duplicates(subset=...)`, which keeps the first
 * row of each key.
 */
module Rows {
  import opened Outcomes
  import opened Ordering

  /** `a` is `b` with some rows left out, the others in their order. */
  predicate IsSubsequence<T(==)>(a: seq<T>, b: seq<T>)
    decreases |b|
  {
    if a == [] then true
    else if b == [] then false
    else (a[0] == b[0] && IsSubsequence(a[1..], b[1..])) || IsSubsequence(a, b[1..])
  }

  lemma {:induction false} SubsequenceMembers<T>(a: seq<T>, b: seq<T>)
    requires IsSubsequence(a, b)
    ensures forall x :: x in a ==> x in b
    decreases |b|
  {
    if a != [] {
      if a[0] == b[0] && IsSubsequence(a[1..], b[1..]) {
        SubsequenceMembers(a[1..], b[1..]);
        assert a == [a[0]] + a[1..];
      } else {
        SubsequenceMembers(a, b[1..]);
      }
    }
  }

  lemma {:induction false} SubsequenceRefl<T>(a: seq<T>)
    ensures IsSubsequence(a, a)
  {
    if a != [] {
      SubsequenceRefl(a[1..]);
    }
  }

  /** `df[mask]`: the rows that satisfy `f`, in their order. */
  function Filter<T>(s: seq<T>, f: T -> bool): (r: seq<T>)
    ensures |r| <= |s|
    ensures forall k :: 0 <= k < |r| ==> f(r[k]) && r[k] in s
  {
    if s == [] then []
    else if f(s[0]) then [s[0]] + Filter(s[1..], f)
    else Filter(s[1..], f)
  }

  /** A selection keeps exactly the rows that satisfy the mask, in their order. */
  lemma {:induction false} FilterSelects<T>(s: seq<T>, f: T -> bool)
    ensures forall x :: x in Filter(s, f) <==> x in s && f(x)
    ensures IsSubsequence(Filter(s, f), s)
  {
    if s != [] {
      FilterSelects(s[1..], f);
      assert s == [s[0]] + s[1..];
    }
  }

  /** No two rows share a key. */
  ghost predicate UniqueKeys<T>(rows: seq<T>, key: T -> string) {
    forall i, j :: 0 <= i < j < |rows| ==> key(rows[i]) != key(rows[j])
  }

  /** The first row whose key is `k`. */
  function Find<T>(rows: seq<T>, key: T -> string, k: string): (r: Option<T>)
    ensures r.Some? ==> r.value in rows && key(r.value) == k
    ensures r.None? <==> forall i :: 0 <= i < |rows| ==> key(rows[i]) != k
  {
    if rows == [] then None
    else if key(rows[0]) == k then Some(rows[0])
    else
      var r := Find(rows[1..], key, k);
      assert forall i :: 1 <= i < |rows| ==> rows[i] == rows[1..][i - 1];
      r
  }

  /** Lookup in two frames one after the other. */
  lemma {:induction false} FindAppend<T>(a: seq<T>, b: seq<T>, key: T -> string, k: string)
    ensures Find(a + b, key, k) == if Find(a, key, k).Some? then Find(a, key, k) else Find(b, key, k)
  {
    if a == [] {
      assert a + b == b;
    } else {
      assert (a + b)[0] == a[0];
      if key(a[0]) != k {
        assert (a + b)[1..] == a[1..] + b;
        FindAppend(a[1..], b, key, k);
      }
    }
  }

  /** With unique keys, the row found for a key is the row at the position of that key. */
  lemma FindUnique<T>(rows: seq<T>, key: T -> string, i: nat)
    requires UniqueKeys(rows, key) && i < |rows|
    ensures Find(rows, key, key(rows[i])) == Some(rows[i])
  {
    var k := key(rows[i]);
    if key(rows[0]) != k {
      assert UniqueKeys(rows[1..], key);
      FindUnique(rows[1..], key, i - 1);
    }
  }

  /** `drop_duplicates` scanning the rows with the keys in `seen` already taken. */
  function Dedup<T>(rows: seq<T>, key: T -> string, seen: set<string>): (r: seq<T>)
    ensures forall k :: 0 <= k < |r| ==> key(r[k]) !in seen
  {
    if rows == [] then []
    else if key(rows[0]) in seen then Dedup(rows[1..], key, seen)
    else [rows[0]] + Dedup(rows[1..], key, seen + {key(rows[0])})
  }

  /** `df.drop_duplicates(subset=key)`, keeping the first row of each key. */
  function DropDuplicates<T>(rows: seq<T>, key: T -> string): seq<T> {
    Dedup(rows, key, {})
  }

  lemma {:induction false} DedupUnique<T>(rows: seq<T>, key: T -> string, seen: set<string>)
    ensures UniqueKeys(Dedup(rows, key, seen), key)
  {
    if rows != [] {
      var k0 := key(rows[0]);
      if k0 in seen {
        DedupUnique(rows[1..], key, seen);
      } else {
        DedupUnique(rows[1..], key, seen + {k0});
      }
    }
  }

  lemma {:induction false} DedupSubsequence<T>(rows: seq<T>, key: T -> string, seen: set<string>)
    ensures IsSubsequence(Dedup(rows, key, seen), rows)
  {
    if rows != [] {
      var k0 := key(rows[0]);
      if k0 in seen {
        DedupSubsequence(rows[1..], key, seen);
        var r := Dedup(rows[1..], key, seen);
        assert r == [] || IsSubsequence(r, rows[1..]);
      } else {
        DedupSubsequence(rows[1..], key, seen + {k0});
      }
    }
  }

  lemma {:induction false} DedupFind<T>(rows: seq<T>, key: T -> string, seen: set<string>, k: string)
    requires k !in seen
    ensures Find(Dedup(rows, key, seen), key, k) == Find(rows, key, k)
  {
    if rows != [] {
      var k0 := key(rows[0]);
      if k0 in seen {
        DedupFind(rows[1..], key, seen, k);
      } else if k0 != k {
        DedupFind(rows[1..], key, seen + {k0}, k);
        var r := Dedup(rows, key, seen);
        assert r[1..] == Dedup(rows[1..], key, seen + {k0});
      }
    }
  }

  /**
   * After `drop_duplicates` the keys are unique, the rows kept are in their
   * original order, and for every key the row kept is the first row that had
   * it (so a key is present afterwards exactly when it was before).
   */
  lemma DropDuplicatesKeepsFirst<T>(rows: seq<T>, key: T -> string)
    ensures UniqueKeys(DropDuplicates(rows, key), key)
    ensures IsSubsequence(DropDuplicates(rows, key), rows)
    ensures forall k :: Find(DropDuplicates(rows, key), key, k) == Find(rows, key, k)
  {
    DedupUnique(rows, key, {});
    DedupSubsequence(rows, key, {});
    forall k ensures Find(DropDuplicates(rows, key), key, k) == Find(rows, key, k) {
      DedupFind(rows, key, {}, k);
    }
  }

  /** Mapping a function that keeps the key commutes with lookup. */
  lemma {:induction false} FindMap<T>(f: T -> T, rows: seq<T>, key: T -> string, k: string)
    requires forall x :: key(f(x)) == key(x)
    ensures Find(Map(f, rows), key, k) == if Find(rows, key, k).Some? then Some(f(Find(rows, key, k).value)) else None
  {
    if rows != [] && key(rows[0]) != k {
      FindMap(f, rows[1..], key, k);
      assert Map(f, rows)[1..] == Map(f, rows[1..]);
    }
  }

  lemma MapUniqueKeys<T>(f: T -> T, rows: seq<T>, key: T -> string)
    requires forall x :: key(f(x)) == key(x)
    requires UniqueKeys(rows, key)
    ensures UniqueKeys(Map(f, rows), key)
  {
  }
}

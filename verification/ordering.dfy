/**
 * The two orderings the pipeline relies on: `groupby` emits its groups in
 * ascending key order (one group per distinct key), and `nsmallest(keep='first')`
 * returns rows in ascending order of a numeric column, ties in table order.
 */
module Ordering {
  import opened Tables

  /** `lt` is a strict total order: irreflexive, transitive and connected. */
  ghost predicate StrictTotalOrder<K(!new)>(lt: (K, K) -> bool)
  {
    && (forall x :: !lt(x, x))
    && (forall x, y, z :: lt(x, y) && lt(y, z) ==> lt(x, z))
    && (forall x, y :: x != y ==> lt(x, y) || lt(y, x))
  }

  /** Every element of `s` is strictly below every later one. */
  ghost predicate Ascending<K>(s: seq<K>, lt: (K, K) -> bool)
  {
    forall i, j :: 0 <= i < j < |s| ==> lt(s[i], s[j])
  }

  // ---------------------------------------------------------------------------
  // Group keys in `groupby` order
  // ---------------------------------------------------------------------------

  /** Inserts `x` into the ascending, duplicate-free `s`, unless it is there already. */
  function InsertKey<K(==,!new)>(x: K, s: seq<K>, lt: (K, K) -> bool): (r: seq<K>)
    requires StrictTotalOrder(lt) && Ascending(s, lt)
    ensures Ascending(r, lt)
    ensures forall y :: y in r <==> y == x || y in s
    decreases |s|
  {
    if |s| == 0 then [x]
    else if x == s[0] then s
    else if lt(x, s[0]) then
      assert forall j :: 0 <= j < |s| ==> lt(x, s[j]) by {
        forall j | 0 <= j < |s| ensures lt(x, s[j]) {
          if j > 0 {
            assert lt(s[0], s[j]);
          }
        }
      }
      [x] + s
    else
      var rest := InsertKey(x, s[1..], lt);
      assert forall y :: y in rest ==> lt(s[0], y) by {
        forall y | y in rest ensures lt(s[0], y) {
          if y != x {
            var j :| 1 <= j < |s| && s[j] == y;
          }
        }
      }
      [s[0]] + rest
  }

  /** The distinct elements of `s` in ascending order: the order of `groupby` keys. */
  function SortedKeys<K(==,!new)>(s: seq<K>, lt: (K, K) -> bool): (r: seq<K>)
    requires StrictTotalOrder(lt)
    ensures Ascending(r, lt)
    ensures forall y :: y in r <==> y in s
    decreases |s|
  {
    if |s| == 0 then []
    else
      InitLast(s);
      InsertKey(Last(s), SortedKeys(Init(s), lt), lt)
  }

  /**
   * An ascending sequence is determined by its elements: any two ascending
   * sequences listing the same keys are equal, so "one entry per distinct key,
   * ascending" pins down `SortedKeys` completely.
   */
  lemma {:induction false} AscendingUnique<K(!new)>(a: seq<K>, b: seq<K>, lt: (K, K) -> bool)
    requires StrictTotalOrder(lt)
    requires Ascending(a, lt) && Ascending(b, lt)
    requires forall y :: y in a <==> y in b
    ensures a == b
    decreases |a|
  {
    if |a| > 0 {
      assert a[0] in b;
      assert b[0] in a;
      var i :| 0 <= i < |b| && b[i] == a[0];
      var k :| 0 <= k < |a| && a[k] == b[0];
      assert a[0] == b[0];
      forall y ensures y in a[1..] <==> y in b[1..] {
        if y in a[1..] {
          var j :| 1 <= j < |a| && a[j] == y;
          assert lt(a[0], y);
          assert y in b;
        }
        if y in b[1..] {
          var j :| 1 <= j < |b| && b[j] == y;
          assert lt(b[0], y);
          assert y in a;
        }
      }
      AscendingUnique(a[1..], b[1..], lt);
      assert a == [a[0]] + a[1..];
      assert b == [b[0]] + b[1..];
    }
  }

  // ---------------------------------------------------------------------------
  // Concrete key orders
  // ---------------------------------------------------------------------------

  /** Python's `<` on strings: lexicographic by code point, a proper prefix first. */
  predicate StrLt(a: string, b: string)
    decreases |a|
  {
    |b| > 0 && (|a| == 0 || a[0] < b[0] || (a[0] == b[0] && StrLt(a[1..], b[1..])))
  }

  lemma {:induction false} StrLtIrreflexive(a: string)
    ensures !StrLt(a, a)
    decreases |a|
  {
    if |a| > 0 {
      StrLtIrreflexive(a[1..]);
    }
  }

  lemma {:induction false} StrLtTransitive(a: string, b: string, c: string)
    requires StrLt(a, b) && StrLt(b, c)
    ensures StrLt(a, c)
    decreases |a|
  {
    if |a| > 0 && a[0] == b[0] && b[0] == c[0] {
      StrLtTransitive(a[1..], b[1..], c[1..]);
    }
  }

  lemma {:induction false} StrLtConnected(a: string, b: string)
    requires a != b
    ensures StrLt(a, b) || StrLt(b, a)
    decreases |a|
  {
    if |a| > 0 && |b| > 0 && a[0] == b[0] {
      assert a == [a[0]] + a[1..];
      assert b == [b[0]] + b[1..];
      StrLtConnected(a[1..], b[1..]);
    }
  }

  /** Python's string comparison is a strict total order. */
  lemma StrLtIsStrictTotal()
    ensures StrictTotalOrder(StrLt)
  {
    forall a ensures !StrLt(a, a) {
      StrLtIrreflexive(a);
    }
    forall a, b, c | StrLt(a, b) && StrLt(b, c) ensures StrLt(a, c) {
      StrLtTransitive(a, b, c);
    }
    forall a, b | a != b ensures StrLt(a, b) || StrLt(b, a) {
      StrLtConnected(a, b);
    }
  }

  predicate IntLt(a: int, b: int)
  {
    a < b
  }

  lemma IntLtIsStrictTotal()
    ensures StrictTotalOrder(IntLt)
  {
  }

  // ---------------------------------------------------------------------------
  // Stable ordering by a numeric column: `nsmallest(n, column, keep='first')`
  // ---------------------------------------------------------------------------

  /** `key` does not decrease along `s`. */
  ghost predicate SortedBy<T>(s: seq<T>, key: T -> real)
  {
    forall i, j :: 0 <= i < j < |s| ==> key(s[i]) <= key(s[j])
  }

  /** Inserts `x` after every element whose key is at most `key(x)`. */
  function InsertStable<T(==)>(x: T, s: seq<T>, key: T -> real): (r: seq<T>)
    requires SortedBy(s, key)
    ensures SortedBy(r, key)
    ensures multiset(r) == multiset(s) + multiset{x}
    ensures |r| == |s| + 1
    decreases |s|
  {
    if |s| == 0 || key(Last(s)) <= key(x) then
      SortedSnoc(s, x, key);
      s + [x]
    else
      InitLast(s);
      var front := InsertStable(x, Init(s), key);
      InsertStableBound(x, s, front, key);
      SortedSnoc(front, Last(s), key);
      front + [Last(s)]
  }

  lemma {:induction false} SortedSnoc<T>(s: seq<T>, y: T, key: T -> real)
    requires SortedBy(s, key)
    requires forall j :: 0 <= j < |s| ==> key(s[j]) <= key(y)
    ensures SortedBy(s + [y], key)
  {
  }

  lemma {:induction false} InsertStableBound<T>(x: T, s: seq<T>, front: seq<T>, key: T -> real)
    requires |s| > 0 && SortedBy(s, key) && key(x) < key(Last(s))
    requires multiset(front) == multiset(Init(s)) + multiset{x}
    ensures forall j :: 0 <= j < |front| ==> key(front[j]) <= key(Last(s))
  {
    forall j | 0 <= j < |front| ensures key(front[j]) <= key(Last(s)) {
      var y := front[j];
      assert y in multiset(front);
      if y != x {
        assert y in multiset(Init(s));
        assert y in Init(s);
        var i :| 0 <= i < |s| - 1 && Init(s)[i] == y;
        assert s[i] == y;
      }
    }
  }

  /** Insertion sort that keeps rows with equal keys in their input order. */
  function StableSort<T(==)>(s: seq<T>, key: T -> real): (r: seq<T>)
    ensures SortedBy(r, key)
    ensures multiset(r) == multiset(s)
    ensures |r| == |s|
    decreases |s|
  {
    if |s| == 0 then []
    else
      InitLast(s);
      InsertStable(Last(s), StableSort(Init(s), key), key)
  }

  /** The predicate "the key of this row is `d`", as one named value. */
  function KeyIs<T>(key: T -> real, d: real): T -> bool
  {
    x => key(x) == d
  }

  /** The rows of `s` whose key is `d`, in their order in `s`. */
  function Ties<T>(s: seq<T>, key: T -> real, d: real): seq<T>
  {
    Filter(s, KeyIs(key, d))
  }

  lemma {:induction false} InsertStableTies<T>(x: T, s: seq<T>, key: T -> real, d: real)
    requires SortedBy(s, key)
    ensures Ties(InsertStable(x, s, key), key, d) ==
              Ties(s, key, d) + (if key(x) == d then [x] else [])
    decreases |s|
  {
    if |s| == 0 || key(Last(s)) <= key(x) {
      assert InsertStable(x, s, key) == s + [x];
      FilterSnoc(s, x, KeyIs(key, d));
    } else {
      InitLast(s);
      InsertStableTies(x, Init(s), key, d);
      InsertStableTiesBehind(x, s, key, d);
    }
  }

  /** The step of `InsertStableTies` where `x` goes in front of the last row. */
  lemma {:induction false} InsertStableTiesBehind<T>(x: T, s: seq<T>, key: T -> real, d: real)
    requires |s| > 0 && SortedBy(s, key) && key(x) < key(Last(s))
    requires Ties(InsertStable(x, Init(s), key), key, d) ==
               Ties(Init(s), key, d) + (if key(x) == d then [x] else [])
    ensures Ties(InsertStable(x, s, key), key, d) ==
              Ties(s, key, d) + (if key(x) == d then [x] else [])
  {
    InsertStableBehind(x, s, key);
    InitLast(s);
    FilterSnocBoth(InsertStable(x, Init(s), key), Init(s), x, Last(s), KeyIs(key, d));
  }

  lemma InsertStableBehind<T>(x: T, s: seq<T>, key: T -> real)
    requires |s| > 0 && SortedBy(s, key) && key(x) < key(Last(s))
    ensures InsertStable(x, s, key) == InsertStable(x, Init(s), key) + [Last(s)]
  {
  }

  /**
   * If `a` filters like `b` followed by `x`, and `x` and `y` are not both
   * kept, then `a + [y]` filters like `b + [y]` followed by `x`.
   */
  lemma {:induction false} FilterSnocBoth<T>(a: seq<T>, b: seq<T>, x: T, y: T, p: T -> bool)
    requires Filter(a, p) == Filter(b, p) + (if p(x) then [x] else [])
    requires !(p(x) && p(y))
    ensures Filter(a + [y], p) == Filter(b + [y], p) + (if p(x) then [x] else [])
  {
    FilterSnoc(a, y, p);
    FilterSnoc(b, y, p);
  }

  /**
   * Stability: for every key value, the rows carrying it appear in the sorted
   * sequence in exactly the order they had in the input.
   */
  lemma {:induction false} StableSortKeepsTies<T>(s: seq<T>, key: T -> real, d: real)
    ensures Ties(StableSort(s, key), key, d) == Ties(s, key, d)
    decreases |s|
  {
    if |s| > 0 {
      InitLast(s);
      StableSortKeepsTies(Init(s), key, d);
      InsertStableTies(Last(s), StableSort(Init(s), key), key, d);
      FilterSnoc(Init(s), Last(s), KeyIs(key, d));
    }
  }
}

/**
 * Tables held as sequences of records, and the order-preserving operations the
 * pipeline applies to them, with the meaning pandas gives them: boolean-mask
 * row selection, `merge(..., how='left')` and `drop_duplicates(keep='first')`.
 *
 * Every recursive definition peels off the LAST row, so that the lemmas about
 * filtering, joining and de-duplicating can be proved by the same induction.
 */
module Tables {

  /** A cell that may be absent: pandas' NaN, or a missing join partner. */
  datatype Option<+T> = None | Some(value: T)

  /** Outcome of a step that the source wraps in `try ... except: return False`. */
  datatype Result<+T> = Success(value: T) | Failure(error: Error)

  /** Why a per-station step reports `False`. */
  datatype Error =
    | Unreadable                         // the input CSV could not be read
    | MissingColumns(columns: seq<string>) // a column selection named absent columns

  function Last<T>(s: seq<T>): T
    requires |s| > 0
  {
    s[|s| - 1]
  }

  function Init<T>(s: seq<T>): seq<T>
    requires |s| > 0
  {
    s[..|s| - 1]
  }

  lemma InitLast<T>(s: seq<T>)
    requires |s| > 0
    ensures s == Init(s) + [Last(s)]
  {
  }

  lemma InitOfSnoc<T>(a: seq<T>, x: T)
    ensures Init(a + [x]) == a && Last(a + [x]) == x
  {
    assert (a + [x])[..|a|] == a;
  }

  // ---------------------------------------------------------------------------
  // Row selection: `df[mask]`
  // ---------------------------------------------------------------------------

  /** The rows of `s` for which `p` holds, in their original order. */
  function Filter<T>(s: seq<T>, p: T -> bool): (r: seq<T>)
    ensures |r| <= |s|
    ensures forall i :: 0 <= i < |r| ==> p(r[i])
    decreases |s|
  {
    if |s| == 0 then []
    else
      InitLast(s);
      Filter(Init(s), p) + (if p(Last(s)) then [Last(s)] else [])
  }

  /**
   * The positions of the rows `Filter` keeps. Its contract says that `Filter`
   * keeps exactly the rows satisfying `p`, unchanged and in input order.
   */
  function Positions<T>(s: seq<T>, p: T -> bool): (idx: seq<nat>)
    ensures |idx| == |Filter(s, p)|
    ensures forall j :: 0 <= j < |idx| ==> idx[j] < |s| && Filter(s, p)[j] == s[idx[j]]
    ensures forall j, k :: 0 <= j < k < |idx| ==> idx[j] < idx[k]
    ensures forall i :: 0 <= i < |s| && p(s[i]) ==> i in idx
    decreases |s|
  {
    if |s| == 0 then []
    else
      var front := Positions(Init(s), p);
      PositionsStep(s, p, front);
      front + (if p(Last(s)) then [|s| - 1] else [])
  }

  lemma {:induction false} PositionsStep<T>(s: seq<T>, p: T -> bool, front: seq<nat>)
    requires |s| > 0
    requires |front| == |Filter(Init(s), p)|
    requires forall j :: 0 <= j < |front| ==> front[j] < |s| - 1 && Filter(Init(s), p)[j] == Init(s)[front[j]]
    requires forall j, k :: 0 <= j < k < |front| ==> front[j] < front[k]
    requires forall i :: 0 <= i < |s| - 1 && p(Init(s)[i]) ==> i in front
    ensures var idx := front + (if p(Last(s)) then [|s| - 1] else []);
      && |idx| == |Filter(s, p)|
      && (forall j :: 0 <= j < |idx| ==> idx[j] < |s| && Filter(s, p)[j] == s[idx[j]])
      && (forall j, k :: 0 <= j < k < |idx| ==> idx[j] < idx[k])
      && (forall i :: 0 <= i < |s| && p(s[i]) ==> i in idx)
  {
    var idx := front + (if p(Last(s)) then [|s| - 1] else []);
    var f := Filter(s, p);
    assert f == Filter(Init(s), p) + (if p(Last(s)) then [Last(s)] else []);
    forall j | 0 <= j < |idx| ensures idx[j] < |s| && f[j] == s[idx[j]] {
      if j < |front| {
        assert idx[j] == front[j];
        assert f[j] == Filter(Init(s), p)[j];
      }
    }
    forall i | 0 <= i < |s| && p(s[i]) ensures i in idx {
      if i < |s| - 1 {
        assert Init(s)[i] == s[i];
      } else {
        assert idx[|idx| - 1] == i;
      }
    }
  }

  /**
   * `r` is exactly the subsequence of `s` made of the rows satisfying `p`:
   * `idx` lists their positions in ascending order, each row is copied
   * unchanged, and a position is listed if and only if its row satisfies `p`.
   */
  ghost predicate SelectsExactly<T>(r: seq<T>, s: seq<T>, p: T -> bool, idx: seq<nat>)
  {
    && |idx| == |r|
    && (forall j :: 0 <= j < |r| ==> idx[j] < |s| && r[j] == s[idx[j]] && p(r[j]))
    && (forall j, k :: 0 <= j < k < |idx| ==> idx[j] < idx[k])
    && (forall i :: 0 <= i < |s| && p(s[i]) ==> i in idx)
  }

  lemma {:induction false} FilterSelectsExactly<T>(s: seq<T>, p: T -> bool)
    ensures SelectsExactly(Filter(s, p), s, p, Positions(s, p))
  {
  }

  /** A selection is empty exactly when no row satisfies the mask. */
  lemma FilterEmpty<T>(s: seq<T>, p: T -> bool)
    ensures |Filter(s, p)| == 0 <==> forall i :: 0 <= i < |s| ==> !p(s[i])
  {
    FilterSelectsExactly(s, p);
  }

  lemma {:induction false} FilterAppend<T>(a: seq<T>, b: seq<T>, p: T -> bool)
    ensures Filter(a + b, p) == Filter(a, p) + Filter(b, p)
    decreases |b|
  {
    if |b| == 0 {
      assert a + b == a;
    } else {
      assert a + b == (a + Init(b)) + [Last(b)];
      InitOfSnoc(a + Init(b), Last(b));
      FilterAppend(a, Init(b), p);
    }
  }

  lemma {:induction false} FilterSnoc<T>(a: seq<T>, x: T, p: T -> bool)
    ensures Filter(a + [x], p) == Filter(a, p) + (if p(x) then [x] else [])
  {
    InitOfSnoc(a, x);
  }

  /** Whether every row of `s` satisfies `p`, so that filtering keeps them all. */
  lemma {:induction false} FilterAll<T>(s: seq<T>, p: T -> bool)
    requires forall i :: 0 <= i < |s| ==> p(s[i])
    ensures Filter(s, p) == s
    decreases |s|
  {
    if |s| > 0 {
      InitLast(s);
      assert forall i :: 0 <= i < |s| - 1 ==> Init(s)[i] == s[i];
      FilterAll(Init(s), p);
    }
  }

  /** The first row of `s` satisfying `p`, if there is one. */
  function FirstMatch<T>(s: seq<T>, p: T -> bool): (r: Option<T>)
    ensures r.None? <==> forall i :: 0 <= i < |s| ==> !p(s[i])
    ensures r.Some? ==> exists i :: 0 <= i < |s| && s[i] == r.value && p(s[i]) &&
                                     forall j :: 0 <= j < i ==> !p(s[j])
    decreases |s|
  {
    if |s| == 0 then None
    else
      var f := FirstMatch(Init(s), p);
      assert forall i :: 0 <= i < |s| - 1 ==> s[i] == Init(s)[i];
      if f.Some? then f
      else if p(Last(s)) then Some(Last(s))
      else None
  }

  lemma {:induction false} FirstMatchAppend<T>(a: seq<T>, b: seq<T>, p: T -> bool)
    ensures FirstMatch(a + b, p) == if FirstMatch(a, p).Some? then FirstMatch(a, p) else FirstMatch(b, p)
    decreases |b|
  {
    if |b| == 0 {
      assert a + b == a;
    } else {
      assert a + b == (a + Init(b)) + [Last(b)];
      InitOfSnoc(a + Init(b), Last(b));
      FirstMatchAppend(a, Init(b), p);
    }
  }

  /** The predicate "the key of this row is `k`", as one named value. */
  function MatchesKey<R, K(==)>(key: R -> K, k: K): R -> bool
  {
    x => key(x) == k
  }

  // ---------------------------------------------------------------------------
  // `pd.merge(left, right, on=key, how='left')`
  // ---------------------------------------------------------------------------

  /** One row of a left join: the left row and its right partner, absent if none. */
  datatype Joined<L, R> = Joined(left: L, right: Option<R>)

  /**
   * The rows one left row `l` contributes to a left join: one per right row
   * with the same key, in right-table order, or a single row with an absent
   * partner when there is none.
   */
  function JoinRow<L, R, K(==)>(l: L, right: seq<R>, lkey: L -> K, rkey: R -> K): (r: seq<Joined<L, R>>)
    ensures |r| >= 1
    ensures forall j :: 0 <= j < |r| ==> r[j].left == l
    ensures r[0].right == FirstMatch(right, MatchesKey(rkey, lkey(l)))
    ensures forall j :: 0 <= j < |r| && r[j].right.Some? ==>
              r[j].right.value in right && rkey(r[j].right.value) == lkey(l)
    ensures forall j :: 0 <= j < |r| && r[j].right.None? ==>
              forall i :: 0 <= i < |right| ==> rkey(right[i]) != lkey(l)
  {
    var p := MatchesKey(rkey, lkey(l));
    var m := Filter(right, p);
    JoinRowFacts(right, p);
    if |m| == 0 then
      [Joined(l, None)]
    else
      seq(|m|, j requires 0 <= j < |m| => Joined(l, Some(m[j])))
  }

  /**
   * The number of rows left row `l` contributes to a left join: one per right
   * row with its key, or one when there is none.
   */
  function Fanout<L, R, K(==)>(l: L, right: seq<R>, lkey: L -> K, rkey: R -> K): nat
  {
    var n := |Filter(right, MatchesKey(rkey, lkey(l)))|;
    if n == 0 then 1 else n
  }

  /**
   * A left row's block has one row per right row with its key, each such right
   * row appearing once and in right-table order; with none, the block is the
   * single unmatched row.
   */
  lemma {:induction false} JoinRowFanout<L, R, K>(l: L, right: seq<R>, lkey: L -> K, rkey: R -> K)
    ensures |JoinRow(l, right, lkey, rkey)| == Fanout(l, right, lkey, rkey)
    ensures forall i :: 0 <= i < |right| && rkey(right[i]) == lkey(l) ==>
              exists j :: 0 <= j < |JoinRow(l, right, lkey, rkey)| && JoinRow(l, right, lkey, rkey)[j].right == Some(right[i])
    ensures var idx := Positions(right, MatchesKey(rkey, lkey(l)));
            |idx| > 0 ==> forall j :: 0 <= j < |idx| ==> JoinRow(l, right, lkey, rkey)[j].right == Some(right[idx[j]])
  {
    var p := MatchesKey(rkey, lkey(l));
    var m := Filter(right, p);
    var r := JoinRow(l, right, lkey, rkey);
    JoinRowFacts(right, p);
    if |m| > 0 {
      assert forall j :: 0 <= j < |m| ==> r[j].right == Some(m[j]);
      forall i | 0 <= i < |right| && rkey(right[i]) == lkey(l)
        ensures exists j :: 0 <= j < |r| && r[j].right == Some(right[i])
      {
        assert p(right[i]);
        var k :| 0 <= k < |m| && m[k] == right[i];
        assert r[k].right == Some(right[i]);
      }
    } else {
      FilterEmpty(right, p);
    }
  }

  lemma {:induction false} JoinRowFacts<R>(right: seq<R>, p: R -> bool)
    ensures FirstMatch(right, p) == if |Filter(right, p)| == 0 then None else Some(Filter(right, p)[0])
    ensures forall j :: 0 <= j < |Filter(right, p)| ==> Filter(right, p)[j] in right
    ensures |Filter(right, p)| == 0 ==> forall i :: 0 <= i < |right| ==> !p(right[i])
    ensures forall i :: 0 <= i < |right| && p(right[i]) ==>
              exists k :: 0 <= k < |Filter(right, p)| && Filter(right, p)[k] == right[i]
  {
    FirstMatchIsFirstKept(right, p);
    var ps := Positions(right, p);
    forall j | 0 <= j < |Filter(right, p)| ensures Filter(right, p)[j] in right {
      assert Filter(right, p)[j] == right[ps[j]];
    }
    forall i | 0 <= i < |right| && p(right[i])
      ensures exists k :: 0 <= k < |Filter(right, p)| && Filter(right, p)[k] == right[i]
    {
      assert i in ps;
      var k :| 0 <= k < |ps| && ps[k] == i;
      assert Filter(right, p)[k] == right[i];
    }
  }

  /** The first match is the head of the filtered table. */
  lemma {:induction false} FirstMatchIsFirstKept<T>(s: seq<T>, p: T -> bool)
    ensures FirstMatch(s, p) == if |Filter(s, p)| == 0 then None else Some(Filter(s, p)[0])
    decreases |s|
  {
    if |s| > 0 {
      FirstMatchIsFirstKept(Init(s), p);
    }
  }

  /** A left join: every left row, in order, each followed through its partners. */
  function LeftJoin<L, R, K(==)>(left: seq<L>, right: seq<R>, lkey: L -> K, rkey: R -> K): (r: seq<Joined<L, R>>)
    ensures |r| >= |left|
    ensures forall j :: j in r ==> j.left in left
    decreases |left|
  {
    if |left| == 0 then []
    else
      InitLast(left);
      LeftJoin(Init(left), right, lkey, rkey) + JoinRow(Last(left), right, lkey, rkey)
  }

  /**
   * `j`'s partner is right: a present partner is a right row with the same
   * key, and an absent one means no right row has that key.
   */
  ghost predicate HasRightPartner<L, R, K>(j: Joined<L, R>, right: seq<R>, lkey: L -> K, rkey: R -> K)
  {
    && (j.right.Some? ==> j.right.value in right && rkey(j.right.value) == lkey(j.left))
    && (j.right.None? ==> forall i :: 0 <= i < |right| ==> rkey(right[i]) != lkey(j.left))
  }

  /** Every row of a left join pairs its left row with a right row of the same key, or with none when there is none. */
  lemma {:induction false} LeftJoinPartners<L, R, K>(left: seq<L>, right: seq<R>, lkey: L -> K, rkey: R -> K)
    ensures forall j :: 0 <= j < |LeftJoin(left, right, lkey, rkey)| ==>
              HasRightPartner(LeftJoin(left, right, lkey, rkey)[j], right, lkey, rkey)
    decreases |left|
  {
    if |left| > 0 {
      var front := LeftJoin(Init(left), right, lkey, rkey);
      var block := JoinRow(Last(left), right, lkey, rkey);
      LeftJoinPartners(Init(left), right, lkey, rkey);
      JoinRowPartners(Last(left), right, lkey, rkey);
      PartnersAppend(front, block, right, lkey, rkey);
    }
  }

  lemma {:induction false} JoinRowPartners<L, R, K>(l: L, right: seq<R>, lkey: L -> K, rkey: R -> K)
    ensures forall j :: 0 <= j < |JoinRow(l, right, lkey, rkey)| ==>
              HasRightPartner(JoinRow(l, right, lkey, rkey)[j], right, lkey, rkey)
  {
    var block := JoinRow(l, right, lkey, rkey);
    forall j | 0 <= j < |block| ensures HasRightPartner(block[j], right, lkey, rkey) {
      assert block[j].left == l;
    }
  }

  lemma {:induction false} PartnersAppend<L, R, K>(a: seq<Joined<L, R>>, b: seq<Joined<L, R>>, right: seq<R>,
                                                   lkey: L -> K, rkey: R -> K)
    requires forall j :: 0 <= j < |a| ==> HasRightPartner(a[j], right, lkey, rkey)
    requires forall j :: 0 <= j < |b| ==> HasRightPartner(b[j], right, lkey, rkey)
    ensures forall j :: 0 <= j < |a + b| ==> HasRightPartner((a + b)[j], right, lkey, rkey)
  {
    forall j | 0 <= j < |a + b| ensures HasRightPartner((a + b)[j], right, lkey, rkey) {
      if j < |a| {
        assert (a + b)[j] == a[j];
      } else {
        assert (a + b)[j] == b[j - |a|];
      }
    }
  }

  /**
   * For each row of a left join, the position of the left row it came from.
   * Its contract says that the join keeps every left row (no row is dropped),
   * in left-table order, each at least once.
   */
  function JoinOrigins<L, R, K(==)>(left: seq<L>, right: seq<R>, lkey: L -> K, rkey: R -> K): (o: seq<nat>)
    ensures |o| == |LeftJoin(left, right, lkey, rkey)|
    ensures forall j :: 0 <= j < |o| ==>
              o[j] < |left| && LeftJoin(left, right, lkey, rkey)[j].left == left[o[j]]
    ensures forall j, k :: 0 <= j < k < |o| ==> o[j] <= o[k]
    ensures forall i :: 0 <= i < |left| ==> i in o
    decreases |left|
  {
    if |left| == 0 then []
    else
      var front := JoinOrigins(Init(left), right, lkey, rkey);
      var block := JoinRow(Last(left), right, lkey, rkey);
      var copies := Repeat(|left| - 1, |block|);
      assert LeftJoin(left, right, lkey, rkey) == LeftJoin(Init(left), right, lkey, rkey) + block;
      JoinOriginsStep(left, LeftJoin(Init(left), right, lkey, rkey), block, front, copies);
      front + copies
  }

  lemma {:induction false} JoinOriginsStep<L, R>(left: seq<L>, joined: seq<Joined<L, R>>, block: seq<Joined<L, R>>,
                                                 front: seq<nat>, copies: seq<nat>)
    requires |left| > 0 && |block| > 0
    requires |copies| == |block| && forall j :: 0 <= j < |copies| ==> copies[j] == |left| - 1
    requires forall j :: 0 <= j < |block| ==> block[j].left == Last(left)
    requires |front| == |joined|
    requires forall j :: 0 <= j < |front| ==> front[j] < |left| - 1 && joined[j].left == Init(left)[front[j]]
    requires forall j, k :: 0 <= j < k < |front| ==> front[j] <= front[k]
    requires forall i :: 0 <= i < |left| - 1 ==> i in front
    ensures var o := front + copies;
      && |o| == |joined + block|
      && (forall j :: 0 <= j < |o| ==> o[j] < |left| && (joined + block)[j].left == left[o[j]])
      && (forall j, k :: 0 <= j < k < |o| ==> o[j] <= o[k])
      && (forall i :: 0 <= i < |left| ==> i in o)
  {
    var o := front + copies;
    forall j | 0 <= j < |o| ensures o[j] < |left| && (joined + block)[j].left == left[o[j]] {
      if j < |front| {
        assert (joined + block)[j] == joined[j];
        assert Init(left)[front[j]] == left[front[j]];
      } else {
        assert (joined + block)[j] == block[j - |front|];
      }
    }
    forall i | 0 <= i < |left| ensures i in o {
      if i == |left| - 1 {
        assert o[|front|] == i;
      } else {
        assert i in front;
        var j :| 0 <= j < |front| && front[j] == i;
        assert o[j] == i;
      }
    }
  }

  /** `n` copies of `x`. */
  function Repeat<T>(x: T, n: nat): (r: seq<T>)
    ensures |r| == n
    ensures forall j :: 0 <= j < n ==> r[j] == x
    ensures multiset(r)[x] == n
  {
    if n == 0 then [] else Repeat(x, n - 1) + [x]
  }

  /** Left row `i` is the origin of exactly as many joined rows as it has partners, or of one when it has none. */
  lemma {:induction false} JoinOriginsCount<L, R, K>(left: seq<L>, right: seq<R>, lkey: L -> K, rkey: R -> K)
    ensures forall i :: 0 <= i < |left| ==>
              multiset(JoinOrigins(left, right, lkey, rkey))[i] == Fanout(left[i], right, lkey, rkey)
    decreases |left|
  {
    if |left| > 0 {
      var front := JoinOrigins(Init(left), right, lkey, rkey);
      var k := |JoinRow(Last(left), right, lkey, rkey)|;
      assert JoinOrigins(left, right, lkey, rkey) == front + Repeat(|left| - 1, k);
      JoinOriginsCount(Init(left), right, lkey, rkey);
      JoinRowSize(Last(left), right, lkey, rkey);
      CountsStep(left, front, k, right, lkey, rkey);
    }
  }

  lemma {:induction false} JoinRowSize<L, R, K>(l: L, right: seq<R>, lkey: L -> K, rkey: R -> K)
    ensures |JoinRow(l, right, lkey, rkey)| == Fanout(l, right, lkey, rkey)
  {
  }

  lemma {:induction false} CountsStep<L, R, K>(left: seq<L>, front: seq<nat>, k: nat, right: seq<R>, lkey: L -> K, rkey: R -> K)
    requires |left| > 0
    requires forall j :: 0 <= j < |front| ==> front[j] < |left| - 1
    requires forall i :: 0 <= i < |left| - 1 ==> multiset(front)[i] == Fanout(Init(left)[i], right, lkey, rkey)
    requires k == Fanout(Last(left), right, lkey, rkey)
    ensures forall i :: 0 <= i < |left| ==>
              multiset(front + Repeat(|left| - 1, k))[i] == Fanout(left[i], right, lkey, rkey)
  {
    forall i | 0 <= i < |left|
      ensures multiset(front + Repeat(|left| - 1, k))[i] == Fanout(left[i], right, lkey, rkey)
    {
      CountAfterRepeat(front, |left| - 1, k, i);
      if i < |left| - 1 {
        assert Init(left)[i] == left[i];
      }
    }
  }

  lemma {:induction false} CountAfterRepeat(front: seq<nat>, n: nat, k: nat, i: nat)
    requires forall j :: 0 <= j < |front| ==> front[j] < n
    ensures multiset(front + Repeat(n, k))[i] == if i == n then k else multiset(front)[i]
  {
    assert multiset(front + Repeat(n, k)) == multiset(front) + multiset(Repeat(n, k));
    if i == n {
      assert n !in front;
    } else {
      assert i !in Repeat(n, k);
    }
  }

  /**
   * `o` maps the rows of a table derived from an `n`-row table back to the row
   * each came from: positions are in range and never decrease, and every one of
   * the `n` rows is the origin of at least one derived row.
   */
  ghost predicate InOrderCovering(o: seq<nat>, n: nat)
  {
    && (forall j :: 0 <= j < |o| ==> o[j] < n)
    && (forall j, k :: 0 <= j < k < |o| ==> o[j] <= o[k])
    && (forall i :: 0 <= i < n ==> i in o)
  }

  /** The left rows of a joined table, one per joined row. */
  function Lefts<L, R>(js: seq<Joined<L, R>>): (r: seq<L>)
    ensures |r| == |js|
    ensures forall j :: 0 <= j < |js| ==> r[j] == js[j].left
  {
    seq(|js|, j requires 0 <= j < |js| => js[j].left)
  }

  /** The left columns of a left join are the left rows, in order, each repeated once per partner. */
  lemma {:induction false} LeftsOfJoin<L, R, K>(left: seq<L>, right: seq<R>, lkey: L -> K, rkey: R -> K)
    ensures var o := JoinOrigins(left, right, lkey, rkey);
            var r := Lefts(LeftJoin(left, right, lkey, rkey));
            |o| == |r| && InOrderCovering(o, |left|) && forall j :: 0 <= j < |r| ==> r[j] == left[o[j]]
  {
  }

  /**
   * Projecting a left join back onto its left columns gives the left table with
   * each row repeated, so the first row with a given key is unchanged.
   */
  lemma {:induction false} FirstMatchOfJoinedLefts<L, R, K>(
    left: seq<L>, right: seq<R>, lkey: L -> K, rkey: R -> K, p: L -> bool)
    ensures FirstMatch(Lefts(LeftJoin(left, right, lkey, rkey)), p) == FirstMatch(left, p)
    decreases |left|
  {
    if |left| > 0 {
      var l := Last(left);
      var block := JoinRow(l, right, lkey, rkey);
      var front := LeftJoin(Init(left), right, lkey, rkey);
      assert Lefts(front + block) == Lefts(front) + Lefts(block);
      FirstMatchOfJoinedLefts(Init(left), right, lkey, rkey, p);
      FirstMatchAppend(Lefts(front), Lefts(block), p);
      FirstMatchOfCopies(Lefts(block), l, p);
      InitLast(left);
      FirstMatchAppend(Init(left), [l], p);
    }
  }

  lemma {:induction false} FirstMatchOfCopies<T>(s: seq<T>, x: T, p: T -> bool)
    requires |s| > 0 && forall j :: 0 <= j < |s| ==> s[j] == x
    ensures FirstMatch(s, p) == FirstMatch([x], p)
  {
    var f := FirstMatch(s, p);
    if f.Some? {
      var i :| 0 <= i < |s| && s[i] == f.value && p(s[i]) && forall j :: 0 <= j < i ==> !p(s[j]);
      assert [x][0] == x;
    } else {
      assert !p(s[0]);
    }
  }

  // ---------------------------------------------------------------------------
  // `drop_duplicates(subset=key, keep='first')`
  // ---------------------------------------------------------------------------

  /** The column `key` selects, one value per row, in row order. */
  function Column<T, K>(s: seq<T>, key: T -> K): (r: seq<K>)
    ensures |r| == |s|
    ensures forall j :: 0 <= j < |s| ==> r[j] == key(s[j])
  {
    seq(|s|, j requires 0 <= j < |s| => key(s[j]))
  }

  /** The set of keys occurring in `s`. */
  function Keys<T(==), K(==)>(s: seq<T>, key: T -> K): set<K>
  {
    set x | x in s :: key(x)
  }

  lemma {:induction false} KeysAppend<T, K>(a: seq<T>, b: seq<T>, key: T -> K)
    ensures Keys(a + b, key) == Keys(a, key) + Keys(b, key)
  {
    forall k | k in Keys(a + b, key) ensures k in Keys(a, key) + Keys(b, key) {
      var x :| x in a + b && key(x) == k;
    }
    forall k | k in Keys(a, key) + Keys(b, key) ensures k in Keys(a + b, key) {
      if k in Keys(a, key) {
        var x :| x in a && key(x) == k;
        assert x in a + b;
      } else {
        var x :| x in b && key(x) == k;
        assert x in a + b;
      }
    }
  }

  lemma {:induction false} KeysSnoc<T, K>(a: seq<T>, x: T, key: T -> K)
    ensures Keys(a + [x], key) == Keys(a, key) + {key(x)}
  {
    KeysAppend(a, [x], key);
    assert Keys([x], key) == {key(x)} by {
      assert x in [x];
    }
  }

  /** The position of the first row of `s` whose key is `k`. */
  function FirstIndex<T(==), K(==)>(s: seq<T>, key: T -> K, k: K): (i: nat)
    requires k in Keys(s, key)
    ensures i < |s| && key(s[i]) == k
    ensures forall j :: 0 <= j < i ==> key(s[j]) != k
    decreases |s|
  {
    InitLast(s);
    KeysSnoc(Init(s), Last(s), key);
    assert forall j :: 0 <= j < |s| - 1 ==> s[j] == Init(s)[j] && s[j] in Init(s);
    if k in Keys(Init(s), key) then FirstIndex(Init(s), key, k) else |s| - 1
  }

  /**
   * `drop_duplicates` on the columns `key` selects: for each key the first row
   * carrying it survives, later rows with the same key are discarded, and the
   * survivors keep their relative order.
   */
  function DropDuplicates<T(==), K(==)>(s: seq<T>, key: T -> K): (r: seq<T>)
    ensures Keys(r, key) == Keys(s, key)
    ensures forall i, j :: 0 <= i < j < |r| ==> key(r[i]) != key(r[j])
    ensures forall i :: 0 <= i < |r| ==>
              key(r[i]) in Keys(s, key) && r[i] == s[FirstIndex(s, key, key(r[i]))]
    ensures forall i, j :: 0 <= i < j < |r| ==>
              FirstIndex(s, key, key(r[i])) < FirstIndex(s, key, key(r[j]))
    decreases |s|
  {
    if |s| == 0 then []
    else
      var d := DropDuplicates(Init(s), key);
      DropDuplicatesStep(s, d, key);
      if key(Last(s)) in Keys(Init(s), key) then d else d + [Last(s)]
  }

  /** `r` is what `drop_duplicates` keeps of `s`: the four clauses of its contract. */
  ghost predicate IsDeduplication<T, K>(r: seq<T>, s: seq<T>, key: T -> K)
  {
    && Keys(r, key) == Keys(s, key)
    && (forall i, j :: 0 <= i < j < |r| ==> key(r[i]) != key(r[j]))
    && (forall i :: 0 <= i < |r| ==>
          key(r[i]) in Keys(s, key) && r[i] == s[FirstIndex(s, key, key(r[i]))])
    && (forall i, j :: 0 <= i < j < |r| ==>
          FirstIndex(s, key, key(r[i])) < FirstIndex(s, key, key(r[j])))
  }

  lemma {:induction false} DropDuplicatesStep<T, K>(s: seq<T>, d: seq<T>, key: T -> K)
    requires |s| > 0 && IsDeduplication(d, Init(s), key)
    ensures IsDeduplication(if key(Last(s)) in Keys(Init(s), key) then d else d + [Last(s)], s, key)
  {
    InitLast(s);
    KeysSnoc(Init(s), Last(s), key);
    FirstIndexOfPrefix(s, key);
    if key(Last(s)) in Keys(Init(s), key) {
      DropDuplicatesSeen(s, d, key);
    } else {
      DropDuplicatesNew(s, d, key);
    }
  }

  /** Extending a table keeps the first position of every key it already had. */
  lemma {:induction false} FirstIndexOfPrefix<T, K>(s: seq<T>, key: T -> K)
    requires |s| > 0
    ensures Keys(Init(s), key) <= Keys(s, key)
    ensures forall k :: k in Keys(Init(s), key) ==> FirstIndex(s, key, k) == FirstIndex(Init(s), key, k)
  {
    InitLast(s);
    KeysSnoc(Init(s), Last(s), key);
  }

  lemma {:induction false} DropDuplicatesSeen<T, K>(s: seq<T>, d: seq<T>, key: T -> K)
    requires |s| > 0 && IsDeduplication(d, Init(s), key)
    requires key(Last(s)) in Keys(Init(s), key)
    requires Keys(s, key) == Keys(Init(s), key) + {key(Last(s))}
    requires forall k :: k in Keys(Init(s), key) ==> FirstIndex(s, key, k) == FirstIndex(Init(s), key, k)
    ensures IsDeduplication(d, s, key)
  {
    assert forall i :: 0 <= i < |d| ==> d[i] == Init(s)[FirstIndex(Init(s), key, key(d[i]))];
    assert forall i :: 0 <= i < |s| - 1 ==> Init(s)[i] == s[i];
  }

  lemma {:induction false} DropDuplicatesNew<T, K>(s: seq<T>, d: seq<T>, key: T -> K)
    requires |s| > 0 && IsDeduplication(d, Init(s), key)
    requires key(Last(s)) !in Keys(Init(s), key)
    requires Keys(s, key) == Keys(Init(s), key) + {key(Last(s))}
    requires forall k :: k in Keys(Init(s), key) ==> FirstIndex(s, key, k) == FirstIndex(Init(s), key, k)
    ensures IsDeduplication(d + [Last(s)], s, key)
  {
    var x := Last(s);
    var r := d + [x];
    KeysSnoc(d, x, key);
    assert forall i :: 0 <= i < |d| ==> key(d[i]) in Keys(Init(s), key);
    assert FirstIndex(s, key, key(x)) == |s| - 1;
    assert forall i :: 0 <= i < |s| - 1 ==> Init(s)[i] == s[i];
    assert forall i :: 0 <= i < |d| ==> r[i] == d[i];
    assert r[|d|] == x;
  }

  lemma {:induction false} DropDuplicatesSnoc<T, K>(a: seq<T>, x: T, key: T -> K)
    ensures DropDuplicates(a + [x], key) ==
              DropDuplicates(a, key) + (if key(x) in Keys(a, key) then [] else [x])
  {
    InitOfSnoc(a, x);
  }

  /** A row followed by repeats of its key leaves at most that row behind. */
  lemma {:induction false} DropDuplicatesOfRepeats<T, K>(a: seq<T>, x: T, rest: seq<T>, key: T -> K)
    requires Keys(rest, key) <= {key(x)}
    ensures DropDuplicates(a + ([x] + rest), key) ==
              DropDuplicates(a, key) + (if key(x) in Keys(a, key) then [] else [x])
  {
    assert a + ([x] + rest) == (a + [x]) + rest;
    KeysSnoc(a, x, key);
    DropDuplicatesOfSeen(a + [x], rest, key);
    DropDuplicatesSnoc(a, x, key);
  }

  /** Rows whose keys were all seen before are all discarded. */
  lemma {:induction false} DropDuplicatesOfSeen<T, K>(a: seq<T>, b: seq<T>, key: T -> K)
    requires Keys(b, key) <= Keys(a, key)
    ensures DropDuplicates(a + b, key) == DropDuplicates(a, key)
    decreases |b|
  {
    if |b| == 0 {
      assert a + b == a;
    } else {
      var b' := Init(b);
      InitLast(b);
      KeysSnoc(b', Last(b), key);
      DropDuplicatesOfSeen(a, b', key);
      assert a + b == (a + b') + [Last(b)];
      DropDuplicatesSnoc(a + b', Last(b), key);
      KeysAppend(a, b', key);
    }
  }
}

/**
 * The aggregations the pipeline asks pandas for: `max` and `min` of year
 * columns, and `mean` of temperature columns, which skips absent cells.
 * Temperatures are exact reals here (see README for the rounding left out).
 */
module Stats {
  import opened Tables

  // ---------------------------------------------------------------------------
  // `max` and `min` of a non-empty integer column
  // ---------------------------------------------------------------------------

  function MaxOf(xs: seq<int>): (m: int)
    requires |xs| > 0
    ensures m in xs
    ensures forall i :: 0 <= i < |xs| ==> xs[i] <= m
    decreases |xs|
  {
    if |xs| == 1 then xs[0]
    else
      var m := MaxOf(Init(xs));
      assert forall i :: 0 <= i < |xs| - 1 ==> xs[i] == Init(xs)[i];
      if Last(xs) > m then Last(xs) else m
  }

  function MinOf(xs: seq<int>): (m: int)
    requires |xs| > 0
    ensures m in xs
    ensures forall i :: 0 <= i < |xs| ==> m <= xs[i]
    decreases |xs|
  {
    if |xs| == 1 then xs[0]
    else
      var m := MinOf(Init(xs));
      assert forall i :: 0 <= i < |xs| - 1 ==> xs[i] == Init(xs)[i];
      if Last(xs) < m then Last(xs) else m
  }

  // ---------------------------------------------------------------------------
  // `mean`
  // ---------------------------------------------------------------------------

  function Sum(xs: seq<real>): real
    decreases |xs|
  {
    if |xs| == 0 then 0.0 else Sum(Init(xs)) + Last(xs)
  }

  /** Every value of `xs` lies in `[lo, hi]`. */
  ghost predicate Within(xs: seq<real>, lo: real, hi: real)
  {
    forall i :: 0 <= i < |xs| ==> lo <= xs[i] <= hi
  }

  lemma {:induction false} SumWithin(xs: seq<real>, lo: real, hi: real)
    requires Within(xs, lo, hi)
    ensures |xs| as real * lo <= Sum(xs) <= |xs| as real * hi
    decreases |xs|
  {
    if |xs| > 0 {
      assert Within(Init(xs), lo, hi) by {
        forall i | 0 <= i < |xs| - 1 ensures lo <= Init(xs)[i] <= hi {
          assert Init(xs)[i] == xs[i];
        }
      }
      SumWithin(Init(xs), lo, hi);
      assert lo <= Last(xs) <= hi;
    }
  }

  /** `x` is the arithmetic mean of `xs`: `x` times their number is their sum. */
  ghost predicate IsMeanOf(x: real, xs: seq<real>)
  {
    x * |xs| as real == Sum(xs)
  }

  /** The arithmetic mean of a non-empty column. */
  function Mean(xs: seq<real>): (m: real)
    requires |xs| > 0
    ensures IsMeanOf(m, xs)
  {
    Sum(xs) / |xs| as real
  }

  /** A mean lies within any bounds that hold for all the values it averages. */
  lemma {:induction false} MeanWithin(xs: seq<real>, lo: real, hi: real)
    requires |xs| > 0 && Within(xs, lo, hi)
    ensures lo <= Mean(xs) <= hi
  {
    var n := |xs| as real;
    SumWithin(xs, lo, hi);
    assert Mean(xs) * n == Sum(xs);
  }

  /** The mean of one value is that value; of two, their midpoint; of three, a third of their sum. */
  lemma MeanOfFew(a: real, b: real, c: real)
    ensures Mean([a]) == a
    ensures Mean([a, b]) == (a + b) / 2.0
    ensures Mean([a, b, c]) == (a + b + c) / 3.0
  {
    assert Sum([a]) == a by {
      assert Init([a]) == [];
    }
    assert Sum([a, b]) == a + b by {
      assert Init([a, b]) == [a];
    }
    assert Sum([a, b, c]) == a + b + c by {
      assert Init([a, b, c]) == [a, b];
    }
  }

  // ---------------------------------------------------------------------------
  // `mean` of a column with absent cells (skipna)
  // ---------------------------------------------------------------------------

  /** The present cells of `xs`, in order. */
  function Present(xs: seq<Option<real>>): (r: seq<real>)
    ensures |r| <= |xs|
    ensures forall k :: 0 <= k < |r| ==> Some(r[k]) in xs
    ensures |r| == 0 <==> forall i :: 0 <= i < |xs| ==> xs[i].None?
    decreases |xs|
  {
    if |xs| == 0 then []
    else
      InitLast(xs);
      assert forall i :: 0 <= i < |xs| - 1 ==> xs[i] == Init(xs)[i];
      Present(Init(xs)) + (if Last(xs).Some? then [Last(xs).value] else [])
  }

  /** pandas' `mean`: NaN cells are skipped, and an all-NaN column gives NaN. */
  function MeanOfPresent(xs: seq<Option<real>>): (m: Option<real>)
    ensures m.None? <==> forall i :: 0 <= i < |xs| ==> xs[i].None?
    ensures m.Some? ==> IsMeanOf(m.value, Present(xs))
  {
    if |Present(xs)| == 0 then None else Some(Mean(Present(xs)))
  }

  /**
   * A mean that skips absent cells lies between the smallest and the largest
   * present cell.
   */
  lemma {:induction false} MeanOfPresentWithin(xs: seq<Option<real>>, lo: real, hi: real)
    requires forall i :: 0 <= i < |xs| && xs[i].Some? ==> lo <= xs[i].value <= hi
    ensures MeanOfPresent(xs).Some? ==> lo <= MeanOfPresent(xs).value <= hi
  {
    var p := Present(xs);
    if |p| > 0 {
      assert Within(p, lo, hi) by {
        forall k | 0 <= k < |p| ensures lo <= p[k] <= hi {
          assert Some(p[k]) in xs;
          var i :| 0 <= i < |xs| && xs[i] == Some(p[k]);
        }
      }
      MeanWithin(p, lo, hi);
    }
  }
}

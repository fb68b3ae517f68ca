/**
 * Monthly and yearly temperature means of one station
 * (`create_monthly_averages`, clean_data.py:154-197, and
 * `create_yearly_averages`, clean_data.py:201-239). The monthly table has one
 * row per (Year, Month) of the cleaned daily table, with the mean TMAX and the
 * mean TMIN of that month; the yearly table has one row per Year, with the
 * mean of that year's monthly means.
 */
module Averages {
  import opened Tables
  import opened Ordering
  import opened Stats
  import opened Observations

  // ---------------------------------------------------------------------------
  // Calendar months in `groupby(['Year', 'Month'])` order
  // ---------------------------------------------------------------------------

  datatype YearMonth = YearMonth(year: int, month: int)

  /** Year first, then month: the order of a two-column group key. */
  predicate YearMonthLt(a: YearMonth, b: YearMonth)
  {
    a.year < b.year || (a.year == b.year && a.month < b.month)
  }

  lemma YearMonthLtIsStrictTotal()
    ensures StrictTotalOrder(YearMonthLt)
  {
  }

  function MonthOf(o: Observation): YearMonth
  {
    YearMonth(o.year, o.month)
  }

  function MonthsOf(obs: seq<Observation>): (r: seq<YearMonth>)
    ensures |r| == |obs|
    ensures forall j :: 0 <= j < |obs| ==> r[j] == MonthOf(obs[j])
  {
    seq(|obs|, j requires 0 <= j < |obs| => MonthOf(obs[j]))
  }

  // ---------------------------------------------------------------------------
  // Monthly means
  // ---------------------------------------------------------------------------

  /** One row of the monthly table: Station_ID, Year, Month, TMAX, TMIN. */
  datatype MonthlyRow = MonthlyRow(
    stationId: string,
    year: int,
    month: int,
    tmax: Option<real>,
    tmin: Option<real>)

  /** The predicate "this is a reading of element `e` taken in month `ym`". */
  function InMonth(ym: YearMonth, e: string): Observation -> bool
  {
    (o: Observation) => MonthOf(o) == ym && o.element == e
  }

  function Values(obs: seq<Observation>): (r: seq<real>)
    ensures |r| == |obs|
    ensures forall j :: 0 <= j < |obs| ==> r[j] == obs[j].value
  {
    seq(|obs|, j requires 0 <= j < |obs| => obs[j].value)
  }

  /** The readings of element `e` in month `ym`, in table order. */
  function Readings(obs: seq<Observation>, ym: YearMonth, e: string): seq<real>
  {
    Values(Filter(obs, InMonth(ym, e)))
  }

  /**
   * One cell of the pivoted monthly table: the mean of the month's readings
   * of element `e`, absent when there are none.
   */
  function MonthlyMean(obs: seq<Observation>, ym: YearMonth, e: string): (m: Option<real>)
    ensures m.None? <==> forall i :: 0 <= i < |obs| ==> !(MonthOf(obs[i]) == ym && obs[i].element == e)
    ensures m.Some? ==> IsMeanOf(m.value, Readings(obs, ym, e))
  {
    var xs := Readings(obs, ym, e);
    FilterEmpty(obs, InMonth(ym, e));
    if |xs| == 0 then None else Some(Mean(xs))
  }

  /** A monthly mean lies between the coldest and the warmest reading it averages. */
  lemma {:induction false} MonthlyMeanWithin(obs: seq<Observation>, ym: YearMonth, e: string, lo: real, hi: real)
    requires forall i :: 0 <= i < |obs| && MonthOf(obs[i]) == ym && obs[i].element == e ==>
               lo <= obs[i].value <= hi
    ensures MonthlyMean(obs, ym, e).Some? ==> lo <= MonthlyMean(obs, ym, e).value <= hi
  {
    var p := InMonth(ym, e);
    var g := Filter(obs, p);
    var xs := Readings(obs, ym, e);
    FilterSelectsExactly(obs, p);
    var idx := Positions(obs, p);
    if |xs| > 0 {
      assert Within(xs, lo, hi) by {
        forall k | 0 <= k < |xs| ensures lo <= xs[k] <= hi {
          assert g[k] == obs[idx[k]] && p(g[k]);
        }
      }
      MeanWithin(xs, lo, hi);
    }
  }

  /** There is at least one reading of element `e`. */
  predicate HasElement(obs: seq<Observation>, e: string)
  {
    exists i | 0 <= i < |obs| :: obs[i].element == e
  }

  /** The TMAX and TMIN columns the pivot did not create. */
  function MissingElements(obs: seq<Observation>): (missing: seq<string>)
    ensures "TMAX" in missing <==> !HasElement(obs, "TMAX")
    ensures "TMIN" in missing <==> !HasElement(obs, "TMIN")
    ensures |missing| == 0 <==> HasElement(obs, "TMAX") && HasElement(obs, "TMIN")
  {
    (if HasElement(obs, "TMAX") then [] else ["TMAX"]) + (if HasElement(obs, "TMIN") then [] else ["TMIN"])
  }

  function MonthlyRowFor(stationId: string, obs: seq<Observation>, ym: YearMonth): MonthlyRow
  {
    MonthlyRow(stationId, ym.year, ym.month, MonthlyMean(obs, ym, "TMAX"), MonthlyMean(obs, ym, "TMIN"))
  }

  function RowMonth(m: MonthlyRow): YearMonth
  {
    YearMonth(m.year, m.month)
  }

  function RowMonths(rows: seq<MonthlyRow>): (r: seq<YearMonth>)
    ensures |r| == |rows|
    ensures forall j :: 0 <= j < |rows| ==> r[j] == RowMonth(rows[j])
  {
    seq(|rows|, j requires 0 <= j < |rows| => RowMonth(rows[j]))
  }

  /** `m` is the monthly row of station `stationId` for its month. */
  ghost predicate IsMonthlyRowOf(m: MonthlyRow, stationId: string, obs: seq<Observation>)
  {
    && m.stationId == stationId
    && m.tmax == MonthlyMean(obs, RowMonth(m), "TMAX")
    && m.tmin == MonthlyMean(obs, RowMonth(m), "TMIN")
  }

  /**
   * The body of `create_monthly_averages` once the file is read
   * (clean_data.py:171-187): fails, naming the missing columns, when the
   * station has no TMAX or no TMIN reading at all; otherwise one row per
   * month that has any reading, in ascending (Year, Month) order.
   */
  function MonthlyTable(stationId: string, obs: seq<Observation>): (r: Result<seq<MonthlyRow>>)
    ensures r.Failure? <==> !HasElement(obs, "TMAX") || !HasElement(obs, "TMIN")
    ensures r.Failure? ==> r.error == MissingColumns(MissingElements(obs))
    ensures r.Success? ==> Ascending(RowMonths(r.value), YearMonthLt)
    ensures r.Success? ==> forall ym :: ym in RowMonths(r.value) <==>
              exists i :: 0 <= i < |obs| && MonthOf(obs[i]) == ym
    ensures r.Success? ==> forall j :: 0 <= j < |r.value| ==> IsMonthlyRowOf(r.value[j], stationId, obs)
  {
    if !HasElement(obs, "TMAX") || !HasElement(obs, "TMIN") then
      Failure(MissingColumns(MissingElements(obs)))
    else
      YearMonthLtIsStrictTotal();
      var keys := SortedKeys(MonthsOf(obs), YearMonthLt);
      var rows := seq(|keys|, j requires 0 <= j < |keys| => MonthlyRowFor(stationId, obs, keys[j]));
      assert RowMonths(rows) == keys;
      Success(rows)
  }

  /** `create_monthly_averages`: a read failure is reported, not raised. */
  function CreateMonthlyAverages(stationId: string, file: Result<seq<Observation>>): (r: Result<seq<MonthlyRow>>)
    ensures r.Failure? <==> file.Failure? || !HasElement(file.value, "TMAX") || !HasElement(file.value, "TMIN")
    ensures file.Failure? ==> r.Failure? && r.error == file.error
    ensures file.Success? && r.Failure? ==> r.error == MissingColumns(MissingElements(file.value))
    ensures r.Success? ==> Ascending(RowMonths(r.value), YearMonthLt)
    ensures r.Success? ==> forall ym :: ym in RowMonths(r.value) <==>
              exists i :: 0 <= i < |file.value| && MonthOf(file.value[i]) == ym
    ensures r.Success? ==> forall j :: 0 <= j < |r.value| ==> IsMonthlyRowOf(r.value[j], stationId, file.value)
  {
    match file
    case Failure(e) => Failure(e)
    case Success(obs) => MonthlyTable(stationId, obs)
  }

  // ---------------------------------------------------------------------------
  // Yearly means
  // ---------------------------------------------------------------------------

  /** One row of the yearly table: Station_ID, Year, TMAX, TMIN. */
  datatype YearlyRow = YearlyRow(stationId: string, year: int, tmax: Option<real>, tmin: Option<real>)

  function YearOf(m: MonthlyRow): int
  {
    m.year
  }

  function Years(yearly: seq<YearlyRow>): (r: seq<int>)
    ensures |r| == |yearly|
    ensures forall j :: 0 <= j < |yearly| ==> r[j] == yearly[j].year
  {
    seq(|yearly|, j requires 0 <= j < |yearly| => yearly[j].year)
  }

  function TmaxOf(m: MonthlyRow): Option<real>
  {
    m.tmax
  }

  function TminOf(m: MonthlyRow): Option<real>
  {
    m.tmin
  }

  /** The monthly rows of year `y`, in table order. */
  function MonthsIn(monthly: seq<MonthlyRow>, y: int): seq<MonthlyRow>
  {
    Filter(monthly, MatchesKey(YearOf, y))
  }

  /**
   * One cell of the yearly table: the mean of year `y`'s present monthly
   * means in column `col`, absent exactly when every one of them is absent.
   */
  function YearlyMean(monthly: seq<MonthlyRow>, y: int, col: MonthlyRow -> Option<real>): (m: Option<real>)
    ensures m.None? <==> forall i :: 0 <= i < |monthly| && monthly[i].year == y ==> col(monthly[i]).None?
    ensures m.Some? ==> IsMeanOf(m.value, Present(Column(MonthsIn(monthly, y), col)))
  {
    var cells := Column(MonthsIn(monthly, y), col);
    YearlyMeanAbsent(monthly, y, col);
    MeanOfPresent(cells)
  }

  lemma {:induction false} YearlyMeanAbsent(monthly: seq<MonthlyRow>, y: int, col: MonthlyRow -> Option<real>)
    ensures MeanOfPresent(Column(MonthsIn(monthly, y), col)).None? <==>
            (forall i :: 0 <= i < |monthly| && monthly[i].year == y ==> col(monthly[i]).None?)
  {
    var g := MonthsIn(monthly, y);
    assert MeanOfPresent(Column(g, col)).None? <==> forall k :: 0 <= k < |g| ==> col(g[k]).None?;
    if forall k :: 0 <= k < |g| ==> col(g[k]).None? {
      GroupAbsentYearAbsent(monthly, y, col);
    }
    if forall i :: 0 <= i < |monthly| && monthly[i].year == y ==> col(monthly[i]).None? {
      YearAbsentGroupAbsent(monthly, y, col);
    }
  }

  lemma {:induction false} GroupAbsentYearAbsent(monthly: seq<MonthlyRow>, y: int, col: MonthlyRow -> Option<real>)
    requires forall k :: 0 <= k < |MonthsIn(monthly, y)| ==> col(MonthsIn(monthly, y)[k]).None?
    ensures forall i :: 0 <= i < |monthly| && monthly[i].year == y ==> col(monthly[i]).None?
  {
    var p := MatchesKey(YearOf, y);
    var g := MonthsIn(monthly, y);
    FilterSelectsExactly(monthly, p);
    var idx := Positions(monthly, p);
    forall i | 0 <= i < |monthly| && monthly[i].year == y ensures col(monthly[i]).None? {
      assert p(monthly[i]);
      assert i in idx;
      var k :| 0 <= k < |idx| && idx[k] == i;
      assert g[k] == monthly[i];
    }
  }

  lemma {:induction false} YearAbsentGroupAbsent(monthly: seq<MonthlyRow>, y: int, col: MonthlyRow -> Option<real>)
    requires forall i :: 0 <= i < |monthly| && monthly[i].year == y ==> col(monthly[i]).None?
    ensures forall k :: 0 <= k < |MonthsIn(monthly, y)| ==> col(MonthsIn(monthly, y)[k]).None?
  {
    var p := MatchesKey(YearOf, y);
    var g := MonthsIn(monthly, y);
    FilterSelectsExactly(monthly, p);
    var idx := Positions(monthly, p);
    forall k | 0 <= k < |g| ensures col(g[k]).None? {
      assert g[k] == monthly[idx[k]] && p(g[k]);
    }
  }

  /**
   * A yearly mean lies between the smallest and the largest monthly mean of
   * its year in the same column.
   */
  lemma {:induction false} YearlyMeanWithin(monthly: seq<MonthlyRow>, y: int, col: MonthlyRow -> Option<real>, lo: real, hi: real)
    requires forall i :: 0 <= i < |monthly| && monthly[i].year == y && col(monthly[i]).Some? ==>
               lo <= col(monthly[i]).value <= hi
    ensures YearlyMean(monthly, y, col).Some? ==> lo <= YearlyMean(monthly, y, col).value <= hi
  {
    var p := MatchesKey(YearOf, y);
    var g := MonthsIn(monthly, y);
    var cells := Column(g, col);
    FilterSelectsExactly(monthly, p);
    var idx := Positions(monthly, p);
    forall k | 0 <= k < |cells| && cells[k].Some? ensures lo <= cells[k].value <= hi {
      assert g[k] == monthly[idx[k]] && p(g[k]);
    }
    MeanOfPresentWithin(cells, lo, hi);
  }

  /**
   * `r` is the yearly row of its year: Station_ID from the year's first
   * monthly row, and TMAX and TMIN the yearly means of their columns.
   */
  ghost predicate IsYearlyRowOf(r: YearlyRow, monthly: seq<MonthlyRow>)
  {
    && r.year in Keys(monthly, YearOf)
    && r.stationId == monthly[FirstIndex(monthly, YearOf, r.year)].stationId
    && r.tmax == YearlyMean(monthly, r.year, TmaxOf)
    && r.tmin == YearlyMean(monthly, r.year, TminOf)
  }

  function YearlyRowFor(monthly: seq<MonthlyRow>, y: int): (r: YearlyRow)
    requires y in Keys(monthly, YearOf)
    ensures r.year == y
    ensures exists i :: && 0 <= i < |monthly| && monthly[i].year == y
                        && (forall k :: 0 <= k < i ==> monthly[k].year != y)
                        && r.stationId == monthly[i].stationId
    ensures r.tmax.None? <==> forall i :: 0 <= i < |monthly| && monthly[i].year == y ==> monthly[i].tmax.None?
    ensures r.tmin.None? <==> forall i :: 0 <= i < |monthly| && monthly[i].year == y ==> monthly[i].tmin.None?
    ensures r.tmax.Some? ==> IsMeanOf(r.tmax.value, Present(Column(MonthsIn(monthly, y), TmaxOf)))
    ensures r.tmin.Some? ==> IsMeanOf(r.tmin.value, Present(Column(MonthsIn(monthly, y), TminOf)))
    ensures IsYearlyRowOf(r, monthly)
  {
    YearlyRow(monthly[FirstIndex(monthly, YearOf, y)].stationId, y,
              YearlyMean(monthly, y, TmaxOf), YearlyMean(monthly, y, TminOf))
  }

  /**
   * The body of `create_yearly_averages` once the file is read
   * (clean_data.py:219-229): one row per year of the monthly table, in
   * ascending order, each the yearly row of its year.
   */
  function YearlyTable(monthly: seq<MonthlyRow>): (r: seq<YearlyRow>)
    ensures Ascending(Years(r), IntLt)
    ensures forall y :: y in Years(r) <==> exists i :: 0 <= i < |monthly| && monthly[i].year == y
    ensures forall j :: 0 <= j < |r| ==> IsYearlyRowOf(r[j], monthly)
  {
    IntLtIsStrictTotal();
    var keys := SortedKeys(Column(monthly, YearOf), IntLt);
    assert forall y :: y in keys <==> y in Keys(monthly, YearOf) by {
      forall y ensures y in keys <==> y in Keys(monthly, YearOf) {
        if y in keys {
          var i :| 0 <= i < |monthly| && Column(monthly, YearOf)[i] == y;
          assert monthly[i] in monthly;
        }
        if y in Keys(monthly, YearOf) {
          var x :| x in monthly && YearOf(x) == y;
          var i :| 0 <= i < |monthly| && monthly[i] == x;
          assert Column(monthly, YearOf)[i] == y;
        }
      }
    }
    var r := seq(|keys|, j requires 0 <= j < |keys| => YearlyRowFor(monthly, keys[j]));
    assert Years(r) == keys;
    r
  }

  /** `create_yearly_averages`: a read failure is reported, not raised. */
  function CreateYearlyAverages(file: Result<seq<MonthlyRow>>): (r: Result<seq<YearlyRow>>)
    ensures r.Success? <==> file.Success?
    ensures file.Failure? ==> r.error == file.error
    ensures r.Success? ==> Ascending(Years(r.value), IntLt)
    ensures r.Success? ==> forall y :: y in Years(r.value) <==>
              exists i :: 0 <= i < |file.value| && file.value[i].year == y
    ensures r.Success? ==> forall j :: 0 <= j < |r.value| ==> IsYearlyRowOf(r.value[j], file.value)
  {
    match file
    case Failure(e) => Failure(e)
    case Success(monthly) => Success(YearlyTable(monthly))
  }

  // ---------------------------------------------------------------------------
  // The two steps together
  // ---------------------------------------------------------------------------

  /** Every yearly row built from a station's monthly table carries that station's identifier. */
  lemma {:induction false} YearlyKeepsStation(stationId: string, obs: seq<Observation>)
    requires MonthlyTable(stationId, obs).Success?
    ensures forall j :: 0 <= j < |YearlyTable(MonthlyTable(stationId, obs).value)| ==>
              YearlyTable(MonthlyTable(stationId, obs).value)[j].stationId == stationId
  {
    var monthly := MonthlyTable(stationId, obs).value;
    var r := YearlyTable(monthly);
    forall j | 0 <= j < |r| ensures r[j].stationId == stationId {
      assert IsYearlyRowOf(r[j], monthly);
      assert IsMonthlyRowOf(monthly[FirstIndex(monthly, YearOf, r[j].year)], stationId, obs);
    }
  }

  /** Three January TMAX readings of one station. */
  function JanuaryReadings(): seq<Observation>
  {
    [Observation("X", 2000, 1, 1, "TMAX", 20.0),
     Observation("X", 2000, 1, 2, "TMAX", 22.0),
     Observation("X", 2000, 1, 3, "TMAX", 21.0)]
  }

  /** All three readings fall in January 2000 and are TMAX, so all are averaged. */
  lemma JanuaryReadingsSelected()
    ensures Readings(JanuaryReadings(), YearMonth(2000, 1), "TMAX") == [20.0, 22.0, 21.0]
  {
    var obs := JanuaryReadings();
    var p := InMonth(YearMonth(2000, 1), "TMAX");
    assert p(obs[0]) && p(obs[1]) && p(obs[2]);
    FilterAll(obs, p);
    assert Values(obs) == [20.0, 22.0, 21.0];
  }

  /** Daily TMAX readings of 20.0, 22.0 and 21.0 in January give a monthly mean of 21.0. */
  lemma MonthlyExample()
    ensures MonthlyMean(JanuaryReadings(), YearMonth(2000, 1), "TMAX") == Some(21.0)
  {
    JanuaryReadingsSelected();
    MeanOfFew(20.0, 22.0, 21.0);
  }

  /**
   * Monthly TMAX means of 21.0 and 18.0 give a yearly mean of 19.5: the mean
   * of the monthly means, not of the daily readings.
   */
  lemma YearlyExample()
    ensures YearlyMean([MonthlyRow("X", 2000, 1, Some(21.0), None),
                        MonthlyRow("X", 2000, 2, Some(18.0), None)], 2000, TmaxOf) == Some(19.5)
  {
    var monthly := [MonthlyRow("X", 2000, 1, Some(21.0), None),
                    MonthlyRow("X", 2000, 2, Some(18.0), None)];
    assert YearOf(monthly[0]) == 2000 && YearOf(monthly[1]) == 2000;
    FilterAll(monthly, MatchesKey(YearOf, 2000));
    var cells := Column(MonthsIn(monthly, 2000), TmaxOf);
    assert cells == [Some(21.0), Some(18.0)];
    assert Present(cells) == [21.0, 18.0] by {
      assert Init(cells) == [Some(21.0)];
      assert Init([Some(21.0)]) == [];
    }
    MeanOfFew(21.0, 18.0, 0.0);
  }
}

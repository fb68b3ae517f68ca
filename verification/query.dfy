/**
 * The query side of the front-end (main.py): reconciling the two year inputs
 * (`validate_years`, main.py:342-365) and choosing the stations to show
 * (`update_stations_selection`, main.py:261-303). The great-circle distance is
 * a parameter: whatever function computes it, the selection is the same
 * function of the distances it produces.
 */
module Query {
  import opened Tables
  import opened Ordering
  import opened Stations

  // ---------------------------------------------------------------------------
  // `validate_years`
  // ---------------------------------------------------------------------------

  const EarliestYear: int := 0
  const LatestYear: int := 2024

  /** Which input fired the callback, `ctx.triggered_id`. */
  datatype Trigger = YearFromInput | YearToInput | OtherInput

  /** The callback's two outputs, in their order: year-to first, then year-from. */
  datatype YearOutputs = YearOutputs(yearTo: int, yearFrom: int)

  /** `v if v else default`: an empty input and a zero are both falsy. */
  function OrDefault(v: Option<int>, default: int): (r: int)
    ensures v.None? || v == Some(0) ==> r == default
    ensures v.Some? && v.value != 0 ==> r == v.value
  {
    if v.Some? && v.value != 0 then v.value else default
  }

  /** `max(0, min(2024, x))`. */
  function Clamp(x: int): (r: int)
    ensures EarliestYear <= r <= LatestYear
    ensures EarliestYear <= x <= LatestYear ==> r == x
    ensures x < EarliestYear ==> r == EarliestYear
    ensures x > LatestYear ==> r == LatestYear
  {
    if x > LatestYear then LatestYear else if x < EarliestYear then EarliestYear else x
  }

  /** The year-from input after defaulting and clamping (main.py:353). */
  function CleanFrom(yearFrom: Option<int>): int
  {
    Clamp(OrDefault(yearFrom, EarliestYear))
  }

  /** The year-to input after defaulting and clamping (main.py:354). */
  function CleanTo(yearTo: Option<int>): int
  {
    Clamp(OrDefault(yearTo, LatestYear))
  }

  /**
   * `validate_years`: both years are brought into [0, 2024]; the input that
   * fired keeps its cleaned value, and the other one moves only when the two
   * would cross, and then exactly onto it.
   */
  function ValidateYears(trigger: Trigger, yearFrom: Option<int>, yearTo: Option<int>): (r: YearOutputs)
    ensures EarliestYear <= r.yearFrom <= LatestYear && EarliestYear <= r.yearTo <= LatestYear
    ensures trigger == YearFromInput ==>
              && r.yearFrom == CleanFrom(yearFrom)
              && r.yearFrom <= r.yearTo
              && CleanTo(yearTo) <= r.yearTo
              && (r.yearTo == CleanTo(yearTo) || r.yearTo == r.yearFrom)
    ensures trigger == YearToInput ==>
              && r.yearTo == CleanTo(yearTo)
              && r.yearFrom <= r.yearTo
              && r.yearFrom <= CleanFrom(yearFrom)
              && (r.yearFrom == CleanFrom(yearFrom) || r.yearFrom == r.yearTo)
    ensures trigger == OtherInput ==> r == YearOutputs(CleanTo(yearTo), CleanFrom(yearFrom))
  {
    var from := CleanFrom(yearFrom);
    var to := CleanTo(yearTo);
    match trigger
    case YearFromInput => if from > to then YearOutputs(from, from) else YearOutputs(to, from)
    case YearToInput => if to < from then YearOutputs(to, to) else YearOutputs(to, from)
    case OtherInput => YearOutputs(to, from)
  }

  /**
   * The defaults: an empty year-from reads as 0 and an empty year-to as 2024,
   * and so does an explicit year-to of 0, because 0 is falsy.
   */
  lemma ValidateYearsDefaults(trigger: Trigger)
    ensures ValidateYears(trigger, None, None) == YearOutputs(LatestYear, EarliestYear)
    ensures ValidateYears(trigger, Some(0), Some(0)) == YearOutputs(LatestYear, EarliestYear)
    ensures ValidateYears(YearToInput, Some(1990), Some(0)).yearTo == LatestYear
  {
  }

  /**
   * A window the callback returns is returned again unchanged when fed back,
   * whichever input fires, as long as its year-to is not 0 (a year-to of 0 is
   * falsy and would be read as 2024).
   */
  lemma ValidateYearsStable(trigger: Trigger, yearFrom: Option<int>, yearTo: Option<int>, again: Trigger)
    requires trigger != OtherInput
    requires ValidateYears(trigger, yearFrom, yearTo).yearTo != 0
    ensures var r := ValidateYears(trigger, yearFrom, yearTo);
            ValidateYears(again, Some(r.yearFrom), Some(r.yearTo)) == r
  {
  }

  /** A year-to below the range is clamped to 0, which fed back would read as 2024. */
  lemma ValidateYearsZeroNotStable()
    ensures ValidateYears(YearToInput, Some(1990), Some(-5)) == YearOutputs(0, 0)
    ensures ValidateYears(YearToInput, Some(0), Some(0)) == YearOutputs(LatestYear, 0)
  {
  }

  // ---------------------------------------------------------------------------
  // `nsmallest(n, column)` with keep='first'
  // ---------------------------------------------------------------------------

  /** How many rows `nsmallest(n, ...)` returns from a table of `len` rows. */
  function TakeCount(n: int, len: nat): (k: nat)
    ensures k <= len
    ensures n <= 0 ==> k == 0
    ensures 0 <= n <= len ==> k == n
    ensures n > len ==> k == len
  {
    if n <= 0 then 0 else if n < len then n else len
  }

  /**
   * `nsmallest(n, key)`: the `n` rows with the smallest key, in ascending key
   * order, rows with equal keys in table order and the earlier ones preferred
   * when not all of them fit.
   */
  function NSmallest<T(==)>(rows: seq<T>, n: int, key: T -> real): (r: seq<T>)
    ensures |r| == TakeCount(n, |rows|)
    ensures SortedBy(r, key)
    ensures multiset(r) <= multiset(rows)
    ensures forall x :: x in multiset(rows) - multiset(r) ==> forall j :: 0 <= j < |r| ==> key(r[j]) <= key(x)
    ensures forall d :: Ties(r, key, d) <= Ties(rows, key, d)
  {
    var sorted := StableSort(rows, key);
    var k := TakeCount(n, |rows|);
    var r := sorted[..k];
    NSmallestSplit(sorted, k, key);
    NSmallestTies(rows, sorted, k, key);
    r
  }

  lemma {:induction false} NSmallestSplit<T>(sorted: seq<T>, k: nat, key: T -> real)
    requires k <= |sorted| && SortedBy(sorted, key)
    ensures SortedBy(sorted[..k], key)
    ensures multiset(sorted) == multiset(sorted[..k]) + multiset(sorted[k..])
    ensures forall x :: x in multiset(sorted) - multiset(sorted[..k]) ==>
              forall j :: 0 <= j < k ==> key(sorted[j]) <= key(x)
  {
    var r, rest := sorted[..k], sorted[k..];
    assert sorted == r + rest;
    forall x | x in multiset(sorted) - multiset(r) ensures forall j :: 0 <= j < k ==> key(sorted[j]) <= key(x) {
      assert x in multiset(rest);
      assert x in rest;
      var i :| 0 <= i < |rest| && rest[i] == x;
      assert sorted[k + i] == x;
    }
  }

  lemma {:induction false} NSmallestTies<T>(rows: seq<T>, sorted: seq<T>, k: nat, key: T -> real)
    requires sorted == StableSort(rows, key) && k <= |sorted|
    ensures forall d :: Ties(sorted[..k], key, d) <= Ties(rows, key, d)
  {
    forall d ensures Ties(sorted[..k], key, d) <= Ties(rows, key, d) {
      assert sorted == sorted[..k] + sorted[k..];
      FilterAppend(sorted[..k], sorted[k..], KeyIs(key, d));
      StableSortKeepsTies(rows, key, d);
    }
  }

  // ---------------------------------------------------------------------------
  // `update_stations_selection`
  // ---------------------------------------------------------------------------

  /** A station with its distance from the query point: one record of the selection. */
  datatype Located = Located(station: Station, distance: real)

  function Distance(l: Located): real
  {
    l.distance
  }

  /** The `Distance` column for every station (main.py:278-281, 292-295). */
  function Locate(stations: seq<Station>, lat: real, lon: real,
                  haversine: (real, real, real, real) -> real): (r: seq<Located>)
    ensures |r| == |stations|
    ensures forall j :: 0 <= j < |stations| ==>
              r[j] == Located(stations[j], haversine(lat, lon, stations[j].latitude, stations[j].longitude))
  {
    seq(|stations|, j requires 0 <= j < |stations| =>
      Located(stations[j], haversine(lat, lon, stations[j].latitude, stations[j].longitude)))
  }

  /**
   * The row mask of main.py:283-286: the station's coverage overlaps the
   * window and it lies within the radius. An empty year or radius input is
   * `None`, which pandas compares as NaN: every comparison with it is false,
   * so no station qualifies.
   */
  function Qualifies(yearFrom: Option<int>, yearTo: Option<int>, radius: Option<real>): Located -> bool
  {
    (l: Located) =>
      && yearTo.Some? && yearFrom.Some? && radius.Some?
      && l.station.firstYear <= yearTo.value && l.station.lastYear >= yearFrom.value
      && l.distance <= radius.value
  }

  /** The qualifying stations, each with its distance, in table order. */
  function Candidates(stations: seq<Station>, lat: real, lon: real, radius: Option<real>,
                      yearFrom: Option<int>, yearTo: Option<int>,
                      haversine: (real, real, real, real) -> real): seq<Located>
  {
    Filter(Locate(stations, lat, lon, haversine), Qualifies(yearFrom, yearTo, radius))
  }

  /**
   * `r` is a correct answer to the query: every station shown overlaps the
   * year window, lies within the radius and carries its true distance; there
   * are `count` of them or all qualifying ones if fewer; they are nearest
   * first, equally distant ones in table order; and every qualifying station
   * left out is at least as far as every one shown. With an empty year or
   * radius input nothing is shown.
   */
  ghost predicate IsSelection(r: seq<Located>, stations: seq<Station>, lat: real, lon: real, radius: Option<real>,
                              count: int, yearFrom: Option<int>, yearTo: Option<int>,
                              haversine: (real, real, real, real) -> real)
  {
    var q := Candidates(stations, lat, lon, radius, yearFrom, yearTo, haversine);
    && (yearFrom.None? || yearTo.None? || radius.None? ==> r == [])
    && (forall j :: 0 <= j < |r| ==>
          && yearFrom.Some? && yearTo.Some? && radius.Some?
          && r[j].station.firstYear <= yearTo.value
          && r[j].station.lastYear >= yearFrom.value
          && r[j].distance <= radius.value
          && r[j].station in stations
          && r[j].distance == haversine(lat, lon, r[j].station.latitude, r[j].station.longitude))
    && |r| == TakeCount(count, |q|)
    && SortedBy(r, Distance)
    && (forall x :: x in multiset(q) - multiset(r) ==> forall j :: 0 <= j < |r| ==> r[j].distance <= x.distance)
    && (forall d :: Ties(r, Distance, d) <= Ties(q, Distance, d))
  }

  /**
   * The stations shown for a query, main.py:283-287: the nearest `count`
   * qualifying stations, nearest first.
   */
  function SelectStations(stations: seq<Station>, lat: real, lon: real, radius: Option<real>, count: int,
                          yearFrom: Option<int>, yearTo: Option<int>,
                          haversine: (real, real, real, real) -> real): (r: seq<Located>)
    ensures IsSelection(r, stations, lat, lon, radius, count, yearFrom, yearTo, haversine)
  {
    var located := Locate(stations, lat, lon, haversine);
    var q := Filter(located, Qualifies(yearFrom, yearTo, radius));
    var r := NSmallest(q, count, Distance);
    SelectionFacts(located, q, r, stations, lat, lon, yearFrom, yearTo, radius, haversine);
    EmptyInputSelectsNothing(located, yearFrom, yearTo, radius);
    r
  }

  /** With an empty year or radius input no station qualifies. */
  lemma {:induction false} EmptyInputSelectsNothing(located: seq<Located>, yearFrom: Option<int>, yearTo: Option<int>,
                                                    radius: Option<real>)
    ensures yearFrom.None? || yearTo.None? || radius.None? ==> Filter(located, Qualifies(yearFrom, yearTo, radius)) == []
  {
    var p := Qualifies(yearFrom, yearTo, radius);
    FilterEmpty(located, p);
    if yearFrom.None? || yearTo.None? || radius.None? {
      assert forall i :: 0 <= i < |located| ==> !p(located[i]);
    }
  }

  lemma {:induction false} SelectionFacts(located: seq<Located>, q: seq<Located>, r: seq<Located>, stations: seq<Station>,
                       lat: real, lon: real, yearFrom: Option<int>, yearTo: Option<int>, radius: Option<real>,
                       haversine: (real, real, real, real) -> real)
    requires located == Locate(stations, lat, lon, haversine)
    requires q == Filter(located, Qualifies(yearFrom, yearTo, radius))
    requires multiset(r) <= multiset(q)
    ensures forall j :: 0 <= j < |r| ==>
              && yearFrom.Some? && yearTo.Some? && radius.Some?
              && r[j].station.firstYear <= yearTo.value
              && r[j].station.lastYear >= yearFrom.value
              && r[j].distance <= radius.value
              && r[j].station in stations
              && r[j].distance == haversine(lat, lon, r[j].station.latitude, r[j].station.longitude)
  {
    var p := Qualifies(yearFrom, yearTo, radius);
    FilterSelectsExactly(located, p);
    var idx := Positions(located, p);
    forall j | 0 <= j < |r|
      ensures && yearFrom.Some? && yearTo.Some? && radius.Some?
              && r[j].station.firstYear <= yearTo.value
              && r[j].station.lastYear >= yearFrom.value
              && r[j].distance <= radius.value
              && r[j].station in stations
              && r[j].distance == haversine(lat, lon, r[j].station.latitude, r[j].station.longitude)
    {
      assert r[j] in multiset(r);
      assert r[j] in q;
      var k :| 0 <= k < |q| && q[k] == r[j];
      assert p(q[k]) && q[k] == located[idx[k]];
      assert located[idx[k]].station == stations[idx[k]];
    }
  }

  /**
   * `update_stations_selection`: the figure is passed through unchanged and
   * the selection is a correct answer to the query whatever the click count;
   * the initial call (`n_clicks is None`, main.py:276-289) computes what a
   * click computes (main.py:291-303).
   */
  function UpdateStationsSelection<F>(nClicks: Option<int>, radius: Option<real>, count: int,
                                      yearFrom: Option<int>, yearTo: Option<int>,
                                      lat: real, lon: real, figure: F, stations: seq<Station>,
                                      haversine: (real, real, real, real) -> real): (r: (F, seq<Located>))
    ensures r.0 == figure
    ensures IsSelection(r.1, stations, lat, lon, radius, count, yearFrom, yearTo, haversine)
  {
    if nClicks.None? then
      (figure, SelectStations(stations, lat, lon, radius, count, yearFrom, yearTo, haversine))
    else
      (figure, SelectStations(stations, lat, lon, radius, count, yearFrom, yearTo, haversine))
  }

  /** The initial call and a click give the same figure and the same selection. */
  lemma InitialCallAgrees<F>(clicks: int, radius: Option<real>, count: int, yearFrom: Option<int>, yearTo: Option<int>,
                             lat: real, lon: real, figure: F, stations: seq<Station>,
                             haversine: (real, real, real, real) -> real)
    ensures UpdateStationsSelection(None, radius, count, yearFrom, yearTo, lat, lon, figure, stations, haversine) ==
            UpdateStationsSelection(Some(clicks), radius, count, yearFrom, yearTo, lat, lon, figure, stations, haversine)
  {
  }
}

/**
 * The station table (clean_data.py:97-115): the canonical station inventory
 * grouped by Station_ID, one row per station in ascending identifier order,
 * with the position and name of the group's first row that has them, the
 * latest first-year and the earliest last-year of the group.
 */
module Stations {
  import opened Tables
  import opened Ordering
  import opened Stats
  import opened Inventory

  /** One row of the station table. */
  datatype Station = Station(
    stationId: string,
    latitude: real,
    longitude: real,
    firstYear: int,
    lastYear: int,
    name: Option<string>)

  function RowStation(x: StationInventoryRow): string
  {
    x.stationId
  }

  /** The predicate "this row is for station `id` and has a name". */
  function NamedRowOf(id: string): StationInventoryRow -> bool
  {
    (x: StationInventoryRow) => x.stationId == id && x.name.Some?
  }

  function Ids(stations: seq<Station>): (r: seq<string>)
    ensures |r| == |stations|
    ensures forall j :: 0 <= j < |stations| ==> r[j] == stations[j].stationId
  {
    seq(|stations|, j requires 0 <= j < |stations| => stations[j].stationId)
  }

  function FirstYears(g: seq<StationInventoryRow>): (r: seq<int>)
    ensures |r| == |g|
    ensures forall j :: 0 <= j < |g| ==> r[j] == g[j].firstYear
  {
    seq(|g|, j requires 0 <= j < |g| => g[j].firstYear)
  }

  function LastYears(g: seq<StationInventoryRow>): (r: seq<int>)
    ensures |r| == |g|
    ensures forall j :: 0 <= j < |g| ==> r[j] == g[j].lastYear
  {
    seq(|g|, j requires 0 <= j < |g| => g[j].lastYear)
  }

  /**
   * `s` is the aggregate of the rows for its station: position from the first
   * such row, FirstYear the largest and LastYear the smallest of the group,
   * and the name of the first row of the group that has one.
   */
  ghost predicate IsAggregateOf(s: Station, rows: seq<StationInventoryRow>)
  {
    var id := s.stationId;
    && id in Keys(rows, RowStation)
    && s.latitude == rows[FirstIndex(rows, RowStation, id)].latitude
    && s.longitude == rows[FirstIndex(rows, RowStation, id)].longitude
    && (exists i :: 0 <= i < |rows| && rows[i].stationId == id && rows[i].firstYear == s.firstYear)
    && (forall i :: 0 <= i < |rows| && rows[i].stationId == id ==> rows[i].firstYear <= s.firstYear)
    && (exists i :: 0 <= i < |rows| && rows[i].stationId == id && rows[i].lastYear == s.lastYear)
    && (forall i :: 0 <= i < |rows| && rows[i].stationId == id ==> s.lastYear <= rows[i].lastYear)
    && (s.name.None? ==> forall i :: 0 <= i < |rows| && rows[i].stationId == id ==> rows[i].name.None?)
    && (s.name.Some? ==> exists i :: 0 <= i < |rows| && rows[i].stationId == id && rows[i].name == s.name &&
                                     forall k :: 0 <= k < i && rows[k].stationId == id ==> rows[k].name.None?)
  }

  /** The aggregated row for station `id`, one of the stations of `rows`. */
  function Summarise(rows: seq<StationInventoryRow>, id: string): (s: Station)
    requires id in Keys(rows, RowStation)
    ensures s.stationId == id && IsAggregateOf(s, rows)
  {
    var g := Filter(rows, MatchesKey(RowStation, id));
    GroupOf(rows, id);
    var first := rows[FirstIndex(rows, RowStation, id)];
    var s := Station(id, first.latitude, first.longitude, MaxOf(FirstYears(g)), MinOf(LastYears(g)),
                     FirstPresentName(rows, id));
    SummariseFacts(rows, id, s);
    s
  }

  /** The group of a station that occurs is not empty. */
  lemma {:induction false} GroupOf(rows: seq<StationInventoryRow>, id: string)
    requires id in Keys(rows, RowStation)
    ensures |Filter(rows, MatchesKey(RowStation, id))| > 0
  {
    FilterSelectsExactly(rows, MatchesKey(RowStation, id));
    var i := FirstIndex(rows, RowStation, id);
    assert MatchesKey(RowStation, id)(rows[i]);
    assert i in Positions(rows, MatchesKey(RowStation, id));
  }

  /** The name of the first row for station `id` that has one. */
  function FirstPresentName(rows: seq<StationInventoryRow>, id: string): (name: Option<string>)
    ensures name.None? ==> forall i :: 0 <= i < |rows| && rows[i].stationId == id ==> rows[i].name.None?
    ensures name.Some? ==> exists i :: 0 <= i < |rows| && rows[i].stationId == id && rows[i].name == name &&
                                       forall k :: 0 <= k < i && rows[k].stationId == id ==> rows[k].name.None?
  {
    var m := FirstMatch(rows, NamedRowOf(id));
    if m.None? then
      assert forall i :: 0 <= i < |rows| ==> !NamedRowOf(id)(rows[i]);
      None
    else
      var i :| 0 <= i < |rows| && rows[i] == m.value && NamedRowOf(id)(rows[i]) &&
               forall k :: 0 <= k < i ==> !NamedRowOf(id)(rows[k]);
      assert forall k :: 0 <= k < i && rows[k].stationId == id ==> rows[k].name.None?;
      rows[i].name
  }

  lemma {:induction false} SummariseFacts(rows: seq<StationInventoryRow>, id: string, s: Station)
    requires id in Keys(rows, RowStation) && s.stationId == id
    requires |Filter(rows, MatchesKey(RowStation, id))| > 0
    requires var first := rows[FirstIndex(rows, RowStation, id)];
             s.latitude == first.latitude && s.longitude == first.longitude
    requires s.firstYear == MaxOf(FirstYears(Filter(rows, MatchesKey(RowStation, id))))
    requires s.lastYear == MinOf(LastYears(Filter(rows, MatchesKey(RowStation, id))))
    requires s.name == FirstPresentName(rows, id)
    ensures IsAggregateOf(s, rows)
  {
    var p := MatchesKey(RowStation, id);
    var g := Filter(rows, p);
    FilterSelectsExactly(rows, p);
    var idx := Positions(rows, p);
    GroupYears(rows, id, g, idx, s.firstYear, s.lastYear);
  }

  lemma {:induction false} GroupYears(rows: seq<StationInventoryRow>, id: string, g: seq<StationInventoryRow>,
                                      idx: seq<nat>, hi: int, lo: int)
    requires SelectsExactly(g, rows, MatchesKey(RowStation, id), idx) && |g| > 0
    requires hi in FirstYears(g) && forall j :: 0 <= j < |g| ==> g[j].firstYear <= hi
    requires lo in LastYears(g) && forall j :: 0 <= j < |g| ==> lo <= g[j].lastYear
    ensures exists i :: 0 <= i < |rows| && rows[i].stationId == id && rows[i].firstYear == hi
    ensures forall i :: 0 <= i < |rows| && rows[i].stationId == id ==> rows[i].firstYear <= hi
    ensures exists i :: 0 <= i < |rows| && rows[i].stationId == id && rows[i].lastYear == lo
    ensures forall i :: 0 <= i < |rows| && rows[i].stationId == id ==> lo <= rows[i].lastYear
  {
    var jh :| 0 <= jh < |g| && FirstYears(g)[jh] == hi;
    assert MatchesKey(RowStation, id)(g[jh]);
    assert RowStation(g[jh]) == id;
    assert g[jh] == rows[idx[jh]];
    assert rows[idx[jh]].stationId == id && rows[idx[jh]].firstYear == hi;
    var jl :| 0 <= jl < |g| && LastYears(g)[jl] == lo;
    assert MatchesKey(RowStation, id)(g[jl]);
    assert RowStation(g[jl]) == id;
    assert g[jl] == rows[idx[jl]];
    assert rows[idx[jl]].stationId == id && rows[idx[jl]].lastYear == lo;
    forall i | 0 <= i < |rows| && rows[i].stationId == id
      ensures rows[i].firstYear <= hi && lo <= rows[i].lastYear
    {
      assert RowStation(rows[i]) == id;
      assert MatchesKey(RowStation, id)(rows[i]);
      assert i in idx;
      var j :| 0 <= j < |idx| && idx[j] == i;
    }
  }

  /**
   * `groupby('Station_ID').agg(...)` followed by `reset_index()`: one row per
   * distinct station, in ascending identifier order, each the aggregate of
   * that station's rows.
   */
  function AggregateStations(rows: seq<StationInventoryRow>): (r: seq<Station>)
    ensures Ascending(Ids(r), StrLt)
    ensures forall id :: id in Ids(r) <==> id in Keys(rows, RowStation)
    ensures forall j :: 0 <= j < |r| ==> IsAggregateOf(r[j], rows)
  {
    StrLtIsStrictTotal();
    var keys := SortedKeys(Column(rows, RowStation), StrLt);
    assert forall id :: id in keys <==> id in Keys(rows, RowStation) by {
      forall id ensures id in keys <==> id in Keys(rows, RowStation) {
        if id in keys {
          var i :| 0 <= i < |rows| && Column(rows, RowStation)[i] == id;
          assert rows[i] in rows;
        }
        if id in Keys(rows, RowStation) {
          var x :| x in rows && RowStation(x) == id;
          var i :| 0 <= i < |rows| && rows[i] == x;
          assert Column(rows, RowStation)[i] == id;
        }
      }
    }
    var r := seq(|keys|, j requires 0 <= j < |keys| => Summarise(rows, keys[j]));
    assert Ids(r) == keys;
    r
  }

  /**
   * One station per distinct identifier: no identifier appears twice, and the
   * station table is the only ascending listing of those identifiers.
   */
  lemma {:induction false} AggregateStationsUnique(rows: seq<StationInventoryRow>, other: seq<string>)
    requires Ascending(other, StrLt)
    requires forall id :: id in other <==> id in Keys(rows, RowStation)
    ensures forall i, j :: 0 <= i < j < |AggregateStations(rows)| ==>
              AggregateStations(rows)[i].stationId != AggregateStations(rows)[j].stationId
    ensures Ids(AggregateStations(rows)) == other
  {
    var r := AggregateStations(rows);
    StrLtIsStrictTotal();
    forall i, j | 0 <= i < j < |r| ensures r[i].stationId != r[j].stationId {
      assert StrLt(Ids(r)[i], Ids(r)[j]);
    }
    AscendingUnique(Ids(r), other, StrLt);
  }

  /** The first temperature-inventory row recorded for (station `id`, element `e`). */
  ghost predicate FirstRecordBounds(clean: seq<InventoryRow>, id: string, e: string, s: Station)
    requires (id, e) in Keys(clean, InventoryKey)
  {
    var v := clean[FirstIndex(clean, InventoryKey, (id, e))];
    v.firstYear <= s.firstYear && s.lastYear <= v.lastYear
  }

  /**
   * The station table built from the canonical inventory: a station's
   * coverage is the latest first year and the earliest last year over the
   * first inventory rows of its elements, so it lies inside each element's
   * coverage and is attained by one of them at either end.
   */
  lemma {:induction false} StationCoverage(inventory: seq<InventoryRow>, registry: seq<RegistryRow>)
    ensures forall j :: 0 <= j < |AggregateStations(StationsInventory(inventory, registry))| ==>
              CoverageWithinRecords(KeepTemperatureRows(inventory),
                                    AggregateStations(StationsInventory(inventory, registry))[j])
  {
    var rows := StationsInventory(inventory, registry);
    var clean := KeepTemperatureRows(inventory);
    var stations := AggregateStations(rows);
    StationsInventoryContents(inventory, registry);
    forall j | 0 <= j < |stations| ensures CoverageWithinRecords(clean, stations[j]) {
      CoverageOfAggregate(clean, rows, stations[j]);
    }
  }

  /**
   * The coverage of station `s` lies inside the first inventory record of
   * each of its elements, and is attained by one of them at either end.
   */
  ghost predicate CoverageWithinRecords(clean: seq<InventoryRow>, s: Station)
  {
    && (forall e :: (s.stationId, e) in Keys(clean, InventoryKey) ==> FirstRecordBounds(clean, s.stationId, e, s))
    && (exists e :: (s.stationId, e) in Keys(clean, InventoryKey) &&
          clean[FirstIndex(clean, InventoryKey, (s.stationId, e))].firstYear == s.firstYear)
    && (exists e :: (s.stationId, e) in Keys(clean, InventoryKey) &&
          clean[FirstIndex(clean, InventoryKey, (s.stationId, e))].lastYear == s.lastYear)
  }

  lemma {:induction false} CoverageOfAggregate(clean: seq<InventoryRow>, rows: seq<StationInventoryRow>, s: Station)
    requires IsAggregateOf(s, rows)
    requires Keys(rows, StationKey) == Keys(clean, InventoryKey)
    requires forall j :: 0 <= j < |rows| ==>
               StationKey(rows[j]) in Keys(clean, InventoryKey) &&
               CarriesInventory(rows[j], clean[FirstIndex(clean, InventoryKey, StationKey(rows[j]))])
    ensures CoverageWithinRecords(clean, s)
  {
    CoverageBounds(clean, rows, s);
    var i1 :| 0 <= i1 < |rows| && rows[i1].stationId == s.stationId && rows[i1].firstYear == s.firstYear;
    var i2 :| 0 <= i2 < |rows| && rows[i2].stationId == s.stationId && rows[i2].lastYear == s.lastYear;
    CoverageAttained(clean, rows, s, i1, i2);
  }

  lemma {:induction false} CoverageAttained(clean: seq<InventoryRow>, rows: seq<StationInventoryRow>, s: Station,
                                            i1: nat, i2: nat)
    requires i1 < |rows| && rows[i1].stationId == s.stationId && rows[i1].firstYear == s.firstYear
    requires i2 < |rows| && rows[i2].stationId == s.stationId && rows[i2].lastYear == s.lastYear
    requires forall j :: 0 <= j < |rows| ==>
               StationKey(rows[j]) in Keys(clean, InventoryKey) &&
               CarriesInventory(rows[j], clean[FirstIndex(clean, InventoryKey, StationKey(rows[j]))])
    ensures exists e :: (s.stationId, e) in Keys(clean, InventoryKey) &&
              clean[FirstIndex(clean, InventoryKey, (s.stationId, e))].firstYear == s.firstYear
    ensures exists e :: (s.stationId, e) in Keys(clean, InventoryKey) &&
              clean[FirstIndex(clean, InventoryKey, (s.stationId, e))].lastYear == s.lastYear
  {
    RowCarriesFirstRecord(clean, rows, i1);
    RowCarriesFirstRecord(clean, rows, i2);
  }

  lemma {:induction false} CoverageBounds(clean: seq<InventoryRow>, rows: seq<StationInventoryRow>, s: Station)
    requires forall i :: 0 <= i < |rows| && rows[i].stationId == s.stationId ==>
               rows[i].firstYear <= s.firstYear && s.lastYear <= rows[i].lastYear
    requires Keys(rows, StationKey) == Keys(clean, InventoryKey)
    requires forall j :: 0 <= j < |rows| ==>
               StationKey(rows[j]) in Keys(clean, InventoryKey) &&
               CarriesInventory(rows[j], clean[FirstIndex(clean, InventoryKey, StationKey(rows[j]))])
    ensures forall e :: (s.stationId, e) in Keys(clean, InventoryKey) ==> FirstRecordBounds(clean, s.stationId, e, s)
  {
    forall e | (s.stationId, e) in Keys(clean, InventoryKey)
      ensures FirstRecordBounds(clean, s.stationId, e, s)
    {
      var i := FirstIndex(rows, StationKey, (s.stationId, e));
      assert rows[i].stationId == s.stationId && rows[i].element == e;
      RowCarriesFirstRecord(clean, rows, i);
    }
  }

  lemma {:induction false} RowCarriesFirstRecord(clean: seq<InventoryRow>, rows: seq<StationInventoryRow>, i: nat)
    requires i < |rows|
    requires forall j :: 0 <= j < |rows| ==>
               StationKey(rows[j]) in Keys(clean, InventoryKey) &&
               CarriesInventory(rows[j], clean[FirstIndex(clean, InventoryKey, StationKey(rows[j]))])
    ensures (rows[i].stationId, rows[i].element) in Keys(clean, InventoryKey)
    ensures var v := clean[FirstIndex(clean, InventoryKey, (rows[i].stationId, rows[i].element))];
            v.firstYear == rows[i].firstYear && v.lastYear == rows[i].lastYear
  {
    assert StationKey(rows[i]) == (rows[i].stationId, rows[i].element);
  }
}

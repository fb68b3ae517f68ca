/**
 * The inventory normalisation at module level in clean_data.py (lines 11-95):
 * keep the temperature rows of the station inventory, attach station names
 * from the registry through two left joins, and keep the first row for each
 * (station, element) pair.
 */
module Inventory {
  import opened Tables

  /** One line of the inventory file: a station observed one element over a year range. */
  datatype InventoryRow = InventoryRow(
    stationId: string,
    latitude: real,
    longitude: real,
    element: string,
    firstYear: int,
    lastYear: int)

  /** One line of the station registry: identifier and display name (NaN when blank). */
  datatype RegistryRow = RegistryRow(stationId: string, name: Option<string>)

  /** One row of the canonical station inventory. */
  datatype StationInventoryRow = StationInventoryRow(
    stationId: string,
    latitude: real,
    longitude: real,
    element: string,
    firstYear: int,
    lastYear: int,
    name: Option<string>)

  predicate IsTemperature(element: string)
  {
    element == "TMAX" || element == "TMIN"
  }

  predicate IsTemperatureRow(x: InventoryRow)
  {
    IsTemperature(x.element)
  }

  function InventoryStation(x: InventoryRow): string
  {
    x.stationId
  }

  function RegistryStation(x: RegistryRow): string
  {
    x.stationId
  }

  /** The (Station_ID, Element) pair that `drop_duplicates` compares. */
  function InventoryKey(x: InventoryRow): (string, string)
  {
    (x.stationId, x.element)
  }

  function StationKey(x: StationInventoryRow): (string, string)
  {
    (x.stationId, x.element)
  }

  /** No row of `names` is for station `id`. */
  ghost predicate NoRegistryRowFor(names: seq<RegistryRow>, id: string)
  {
    forall i :: 0 <= i < |names| ==> names[i].stationId != id
  }

  /** `x` carries the inventory columns of `v` unchanged. */
  ghost predicate CarriesInventory(x: StationInventoryRow, v: InventoryRow)
  {
    && x.stationId == v.stationId
    && x.latitude == v.latitude
    && x.longitude == v.longitude
    && x.element == v.element
    && x.firstYear == v.firstYear
    && x.lastYear == v.lastYear
  }

  // ---------------------------------------------------------------------------
  // The pipeline steps
  // ---------------------------------------------------------------------------

  /** Keeps the TMAX and TMIN rows: `inventory_df[inventory_df['Element'].isin([...])]`. */
  function KeepTemperatureRows(inventory: seq<InventoryRow>): (r: seq<InventoryRow>)
    ensures exists idx :: SelectsExactly(r, inventory, IsTemperatureRow, idx)
  {
    FilterSelectsExactly(inventory, IsTemperatureRow);
    Filter(inventory, IsTemperatureRow)
  }

  /**
   * The registry left-joined to the temperature inventory, read back with only
   * its Station_ID and Station_Name columns: every registry row in order, once
   * per matching inventory row, or once when there is none.
   */
  function RelevantStations(registry: seq<RegistryRow>, clean: seq<InventoryRow>): (r: seq<RegistryRow>)
    ensures exists o: seq<nat> ::
              && |o| == |r| && InOrderCovering(o, |registry|)
              && (forall j :: 0 <= j < |r| ==> r[j] == registry[o[j]])
              && (forall i :: 0 <= i < |registry| ==>
                    multiset(o)[i] == Fanout(registry[i], clean, RegistryStation, InventoryStation))
  {
    LeftsOfJoin(registry, clean, RegistryStation, InventoryStation);
    JoinOriginsCount(registry, clean, RegistryStation, InventoryStation);
    var o := JoinOrigins(registry, clean, RegistryStation, InventoryStation);
    Lefts(LeftJoin(registry, clean, RegistryStation, InventoryStation))
  }

  /** One joined row of the second merge as a station-inventory row. */
  function ToStationRow(j: Joined<InventoryRow, RegistryRow>): StationInventoryRow
  {
    var v := j.left;
    StationInventoryRow(v.stationId, v.latitude, v.longitude, v.element, v.firstYear, v.lastYear,
                        if j.right.Some? then j.right.value.name else None)
  }

  function ToStationRows(js: seq<Joined<InventoryRow, RegistryRow>>): (r: seq<StationInventoryRow>)
    ensures |r| == |js|
    ensures forall j :: 0 <= j < |js| ==> r[j] == ToStationRow(js[j])
  {
    seq(|js|, j requires 0 <= j < |js| => ToStationRow(js[j]))
  }

  /**
   * The temperature inventory left-joined to the relevant stations: every
   * inventory row is kept, in order, with its columns unchanged, once per
   * relevant-station row of its station or once when there is none. A station
   * the registry does not know gets an absent name; a present name is one the
   * registry lists for that station, and an absent name of a known station is
   * an absent name in the registry.
   */
  function AttachNames(clean: seq<InventoryRow>, relevant: seq<RegistryRow>): (r: seq<StationInventoryRow>)
    ensures exists o: seq<nat> ::
              && |o| == |r| && InOrderCovering(o, |clean|)
              && (forall j :: 0 <= j < |r| ==> CarriesInventory(r[j], clean[o[j]]))
              && (forall i :: 0 <= i < |clean| ==>
                    multiset(o)[i] == Fanout(clean[i], relevant, InventoryStation, RegistryStation))
    ensures forall j :: 0 <= j < |r| && r[j].name.Some? ==>
              exists m :: m in relevant && m.stationId == r[j].stationId && m.name == r[j].name
    ensures forall j :: 0 <= j < |r| && NoRegistryRowFor(relevant, r[j].stationId) ==> r[j].name.None?
    ensures forall j :: 0 <= j < |r| && r[j].name.None? ==>
              || NoRegistryRowFor(relevant, r[j].stationId)
              || exists m :: m in relevant && m.stationId == r[j].stationId && m.name.None?
  {
    var joined := LeftJoin(clean, relevant, InventoryStation, RegistryStation);
    AttachNamesOrigins(clean, relevant);
    AttachNamesNames(clean, relevant);
    ToStationRows(joined)
  }

  lemma {:induction false} AttachNamesOrigins(clean: seq<InventoryRow>, relevant: seq<RegistryRow>)
    ensures var r := ToStationRows(LeftJoin(clean, relevant, InventoryStation, RegistryStation));
            exists o: seq<nat> ::
              && |o| == |r| && InOrderCovering(o, |clean|)
              && (forall j :: 0 <= j < |r| ==> CarriesInventory(r[j], clean[o[j]]))
              && (forall i :: 0 <= i < |clean| ==>
                    multiset(o)[i] == Fanout(clean[i], relevant, InventoryStation, RegistryStation))
  {
    var joined := LeftJoin(clean, relevant, InventoryStation, RegistryStation);
    var o := JoinOrigins(clean, relevant, InventoryStation, RegistryStation);
    JoinOriginsCount(clean, relevant, InventoryStation, RegistryStation);
    var r := ToStationRows(joined);
    forall j | 0 <= j < |r| ensures CarriesInventory(r[j], clean[o[j]]) {
      assert r[j] == ToStationRow(joined[j]);
      assert joined[j].left == clean[o[j]];
    }
    assert |o| == |r| && InOrderCovering(o, |clean|);
  }

  lemma {:induction false} AttachNamesNames(clean: seq<InventoryRow>, relevant: seq<RegistryRow>)
    ensures var r := ToStationRows(LeftJoin(clean, relevant, InventoryStation, RegistryStation));
      && (forall j :: 0 <= j < |r| && r[j].name.Some? ==>
            exists m :: m in relevant && m.stationId == r[j].stationId && m.name == r[j].name)
      && (forall j :: 0 <= j < |r| && NoRegistryRowFor(relevant, r[j].stationId) ==> r[j].name.None?)
      && (forall j :: 0 <= j < |r| && r[j].name.None? ==>
            || NoRegistryRowFor(relevant, r[j].stationId)
            || exists m :: m in relevant && m.stationId == r[j].stationId && m.name.None?)
  {
    var joined := LeftJoin(clean, relevant, InventoryStation, RegistryStation);
    var r := ToStationRows(joined);
    LeftJoinPartners(clean, relevant, InventoryStation, RegistryStation);
    forall j | 0 <= j < |r|
      ensures r[j].name.Some? ==>
                exists m :: m in relevant && m.stationId == r[j].stationId && m.name == r[j].name
      ensures NoRegistryRowFor(relevant, r[j].stationId) ==> r[j].name.None?
      ensures r[j].name.None? ==>
                || NoRegistryRowFor(relevant, r[j].stationId)
                || exists m :: m in relevant && m.stationId == r[j].stationId && m.name.None?
    {
      assert r[j] == ToStationRow(joined[j]);
      assert HasRightPartner(joined[j], relevant, InventoryStation, RegistryStation);
      if joined[j].right.Some? {
        var m := joined[j].right.value;
        assert m in relevant && m.stationId == r[j].stationId;
      }
    }
  }

  /**
   * The canonical station inventory (clean_data.py:11-95): temperature rows,
   * names attached through both merges, then `drop_duplicates` on
   * (Station_ID, Element).
   */
  function StationsInventory(inventory: seq<InventoryRow>, registry: seq<RegistryRow>): seq<StationInventoryRow>
  {
    var clean := KeepTemperatureRows(inventory);
    var relevant := RelevantStations(registry, clean);
    DropDuplicates(AttachNames(clean, relevant), StationKey)
  }

  // ---------------------------------------------------------------------------
  // The fan-out of the two merges is absorbed by the de-duplication
  // ---------------------------------------------------------------------------

  /** The name of the first row of `names` for station `id`, absent if none or blank. */
  function FirstName(names: seq<RegistryRow>, id: string): Option<string>
  {
    match FirstMatch(names, MatchesKey(RegistryStation, id))
    case Some(m) => m.name
    case None => None
  }

  function WithName(v: InventoryRow, names: seq<RegistryRow>): StationInventoryRow
  {
    StationInventoryRow(v.stationId, v.latitude, v.longitude, v.element, v.firstYear, v.lastYear,
                        FirstName(names, v.stationId))
  }

  function WithNames(vs: seq<InventoryRow>, names: seq<RegistryRow>): (r: seq<StationInventoryRow>)
    ensures |r| == |vs|
    ensures forall j :: 0 <= j < |vs| ==> r[j] == WithName(vs[j], names)
  {
    seq(|vs|, j requires 0 <= j < |vs| => WithName(vs[j], names))
  }

  lemma WithNamesSnoc(vs: seq<InventoryRow>, v: InventoryRow, names: seq<RegistryRow>)
    ensures WithNames(vs + [v], names) == WithNames(vs, names) + [WithName(v, names)]
  {
  }

  lemma {:induction false} WithNamesKeys(vs: seq<InventoryRow>, names: seq<RegistryRow>)
    ensures Keys(WithNames(vs, names), StationKey) == Keys(vs, InventoryKey)
    decreases |vs|
  {
    if |vs| > 0 {
      InitLast(vs);
      WithNamesKeys(Init(vs), names);
      WithNamesSnoc(Init(vs), Last(vs), names);
      KeysSnoc(WithNames(Init(vs), names), WithName(Last(vs), names), StationKey);
      KeysSnoc(Init(vs), Last(vs), InventoryKey);
    }
  }

  /** The first relevant-station row for a station is its first registry row. */
  lemma {:induction false} RelevantStationsFirstName(registry: seq<RegistryRow>, clean: seq<InventoryRow>, id: string)
    ensures FirstName(RelevantStations(registry, clean), id) == FirstName(registry, id)
  {
    FirstMatchOfJoinedLefts(registry, clean, RegistryStation, InventoryStation,
                            MatchesKey(RegistryStation, id));
  }

  /** The block of rows one inventory row contributes to the second merge. */
  lemma {:induction false} AttachBlock(v: InventoryRow, relevant: seq<RegistryRow>)
    ensures var b := ToStationRows(JoinRow(v, relevant, InventoryStation, RegistryStation));
      && |b| > 0
      && b[0] == WithName(v, relevant)
      && Keys(b[1..], StationKey) <= {InventoryKey(v)}
  {
    var js := JoinRow(v, relevant, InventoryStation, RegistryStation);
    var b := ToStationRows(js);
    forall k | k in Keys(b[1..], StationKey) ensures k == InventoryKey(v) {
      var x :| x in b[1..] && StationKey(x) == k;
      var j :| 1 <= j < |b| && b[j] == x;
    }
  }

  lemma ToStationRowsAppend(a: seq<Joined<InventoryRow, RegistryRow>>, b: seq<Joined<InventoryRow, RegistryRow>>)
    ensures ToStationRows(a + b) == ToStationRows(a) + ToStationRows(b)
  {
  }

  /**
   * The rows one more inventory row adds to the second merge leave, after
   * de-duplication, at most their first row: the others repeat its key.
   */
  lemma {:induction false} BlockAbsorbed(a: seq<StationInventoryRow>, v: InventoryRow, relevant: seq<RegistryRow>)
    ensures var b0 := WithName(v, relevant);
            DropDuplicates(a + ToStationRows(JoinRow(v, relevant, InventoryStation, RegistryStation)), StationKey)
            == DropDuplicates(a, StationKey) + (if StationKey(b0) in Keys(a, StationKey) then [] else [b0])
  {
    var b := ToStationRows(JoinRow(v, relevant, InventoryStation, RegistryStation));
    AttachBlock(v, relevant);
    assert b == [b[0]] + b[1..];
    DropDuplicatesOfRepeats(a, b[0], b[1..], StationKey);
  }

  /** One more inventory row appends its own block to the second merge. */
  lemma {:induction false} MergeSnoc(front: seq<InventoryRow>, v: InventoryRow, relevant: seq<RegistryRow>)
    ensures ToStationRows(LeftJoin(front + [v], relevant, InventoryStation, RegistryStation)) ==
              ToStationRows(LeftJoin(front, relevant, InventoryStation, RegistryStation)) +
              ToStationRows(JoinRow(v, relevant, InventoryStation, RegistryStation))
  {
    InitOfSnoc(front, v);
    ToStationRowsAppend(LeftJoin(front, relevant, InventoryStation, RegistryStation),
                        JoinRow(v, relevant, InventoryStation, RegistryStation));
  }

  /**
   * De-duplicating the second merge gives, for each (station, element) pair,
   * its first temperature row with the first matching name attached, however
   * many rows each merge fanned it out to.
   */
  lemma {:induction false} DedupeAbsorbsFanOut(clean: seq<InventoryRow>, relevant: seq<RegistryRow>)
    ensures DropDuplicates(ToStationRows(LeftJoin(clean, relevant, InventoryStation, RegistryStation)), StationKey)
            == WithNames(DropDuplicates(clean, InventoryKey), relevant)
    decreases |clean|
  {
    if |clean| > 0 {
      var v := Last(clean);
      var front := Init(clean);
      InitLast(clean);
      var a := ToStationRows(LeftJoin(front, relevant, InventoryStation, RegistryStation));
      MergeSnoc(front, v, relevant);
      assert front + [v] == clean;
      BlockAbsorbed(a, v, relevant);
      // Induction: the front of the inventory.
      DedupeAbsorbsFanOut(front, relevant);
      var b0 := WithName(v, relevant);
      var d := DropDuplicates(front, InventoryKey);
      WithNamesKeys(d, relevant);
      assert Keys(a, StationKey) == Keys(front, InventoryKey);
      DropDuplicatesSnoc(front, v, InventoryKey);
      if InventoryKey(v) !in Keys(front, InventoryKey) {
        WithNamesSnoc(d, v, relevant);
      }
    }
  }

  /**
   * The canonical station inventory is the de-duplicated temperature
   * inventory, each row carrying the name of the first registry row for its
   * station: the row fan-out of both merges leaves no trace.
   */
  lemma {:induction false} StationsInventoryFirstWins(inventory: seq<InventoryRow>, registry: seq<RegistryRow>)
    ensures StationsInventory(inventory, registry) ==
              WithNames(DropDuplicates(KeepTemperatureRows(inventory), InventoryKey), registry)
  {
    var clean := KeepTemperatureRows(inventory);
    var relevant := RelevantStations(registry, clean);
    DedupeAbsorbsFanOut(clean, relevant);
    var d := DropDuplicates(clean, InventoryKey);
    forall j | 0 <= j < |d|
      ensures WithName(d[j], relevant) == WithName(d[j], registry)
    {
      RelevantStationsFirstName(registry, clean, d[j].stationId);
    }
  }

  /**
   * What the canonical inventory holds: exactly the (station, element) pairs
   * of the temperature rows, each once, each with the columns of the first
   * temperature row for that pair and the first registry name of its station.
   */
  lemma {:induction false} StationsInventoryContents(inventory: seq<InventoryRow>, registry: seq<RegistryRow>)
    ensures var clean := KeepTemperatureRows(inventory);
            var r := StationsInventory(inventory, registry);
      && Keys(r, StationKey) == Keys(clean, InventoryKey)
      && (forall i, j :: 0 <= i < j < |r| ==> StationKey(r[i]) != StationKey(r[j]))
      && (forall j :: 0 <= j < |r| ==>
            StationKey(r[j]) in Keys(clean, InventoryKey) &&
            CarriesInventory(r[j], clean[FirstIndex(clean, InventoryKey, StationKey(r[j]))]) &&
            r[j].name == FirstName(registry, r[j].stationId))
  {
    StationsInventoryFirstWins(inventory, registry);
    NamedDedupeContents(KeepTemperatureRows(inventory), registry);
  }

  lemma {:induction false} NamedDedupeContents(clean: seq<InventoryRow>, registry: seq<RegistryRow>)
    ensures var r := WithNames(DropDuplicates(clean, InventoryKey), registry);
      && Keys(r, StationKey) == Keys(clean, InventoryKey)
      && (forall i, j :: 0 <= i < j < |r| ==> StationKey(r[i]) != StationKey(r[j]))
      && (forall j :: 0 <= j < |r| ==>
            StationKey(r[j]) in Keys(clean, InventoryKey) &&
            CarriesInventory(r[j], clean[FirstIndex(clean, InventoryKey, StationKey(r[j]))]) &&
            r[j].name == FirstName(registry, r[j].stationId))
  {
    var d := DropDuplicates(clean, InventoryKey);
    WithNamesKeys(d, registry);
    assert forall j :: 0 <= j < |d| ==> StationKey(WithName(d[j], registry)) == InventoryKey(d[j]);
  }
}

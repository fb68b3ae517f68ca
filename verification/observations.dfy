/**
 * Per-station daily cleaning, `clean_station_data` (clean_data.py:117-151):
 * the station's daily records are reduced to the TMAX and TMIN rows, each
 * value is converted from tenths of a degree Celsius to degrees, and the three
 * flag columns are dropped. Reading or parsing the file may fail; the function
 * then reports failure instead of raising.
 */
module Observations {
  import opened Tables
  import opened Inventory

  /** One daily record as downloaded: the value is in tenths of a degree Celsius. */
  datatype RawObservation = RawObservation(
    stationId: string,
    year: int,
    month: int,
    day: int,
    element: string,
    value: int,
    flags: Flags)

  /** The Quality_Flag, Measurement_Flag and Source_Flag columns; a blank flag is absent. */
  datatype Flags = Flags(quality: Option<string>, measurement: Option<string>, source: Option<string>)

  /** One cleaned daily record: the value is in degrees Celsius and the flags are gone. */
  datatype Observation = Observation(
    stationId: string,
    year: int,
    month: int,
    day: int,
    element: string,
    value: real)

  // ---------------------------------------------------------------------------
  // Unit conversion
  // ---------------------------------------------------------------------------

  /** `x / 10.0`: tenths of a degree to degrees. */
  function Celsius(tenths: int): (c: real)
    ensures c * 10.0 == tenths as real
  {
    tenths as real / 10.0
  }

  /** Degrees back to whole tenths of a degree. */
  function Tenths(c: real): int
  {
    (c * 10.0).Floor
  }

  /** The conversion loses nothing: the raw reading is recovered from the converted one. */
  lemma CelsiusRoundTrip(tenths: int)
    ensures Tenths(Celsius(tenths)) == tenths
  {
    assert Celsius(tenths) * 10.0 == tenths as real;
  }

  /** The conversion keeps the order of readings, so it commutes with min, max and ranking. */
  lemma CelsiusMonotone(a: int, b: int)
    ensures a <= b <==> Celsius(a) <= Celsius(b)
    ensures a == b <==> Celsius(a) == Celsius(b)
  {
    assert Celsius(a) * 10.0 == a as real;
    assert Celsius(b) * 10.0 == b as real;
  }

  /**
   * A converted reading is a whole number of hundredths, that is it has at most
   * two decimals, so rounding it to two places leaves it unchanged.
   */
  lemma CelsiusHasTwoDecimals(tenths: int)
    ensures (Celsius(tenths) * 100.0).Floor as real == Celsius(tenths) * 100.0
  {
    assert Celsius(tenths) * 100.0 == (tenths * 10) as real;
  }

  /**
   * Readings of 35.0 and -15.7 degrees; the raw `-9999` used for a missing day
   * is converted like any other value, to -999.9, not excluded.
   */
  lemma CelsiusExamples()
    ensures Celsius(350) == 35.0
    ensures Celsius(-157) == -15.7
    ensures Celsius(-9999) == -999.9
  {
  }

  // ---------------------------------------------------------------------------
  // Row cleaning
  // ---------------------------------------------------------------------------

  predicate IsTemperatureReading(o: RawObservation)
  {
    IsTemperature(o.element)
  }

  /** `df.drop([...flag columns...])` on one row, after the unit conversion. */
  function DropFlags(o: RawObservation): Observation
  {
    Observation(o.stationId, o.year, o.month, o.day, o.element, Celsius(o.value))
  }

  /** Puts a cleaned row back in the raw form, given the flags it lost. */
  function Restore(c: Observation, flags: Flags): RawObservation
  {
    RawObservation(c.stationId, c.year, c.month, c.day, c.element, Tenths(c.value), flags)
  }

  /**
   * Cleaning a row removes exactly the flags: together with them, the cleaned
   * row gives back the raw row, so every other column is carried unchanged.
   */
  lemma DropFlagsRoundTrip(o: RawObservation)
    ensures Restore(DropFlags(o), o.flags) == o
  {
    CelsiusRoundTrip(o.value);
  }

  /**
   * `r` is `rows` cleaned: position `j` of `r` is the cleaned form of the raw
   * row at `idx[j]`, the positions increase, and they are exactly the
   * positions of the temperature rows.
   */
  ghost predicate CleanedFrom(r: seq<Observation>, rows: seq<RawObservation>, idx: seq<nat>)
  {
    && |idx| == |r|
    && (forall j :: 0 <= j < |r| ==>
          idx[j] < |rows| && IsTemperatureReading(rows[idx[j]]) && r[j] == DropFlags(rows[idx[j]]))
    && (forall j, k :: 0 <= j < k < |idx| ==> idx[j] < idx[k])
    && (forall i :: 0 <= i < |rows| && IsTemperatureReading(rows[i]) ==> i in idx)
  }

  function DropAllFlags(rows: seq<RawObservation>): (r: seq<Observation>)
    ensures |r| == |rows|
    ensures forall j :: 0 <= j < |rows| ==> r[j] == DropFlags(rows[j])
  {
    seq(|rows|, j requires 0 <= j < |rows| => DropFlags(rows[j]))
  }

  /** The body of `clean_station_data` once the file is read (clean_data.py:136-142). */
  function CleanRows(rows: seq<RawObservation>): (r: seq<Observation>)
    ensures exists idx :: CleanedFrom(r, rows, idx)
  {
    var kept := Filter(rows, IsTemperatureReading);
    FilterSelectsExactly(rows, IsTemperatureReading);
    var r := DropAllFlags(kept);
    assert CleanedFrom(r, rows, Positions(rows, IsTemperatureReading));
    r
  }

  /** Cleaning works row by row: the cleaning of a concatenation is the concatenation of the cleanings. */
  lemma {:induction false} CleanRowsAppend(a: seq<RawObservation>, b: seq<RawObservation>)
    ensures CleanRows(a + b) == CleanRows(a) + CleanRows(b)
  {
    FilterAppend(a, b, IsTemperatureReading);
  }

  /** Every cleaned row is a TMAX or TMIN reading. */
  lemma {:induction false} CleanRowsOnlyTemperatures(rows: seq<RawObservation>)
    ensures forall j :: 0 <= j < |CleanRows(rows)| ==> IsTemperature(CleanRows(rows)[j].element)
  {
    var r := CleanRows(rows);
    var idx :| CleanedFrom(r, rows, idx);
    forall j | 0 <= j < |r| ensures IsTemperature(r[j].element) {
      assert IsTemperatureReading(rows[idx[j]]);
    }
  }

  /**
   * `clean_station_data`: the cleaned table when the file can be read, and
   * the failure otherwise (the function returns False rather than raising).
   */
  function CleanStationData(file: Result<seq<RawObservation>>): (r: Result<seq<Observation>>)
    ensures r.Success? <==> file.Success?
    ensures r.Failure? ==> r.error == file.error
    ensures r.Success? ==> exists idx :: CleanedFrom(r.value, file.value, idx)
  {
    match file
    case Failure(e) => Failure(e)
    case Success(rows) => Success(CleanRows(rows))
  }
}

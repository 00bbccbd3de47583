/**
 * The per-station statistics of the analysis dashboard (`load_and_process_data`
 * in youbike_analysis_final2.py): grouping the snapshots by station, the
 * aggregates of each group, the derived ratios, the display name, and the
 * hourly averages for the trend view. Arithmetic is exact; the dashboard's
 * rounding to 2 and 3 decimals is not modelled.
 */
module StationAnalysis {
  import opened Sequences
  import opened Grouping
  import opened Snapshots
  import opened Text

  /** The grouping key of the statistics table: station number and name. */
  type StationKey = (int, string)

  function StationOf(r: Snapshot): StationKey { (r.sno, r.sna) }

  /**
   * A sample standard deviation as pandas reports it: `Undefined` stands for
   * pandas' NaN (for example a single-row group). How it is computed (a
   * square root) is left abstract.
   */
  datatype Deviation = Undefined | Defined(value: real)

  /** usage_rate: the share of the capacity that is not offering a bike. */
  function UsageRate(capacity: nat, avgRentBikes: real): (r: real)
    requires capacity > 0
    ensures r * (capacity as real) == capacity as real - avgRentBikes
  {
    (capacity as real - avgRentBikes) / (capacity as real)
  }

  /** rent_ease and return_ease: an average count as a share of the capacity. */
  function Ease(capacity: nat, average: real): (r: real)
    requires capacity > 0
    ensures r * (capacity as real) == average
  {
    average / (capacity as real)
  }

  /** Renting ease and usage rate are complementary shares of the capacity. */
  lemma EaseComplementsUsage(capacity: nat, avgRentBikes: real)
    requires capacity > 0
    ensures Ease(capacity, avgRentBikes) + UsageRate(capacity, avgRentBikes) == 1.0
  {
    var c := capacity as real;
    var e, u := Ease(capacity, avgRentBikes), UsageRate(capacity, avgRentBikes);
    var ec, uc := e * c, u * c;
    assert ec + uc == c;
    Distribute(e, u, c);
    CancelFactor(e + u, 1.0, c);
    CancelFactor(1.0, e + u, c);
  }

  lemma Distribute(a: real, b: real, c: real)
    ensures (a + b) * c == a * c + b * c
  {
  }

  /** With an average between 0 and the capacity, both shares lie in [0, 1]. */
  lemma SharesInUnitInterval(capacity: nat, avgRentBikes: real)
    requires capacity > 0 && 0.0 <= avgRentBikes <= capacity as real
    ensures 0.0 <= Ease(capacity, avgRentBikes) <= 1.0
    ensures 0.0 <= UsageRate(capacity, avgRentBikes) <= 1.0
  {
    var c := capacity as real;
    var e := Ease(capacity, avgRentBikes);
    CancelFactor(0.0, e, c);
    CancelFactor(e, 1.0, c);
    EaseComplementsUsage(capacity, avgRentBikes);
  }

  /**
   * A coefficient of variation, std / mean, with pandas' `fillna(0)`: an
   * undefined deviation (a single row) and a zero mean give 0.
   */
  function VariationCoeff(std: Deviation, mean: real): (cv: real)
    ensures std.Undefined? ==> cv == 0.0
    ensures mean == 0.0 ==> cv == 0.0
    ensures std.Defined? && mean != 0.0 ==> cv * mean == std.value
  {
    match std
    case Undefined => 0.0
    case Defined(sd) => if mean == 0.0 then 0.0 else sd / mean
  }

  /**
   * The aggregates `['mean', 'std', 'min', 'max']` of one count column of a
   * station's rows.
   */
  datatype Summary = Summary(mean: real, std: Deviation, min: real, max: real)

  function Summarize(col: seq<real>, std: seq<real> -> Deviation): (s: Summary)
    requires |col| > 0
    ensures s.mean == Mean(col) && s.std == std(col)
    ensures s.min in col && s.max in col
    ensures forall i :: 0 <= i < |col| ==> s.min <= col[i] <= s.max
    ensures s.min <= s.mean <= s.max
  {
    MeanBetweenMinAndMax(col);
    Summary(Mean(col), std(col), MinOf(col), MaxOf(col))
  }

  /** stability_index: the mean of the two coefficients of variation. */
  function Stability(rentCv: real, returnCv: real): (r: real)
    ensures r * 2.0 == rentCv + returnCv
  {
    (rentCv + returnCv) / 2.0
  }

  /** One row of the statistics table. */
  datatype StationStats = StationStats(
    sno: int,
    sna: string,
    totalCapacity: nat,
    rentBikes: Summary,
    returnBikes: Summary,
    latitude: real,
    longitude: real,
    indicators: Indicators,
    shortName: string)

  /** The indicators the dashboard derives from a station's capacity and summaries. */
  datatype Indicators = Indicators(
    usageRate: real,
    rentEase: real,
    returnEase: real,
    rentVariationCoeff: real,
    returnVariationCoeff: real,
    stabilityIndex: real,
    circulationRate: real,
    efficiency: real)

  /**
   * Usage rate, renting and returning ease, both coefficients of variation,
   * their mean as stability index, the circulation rate (a copy of the
   * stability index) and efficiency (usage rate times circulation rate).
   */
  function DeriveIndicators(capacity: nat, rent: Summary, ret: Summary): (x: Indicators)
    requires capacity > 0
    ensures x.rentEase * (capacity as real) == rent.mean
    ensures x.returnEase * (capacity as real) == ret.mean
    ensures x.rentEase + x.usageRate == 1.0
    ensures rent.std.Undefined? || rent.mean == 0.0 ==> x.rentVariationCoeff == 0.0
    ensures ret.std.Undefined? || ret.mean == 0.0 ==> x.returnVariationCoeff == 0.0
    ensures rent.std.Defined? && rent.mean != 0.0 ==> x.rentVariationCoeff * rent.mean == rent.std.value
    ensures ret.std.Defined? && ret.mean != 0.0 ==> x.returnVariationCoeff * ret.mean == ret.std.value
    ensures x.stabilityIndex * 2.0 == x.rentVariationCoeff + x.returnVariationCoeff
    ensures x.circulationRate == x.stabilityIndex
    ensures x.efficiency == x.usageRate * x.circulationRate
  {
    EaseComplementsUsage(capacity, rent.mean);
    var rentCv := VariationCoeff(rent.std, rent.mean);
    var returnCv := VariationCoeff(ret.std, ret.mean);
    var stability := Stability(rentCv, returnCv);
    var usage := UsageRate(capacity, rent.mean);
    Indicators(usage, Ease(capacity, rent.mean), Ease(capacity, ret.mean),
      rentCv, returnCv, stability, stability, usage * stability)
  }

  /**
   * The display name: the second `_`-separated segment of the name when there
   * is a `_`, otherwise the name itself, cut to 15 characters plus `..` when
   * longer than 15.
   */
  function ShortName(x: string): (r: string)
    ensures '_' !in r && |r| <= 17
    ensures '_' !in x && |x| <= 15 ==> r == x
  {
    if '_' in x then
      var segment := Split(x, '_')[1];
      if |segment| > 15 then segment[..15] + ".." else segment
    else if |x| > 15 then x[..15] + ".."
    else x
  }

  /**
   * A name `head_segment...` (with no `_` in head or segment, and `rest`
   * empty or starting at the next `_`) shortens to its segment, cut to 15
   * characters plus `..` only when the segment is longer than 15.
   */
  lemma ShortNameOfSegment(head: string, segment: string, rest: string)
    requires '_' !in head && '_' !in segment
    requires rest == [] || rest[0] == '_'
    ensures ShortName(head + "_" + segment + rest) ==
      if |segment| > 15 then segment[..15] + ".." else segment
  {
    var x := head + "_" + segment + rest;
    assert x == head + ['_'] + (segment + rest);
    SplitAtFirst(head, '_', segment + rest);
    SplitFirstPart(segment, '_', rest);
    assert '_' in x by {
      assert x[|head|] == '_';
    }
  }

  /** A name without `_` longer than 15 characters keeps its first 15 and gains `..`. */
  lemma ShortNameOfLongPlainName(x: string)
    requires '_' !in x && |x| > 15
    ensures |ShortName(x)| == 17
    ensures ShortName(x)[..15] == x[..15] && ShortName(x)[15..] == ".."
  {
  }

  /**
   * The statistics of one station from its rows (one `groupby` group):
   * capacity and position from the first row, the summaries of both counts,
   * and the derived ratios.
   */
  function DeriveStation(members: seq<Snapshot>, std: seq<real> -> Deviation): (s: StationStats)
    requires |members| > 0 && members[0].total > 0
    ensures (s.sno, s.sna) == StationOf(members[0])
    ensures s.totalCapacity == members[0].total
    ensures s.latitude == members[0].latitude && s.longitude == members[0].longitude
    ensures s.rentBikes == Summarize(Column(members, RentBikes), std)
    ensures s.returnBikes == Summarize(Column(members, ReturnBikes), std)
    ensures s.indicators == DeriveIndicators(s.totalCapacity, s.rentBikes, s.returnBikes)
    ensures s.shortName == ShortName(s.sna) && '_' !in s.shortName
  {
    var first := members[0];
    var rent := Summarize(Column(members, RentBikes), std);
    var ret := Summarize(Column(members, ReturnBikes), std);
    StationStats(
      first.sno, first.sna, first.total, rent, ret,
      first.latitude, first.longitude,
      DeriveIndicators(first.total, rent, ret),
      ShortName(first.sna))
  }

  /**
   * The per-station form of `ZeroMeanForcesZeros` for the rent column: a
   * station whose (unrounded) average rent count is zero has only zero rent
   * counts. Nothing follows here about the deviation, which the model takes
   * as a parameter.
   */
  lemma IdleStationHasNoSpread(members: seq<Snapshot>, std: seq<real> -> Deviation)
    requires |members| > 0
    requires Summarize(Column(members, RentBikes), std).mean == 0.0
    ensures forall i :: 0 <= i < |members| ==> members[i].rentBikes == 0
  {
    var rent := Column(members, RentBikes);
    assert Mean(rent) == 0.0;
    ZeroMeanForcesZeros(rent);
    forall i | 0 <= i < |members| ensures members[i].rentBikes == 0 {
      assert rent[i] == members[i].rentBikes as real;
      assert MinOf(rent) <= rent[i] <= MaxOf(rent);
    }
  }

  /**
   * The first snapshot of every station has a positive capacity: the row
   * `groupby(...).first()` reads the capacity from, which every ratio divides by.
   */
  predicate FirstRowsStocked(rows: seq<Snapshot>)
  {
    forall i :: 0 <= i < |rows| && (forall j :: 0 <= j < i ==> StationOf(rows[j]) != StationOf(rows[i])) ==>
      rows[i].total > 0
  }

  /**
   * The statistics table: one row per (station number, name) pair of the
   * snapshots, in order of first appearance.
   */
  function StationTable(rows: seq<Snapshot>, std: seq<real> -> Deviation): (table: seq<StationStats>)
    requires FirstRowsStocked(rows)
    ensures var keys := Keys(rows, StationOf);
      |table| == |keys| &&
      forall i :: 0 <= i < |table| ==>
        (table[i].sno, table[i].sna) == keys[i] &&
        |Members(rows, StationOf, keys[i])| > 0 &&
        Members(rows, StationOf, keys[i])[0].total > 0 &&
        table[i] == DeriveStation(Members(rows, StationOf, keys[i]), std)
  {
    var keys := Keys(rows, StationOf);
    forall k | k in keys
      ensures |Members(rows, StationOf, k)| > 0 && Members(rows, StationOf, k)[0].total > 0
    {
      KeyHasMembers(rows, StationOf, k);
      MembersFirst(rows, StationOf, k);
      var ms := Members(rows, StationOf, k);
      var f :| 0 <= f < |rows| && rows[f] == ms[0] && forall j :: 0 <= j < f ==> StationOf(rows[j]) != k;
      assert ms[0] in ms;
    }
    seq(|keys|, i requires 0 <= i < |keys| =>
      var members := Members(rows, StationOf, keys[i]);
      KeyHasMembers(rows, StationOf, keys[i]);
      assert members[0] in members;
      DeriveStation(members, std))
  }

  /** Every station of the snapshots has exactly one row in the statistics table. */
  lemma StationTableCoversStations(rows: seq<Snapshot>, std: seq<real> -> Deviation, r: nat)
    requires FirstRowsStocked(rows)
    requires r < |rows|
    ensures var table := StationTable(rows, std);
      (exists i :: 0 <= i < |table| && (table[i].sno, table[i].sna) == StationOf(rows[r]))
      && forall i, j :: 0 <= i < j < |table| ==> (table[i].sno, table[i].sna) != (table[j].sno, table[j].sna)
  {
    var table := StationTable(rows, std);
    var keys := Keys(rows, StationOf);
    assert StationOf(rows[r]) in keys;
    var i :| 0 <= i < |keys| && keys[i] == StationOf(rows[r]);
    assert (table[i].sno, table[i].sna) == StationOf(rows[r]);
  }

  /** One row of the hourly trend table. */
  datatype HourlyUsage = HourlyUsage(hour: Hour, avgRentBikes: real, avgReturnBikes: real)

  /**
   * `groupby('hour')` with the mean of both counts: one row per hour present
   * in the snapshots, ascending, holding the means over all rows of that hour.
   */
  function HourlyMeans(rows: seq<Snapshot>): (table: seq<HourlyUsage>)
    ensures |table| == |HoursPresent(rows)|
    ensures forall i, j :: 0 <= i < j < |table| ==> table[i].hour < table[j].hour
    ensures forall i :: 0 <= i < |table| ==>
      table[i].hour == HoursPresent(rows)[i]
      && |RowsAt(rows, table[i].hour)| > 0
      && table[i].avgRentBikes == Mean(Column(RowsAt(rows, table[i].hour), RentBikes))
      && table[i].avgReturnBikes == Mean(Column(RowsAt(rows, table[i].hour), ReturnBikes))
  {
    var hours := HoursPresent(rows);
    seq(|hours|, i requires 0 <= i < |hours| =>
      var at := RowsAt(rows, hours[i]);
      HourlyUsage(hours[i], Mean(Column(at, RentBikes)), Mean(Column(at, ReturnBikes))))
  }

  /** An hour has a row in the trend table exactly when some snapshot was taken in it. */
  lemma HourlyMeansCoverHours(rows: seq<Snapshot>, h: Hour)
    ensures (exists i :: 0 <= i < |HourlyMeans(rows)| && HourlyMeans(rows)[i].hour == h)
        <==> (exists r :: 0 <= r < |rows| && rows[r].hour == h)
  {
    var table, hours := HourlyMeans(rows), HoursPresent(rows);
    if exists r :: 0 <= r < |rows| && rows[r].hour == h {
      assert h in hours;
      var i :| 0 <= i < |hours| && hours[i] == h;
      assert table[i].hour == h;
    }
    if exists i :: 0 <= i < |table| && table[i].hour == h {
      var i :| 0 <= i < |table| && table[i].hour == h;
      assert hours[i] in hours;
    }
  }
}

/**
 * The station map dashboard (youbike_step_final2.py): the per-row percentage
 * columns, the station averages behind the map and the detail table, the
 * three-colour marker classifier, the `>= min_value` filters, the top-5
 * ranking with its display names, and the peak / off-peak hour summary.
 */
module MapView {
  import opened Sequences
  import opened Grouping
  import opened Snapshots
  import opened Text

  /**
   * `np.where(total > 0, part / total * 100, 0)`: a count as a percentage of
   * the capacity, 0 for a station without docks.
   */
  function PercentOf(part: real, total: nat): (p: real)
    ensures total == 0 ==> p == 0.0
    ensures total > 0 ==> p * (total as real) == part * 100.0
  {
    if total > 0 then
      var c := total as real;
      var share := part / c;
      ScaleShare(share, c, part);
      share * 100.0
    else 0.0
  }

  lemma ScaleShare(share: real, c: real, part: real)
    requires c > 0.0 && share == part / c
    ensures share * 100.0 * c == part * 100.0
  {
    assert share * c == part;
    assert share * 100.0 * c == (share * c) * 100.0;
  }

  /** A count between 0 and the capacity is a percentage between 0 and 100. */
  lemma PercentInRange(part: real, total: nat)
    requires 0.0 <= part <= total as real
    ensures 0.0 <= PercentOf(part, total) <= 100.0
  {
    if total > 0 {
      var c, p := total as real, PercentOf(part, total);
      var scaled := p * c;
      assert 0.0 * c <= scaled <= 100.0 * c;
      CancelFactor(0.0, p, c);
      CancelFactor(p, 100.0, c);
    }
  }

  /** bike_usage_rate: available rent bikes as a percentage of the capacity. */
  function BikeUsageRate(r: Snapshot): (p: real)
    ensures r.total == 0 ==> p == 0.0
    ensures r.total > 0 ==> p * (r.total as real) == r.rentBikes as real * 100.0
    ensures r.rentBikes <= r.total ==> 0.0 <= p <= 100.0
  {
    if r.rentBikes <= r.total then
      PercentInRange(r.rentBikes as real, r.total);
      PercentOf(r.rentBikes as real, r.total)
    else PercentOf(r.rentBikes as real, r.total)
  }

  /** return_availability_rate: available return docks as a percentage of the capacity. */
  function ReturnAvailabilityRate(r: Snapshot): (p: real)
    ensures r.total == 0 ==> p == 0.0
    ensures r.total > 0 ==> p * (r.total as real) == r.returnBikes as real * 100.0
    ensures r.returnBikes <= r.total ==> 0.0 <= p <= 100.0
  {
    if r.returnBikes <= r.total then
      PercentInRange(r.returnBikes as real, r.total);
      PercentOf(r.returnBikes as real, r.total)
    else PercentOf(r.returnBikes as real, r.total)
  }

  /** The four columns the sidebar offers to filter and colour by. */
  datatype Metric = AvailableRentBikes | ReturnAvailabilityRateMetric | BikeUsageRateMetric | Total

  /** The value of a metric's column in one snapshot row. */
  function RowMetric(m: Metric, r: Snapshot): real
  {
    match m
    case AvailableRentBikes => r.rentBikes as real
    case ReturnAvailabilityRateMetric => ReturnAvailabilityRate(r)
    case BikeUsageRateMetric => BikeUsageRate(r)
    case Total => r.total as real
  }

  function RowMetricOf(m: Metric): Snapshot -> real
  {
    r => RowMetric(m, r)
  }

  /** The rows of one station grouped as the map groups them. */
  type MapKey = (int, string, real, real)

  function MapKeyOf(r: Snapshot): MapKey { (r.sno, r.sna, r.latitude, r.longitude) }

  /** One station of the map: its key, first capacity and average columns. */
  datatype MapStation = MapStation(
    sno: int,
    sna: string,
    latitude: real,
    longitude: real,
    total: nat,
    avgRentBikes: real,
    avgReturnBikes: real,
    avgBikeUsageRate: real,
    avgReturnAvailabilityRate: real)

  /** The value of a metric for a map station; the total is the first row's capacity. */
  function StationMetric(s: MapStation, m: Metric): real
  {
    match m
    case AvailableRentBikes => s.avgRentBikes
    case ReturnAvailabilityRateMetric => s.avgReturnAvailabilityRate
    case BikeUsageRateMetric => s.avgBikeUsageRate
    case Total => s.total as real
  }

  /**
   * A group's aggregate for a metric, as both station tables compute it:
   * `'first'` for the capacity and `'mean'` for every other column.
   */
  function GroupMetric(members: seq<Snapshot>, m: Metric): (v: real)
    requires |members| > 0
    ensures m.Total? ==> v == members[0].total as real
    ensures !m.Total? ==> v * (|members| as real) == Sum(Column(members, RowMetricOf(m)))
  {
    if m.Total? then members[0].total as real
    else
      var col := Column(members, RowMetricOf(m));
      assert |col| == |members|;
      Mean(col)
  }

  function Aggregate(members: seq<Snapshot>): (s: MapStation)
    requires |members| > 0
    ensures MapKeyOf(members[0]) == (s.sno, s.sna, s.latitude, s.longitude)
    ensures forall m :: StationMetric(s, m) == GroupMetric(members, m)
    ensures s.avgReturnBikes == Mean(Column(members, ReturnBikes))
  {
    var first := members[0];
    MapStation(first.sno, first.sna, first.latitude, first.longitude, first.total,
      GroupMetric(members, AvailableRentBikes),
      Mean(Column(members, ReturnBikes)),
      GroupMetric(members, BikeUsageRateMetric),
      GroupMetric(members, ReturnAvailabilityRateMetric))
  }

  /**
   * `groupby(['sno', 'sna', 'latitude', 'longitude'])`: one map station per
   * distinct key, in order of first appearance.
   */
  function MapStations(rows: seq<Snapshot>): (stations: seq<MapStation>)
    ensures var keys := Keys(rows, MapKeyOf);
      |stations| == |keys| &&
      forall i :: 0 <= i < |stations| ==>
        (stations[i].sno, stations[i].sna, stations[i].latitude, stations[i].longitude) == keys[i] &&
        |Members(rows, MapKeyOf, keys[i])| > 0 &&
        forall m :: StationMetric(stations[i], m) == GroupMetric(Members(rows, MapKeyOf, keys[i]), m)
  {
    var keys := Keys(rows, MapKeyOf);
    forall k | k in keys ensures |Members(rows, MapKeyOf, k)| > 0 {
      KeyHasMembers(rows, MapKeyOf, k);
    }
    seq(|keys|, i requires 0 <= i < |keys| => Aggregate(Members(rows, MapKeyOf, keys[i])))
  }

  /** The map filter: the stations whose metric is at least `minValue`. */
  function MapFilter(stations: seq<MapStation>, m: Metric, minValue: real): (kept: seq<MapStation>)
    ensures forall s :: s in kept <==> s in stations && StationMetric(s, m) >= minValue
    ensures |kept| <= |stations|
  {
    Where(stations, s => StationMetric(s, m) >= minValue)
  }

  datatype Colour = Green | Orange | Red

  /** How good a colour reads on the map: green best, red worst. */
  function Goodness(c: Colour): nat
  {
    match c
    case Green => 2
    case Orange => 1
    case Red => 0
  }

  /** The two cutoffs of a metric's colour scale, upper first. */
  function Cutoffs(m: Metric): (c: (real, real))
    ensures c.1 < c.0
  {
    match m
    case AvailableRentBikes => (10.0, 5.0)
    case ReturnAvailabilityRateMetric => (70.0, 40.0)
    case BikeUsageRateMetric => (50.0, 25.0)
    case Total => (40.0, 20.0)
  }

  /**
   * The marker colour: at or above the upper cutoff green, at or above the
   * lower one orange, otherwise red; for the usage rate, where a busy station
   * is the warning, red and green trade places.
   */
  function MarkerColour(m: Metric, v: real): (c: Colour)
    ensures var (upper, lower) := Cutoffs(m);
      (c == Orange <==> lower <= v < upper) &&
      (!m.BikeUsageRateMetric? ==> (c == Green <==> upper <= v) && (c == Red <==> v < lower)) &&
      (m.BikeUsageRateMetric? ==> (c == Red <==> upper <= v) && (c == Green <==> v < lower))
  {
    var (upper, lower) := Cutoffs(m);
    if v >= upper then (if m.BikeUsageRateMetric? then Red else Green)
    else if v >= lower then Orange
    else if m.BikeUsageRateMetric? then Green else Red
  }

  /**
   * A larger value never gets a worse colour, except for the usage rate,
   * where it never gets a better one.
   */
  lemma ColourMonotone(m: Metric, v: real, w: real)
    requires v <= w
    ensures !m.BikeUsageRateMetric? ==> Goodness(MarkerColour(m, v)) <= Goodness(MarkerColour(m, w))
    ensures m.BikeUsageRateMetric? ==> Goodness(MarkerColour(m, w)) <= Goodness(MarkerColour(m, v))
  {
  }

  /** A map marker: tooltip name, location and icon colour. */
  datatype Marker = Marker(name: string, latitude: real, longitude: real, colour: Colour)

  /** A station's marker: at its position, named after it, coloured by its own metric value. */
  function MarkerFor(s: MapStation, m: Metric): (k: Marker)
    ensures k.name == s.sna && k.latitude == s.latitude && k.longitude == s.longitude
    ensures k.colour == MarkerColour(m, StationMetric(s, m))
  {
    Marker(s.sna, s.latitude, s.longitude, MarkerColour(m, StationMetric(s, m)))
  }

  /** The marker loop: one marker per station, in order, added to the cluster. */
  method PlaceMarkers(stations: seq<MapStation>, m: Metric) returns (cluster: seq<Marker>)
    ensures |cluster| == |stations|
    ensures forall i :: 0 <= i < |stations| ==> cluster[i] == MarkerFor(stations[i], m)
  {
    cluster := [];
    for i := 0 to |stations|
      invariant |cluster| == i
      invariant forall j :: 0 <= j < i ==> cluster[j] == MarkerFor(stations[j], m)
    {
      cluster := cluster + [MarkerFor(stations[i], m)];
    }
  }

  /**
   * The markers of the map: exactly the stations whose metric reaches
   * `minValue`, each coloured by its metric value.
   */
  method CreateMapMarkers(rows: seq<Snapshot>, m: Metric, minValue: real) returns (cluster: seq<Marker>)
    ensures forall k :: k in cluster <==>
      exists s :: s in MapStations(rows) && StationMetric(s, m) >= minValue && k == MarkerFor(s, m)
    ensures var kept := MapFilter(MapStations(rows), m, minValue);
      |cluster| == |kept| && forall i :: 0 <= i < |cluster| ==> cluster[i] == MarkerFor(kept[i], m)
  {
    var stations := MapStations(rows);
    var filtered := MapFilter(stations, m, minValue);
    cluster := PlaceMarkers(filtered, m);
    forall k | k in cluster
      ensures exists s :: s in stations && StationMetric(s, m) >= minValue && k == MarkerFor(s, m)
    {
      var i :| 0 <= i < |cluster| && cluster[i] == k;
      var s := filtered[i];
      assert s in filtered && k == MarkerFor(s, m);
    }
    forall s | s in stations && StationMetric(s, m) >= minValue
      ensures MarkerFor(s, m) in cluster
    {
      var i :| 0 <= i < |filtered| && filtered[i] == s;
      assert cluster[i] == MarkerFor(s, m);
    }
  }

  function Sna(r: Snapshot): string { r.sna }

  /** One entry of the popularity ranking: a station name and its mean metric. */
  datatype Ranked = Ranked(name: string, mean: real)

  function NegMean(x: Ranked): real { -x.mean }

  /** `df.groupby('sna')[metric].mean()`: every station name with the mean of its rows. */
  function NameMeans(rows: seq<Snapshot>, m: Metric): (ranking: seq<Ranked>)
    ensures |ranking| == |Keys(rows, Sna)|
    ensures forall i :: 0 <= i < |ranking| ==>
      ranking[i].name == Keys(rows, Sna)[i] &&
      |Members(rows, Sna, ranking[i].name)| > 0 &&
      ranking[i].mean == Mean(Column(Members(rows, Sna, ranking[i].name), RowMetricOf(m)))
  {
    var names := Keys(rows, Sna);
    forall k | k in names ensures |Members(rows, Sna, k)| > 0 {
      KeyHasMembers(rows, Sna, k);
    }
    seq(|names|, i requires 0 <= i < |names| =>
      Ranked(names[i], Mean(Column(Members(rows, Sna, names[i]), RowMetricOf(m)))))
  }

  /**
   * `nlargest(5)`: the five entries with the largest means (all of them when
   * there are fewer), largest first; nothing left out beats anything kept.
   */
  function Top5(ranking: seq<Ranked>): (top: seq<Ranked>)
    ensures |top| == if |ranking| < 5 then |ranking| else 5
    ensures forall i, j :: 0 <= i < j < |top| ==> top[j].mean <= top[i].mean
    ensures multiset(top) <= multiset(ranking)
    ensures forall i :: 0 <= i < |top| ==> top[i] in ranking
    ensures forall x, t :: x in ranking && x !in top && t in top ==> x.mean <= t.mean
  {
    var sorted := SortBy(ranking, NegMean);
    var k := if |ranking| < 5 then |ranking| else 5;
    PrefixOfDescending(ranking, sorted, k);
    sorted[..k]
  }

  /** A prefix of a list sorted by descending mean holds the largest means. */
  lemma PrefixOfDescending(ranking: seq<Ranked>, sorted: seq<Ranked>, k: nat)
    requires SortedBy(sorted, NegMean) && multiset(sorted) == multiset(ranking)
    requires k <= |sorted|
    ensures forall i, j :: 0 <= i < j < k ==> sorted[j].mean <= sorted[i].mean
    ensures multiset(sorted[..k]) <= multiset(ranking)
    ensures forall i :: 0 <= i < k ==> sorted[i] in ranking
    ensures forall x, t :: x in ranking && x !in sorted[..k] && t in sorted[..k] ==> x.mean <= t.mean
  {
    var top, rest := sorted[..k], sorted[k..];
    assert sorted == top + rest;
    assert multiset(sorted) == multiset(top) + multiset(rest);
    forall i | 0 <= i < k ensures sorted[i] in ranking {
      assert sorted[i] in multiset(sorted);
    }
    forall i, j | 0 <= i < j < k ensures sorted[j].mean <= sorted[i].mean {
      assert NegMean(sorted[i]) <= NegMean(sorted[j]);
    }
    forall x: Ranked, t: Ranked | x in ranking && x !in top && t in top ensures x.mean <= t.mean {
      assert x in multiset(sorted);
      var j :| 0 <= j < |sorted| && sorted[j] == x;
      var i :| 0 <= i < |top| && top[i] == t;
      assert j >= k;
      assert NegMean(sorted[i]) <= NegMean(sorted[j]);
    }
  }

  /** The name prefixes the top-5 list strips from a station name. */
  const CampusPrefix: string := "YouBike2.0_臺大"
  const BrandPrefix: string := "YouBike2.0_"

  /** `name.replace('YouBike2.0_臺大', '').replace('YouBike2.0_', '')`. */
  function DisplayName(name: string): (r: string)
    ensures |r| <= |name|
  {
    RemoveAll(RemoveAll(name, CampusPrefix), BrandPrefix)
  }

  /** A name containing neither prefix is displayed unchanged. */
  lemma DisplayNameUnchanged(name: string)
    requires !Occurs(CampusPrefix, name) && !Occurs(BrandPrefix, name)
    ensures DisplayName(name) == name
  {
    RemoveAbsent(name, CampusPrefix);
    RemoveAbsent(name, BrandPrefix);
  }

  /** A campus station name displays as what follows the campus prefix. */
  lemma DisplayNameOfCampusStation(rest: string)
    requires !Occurs(CampusPrefix, rest) && !Occurs(BrandPrefix, rest)
    ensures DisplayName(CampusPrefix + rest) == rest
  {
    var name := CampusPrefix + rest;
    assert name[..|CampusPrefix|] == CampusPrefix;
    assert name[|CampusPrefix|..] == rest;
    RemoveAbsent(rest, CampusPrefix);
    RemoveAbsent(rest, BrandPrefix);
  }

  /**
   * A station name with only the brand prefix (the next characters are not
   * "臺大") displays as what follows the brand prefix.
   */
  lemma DisplayNameOfBrandStation(rest: string)
    requires !Occurs(CampusPrefix, rest) && !Occurs(BrandPrefix, rest)
    requires !(|rest| >= 2 && rest[..2] == "臺大")
    ensures DisplayName(BrandPrefix + rest) == rest
  {
    var name := BrandPrefix + rest;
    assert CampusPrefix == BrandPrefix + "臺大";
    CampusPrefixNotAfterBrand(rest);
    RemoveAbsent(name, CampusPrefix);
    RemoveLeading(BrandPrefix, rest);
    RemoveAbsent(rest, BrandPrefix);
  }

  /** The campus prefix does not occur in a brand-prefixed name whose rest does not start with "臺大". */
  lemma CampusPrefixNotAfterBrand(rest: string)
    requires !Occurs(CampusPrefix, rest)
    requires !(|rest| >= 2 && rest[..2] == "臺大")
    ensures !Occurs(CampusPrefix, BrandPrefix + rest)
  {
    var name, n := BrandPrefix + rest, |CampusPrefix|;
    forall i | 0 <= i ensures !OccursAt(CampusPrefix, name, i) {
      if i + n <= |name| {
        if i == 0 {
          assert name[i..i + n][|BrandPrefix|..] == rest[..2];
          assert CampusPrefix[|BrandPrefix|..] == "臺大";
        } else if i < |BrandPrefix| {
          assert name[i..i + n][0] == BrandPrefix[i] != CampusPrefix[0];
        } else {
          assert name[i..i + n] == rest[i - |BrandPrefix|..i - |BrandPrefix| + n];
          assert !OccursAt(CampusPrefix, rest, i - |BrandPrefix|);
        }
      }
    }
  }

  /** One line of the popularity list: the display name and the mean. */
  function Shown(x: Ranked): Ranked
  {
    Ranked(DisplayName(x.name), x.mean)
  }

  /**
   * The popularity list as displayed, from the ranking `NameMeans` gives:
   * names stripped of their prefixes, means kept.
   */
  function PopularStations(ranking: seq<Ranked>): (shown: seq<Ranked>)
    ensures |shown| <= 5
    ensures forall i, j :: 0 <= i < j < |shown| ==> shown[j].mean <= shown[i].mean
    ensures forall i :: 0 <= i < |shown| ==> exists j :: 0 <= j < |ranking| && shown[i] == Shown(ranking[j])
    ensures |shown| == |Top5(ranking)| && forall i :: 0 <= i < |shown| ==> shown[i] == Shown(Top5(ranking)[i])
  {
    var top := Top5(ranking);
    var lines := seq(|top|, i requires 0 <= i < |top| => Shown(top[i]));
    forall i | 0 <= i < |lines| ensures exists j :: 0 <= j < |ranking| && lines[i] == Shown(ranking[j]) {
      var j :| 0 <= j < |ranking| && ranking[j] == top[i];
      assert lines[i] == Shown(ranking[j]);
    }
    forall i, j | 0 <= i < j < |lines| ensures lines[j].mean <= lines[i].mean {
      assert lines[i].mean == top[i].mean && lines[j].mean == top[j].mean;
    }
    lines
  }

  /** The summed available rent bikes of one hour of day. */
  datatype HourTotal = HourTotal(hour: Hour, rentBikes: real)

  function HourRent(x: HourTotal): real { x.rentBikes }

  function NegHourRent(x: HourTotal): real { -x.rentBikes }

  /** `groupby(hour)['available_rent_bikes'].sum()`: one total per hour present, ascending. */
  function HourlyRentSums(rows: seq<Snapshot>): (sums: seq<HourTotal>)
    ensures |sums| == |HoursPresent(rows)|
    ensures forall i :: 0 <= i < |sums| ==>
      sums[i].hour == HoursPresent(rows)[i] &&
      sums[i].rentBikes == Sum(Column(RowsAt(rows, sums[i].hour), RentBikes))
  {
    var hours := HoursPresent(rows);
    seq(|hours|, i requires 0 <= i < |hours| =>
      HourTotal(hours[i], Sum(Column(RowsAt(rows, hours[i]), RentBikes))))
  }

  /** The mean of the hourly totals: it lies between the smallest and the largest total. */
  function MeanHourly(sums: seq<HourTotal>): (m: real)
    requires sums != []
    ensures MinOf(Column(sums, HourRent)) <= m <= MaxOf(Column(sums, HourRent))
  {
    MeanBetweenMinAndMax(Column(sums, HourRent));
    Mean(Column(sums, HourRent))
  }

  /**
   * Peak hours: the totals at least 1.2 times the mean, largest first. Without
   * data the mean is NaN and no hour qualifies.
   */
  function PeakHours(sums: seq<HourTotal>): (peak: seq<HourTotal>)
    ensures forall x :: x in peak <==> sums != [] && x in sums && x.rentBikes >= 1.2 * MeanHourly(sums)
    ensures forall i, j :: 0 <= i < j < |peak| ==> peak[j].rentBikes <= peak[i].rentBikes
    ensures |peak| <= |sums|
    ensures forall x :: multiset(peak)[x]
                     == if sums != [] && x.rentBikes >= 1.2 * MeanHourly(sums) then multiset(sums)[x] else 0
  {
    if sums == [] then []
    else
      var threshold := 1.2 * MeanHourly(sums);
      var keep := (x: HourTotal) => x.rentBikes >= threshold;
      var selected := Where(sums, keep);
      WhereCounts(sums, keep);
      var sorted := SortBy(selected, NegHourRent);
      assert forall x :: x in sorted <==> x in multiset(selected);
      forall i, j | 0 <= i < j < |sorted| ensures sorted[j].rentBikes <= sorted[i].rentBikes {
        assert NegHourRent(sorted[i]) <= NegHourRent(sorted[j]);
      }
      sorted
  }

  /** Off-peak hours: the totals at most 0.8 times the mean, smallest first. */
  function OffPeakHours(sums: seq<HourTotal>): (offPeak: seq<HourTotal>)
    ensures forall x :: x in offPeak <==> sums != [] && x in sums && x.rentBikes <= 0.8 * MeanHourly(sums)
    ensures forall i, j :: 0 <= i < j < |offPeak| ==> offPeak[i].rentBikes <= offPeak[j].rentBikes
    ensures |offPeak| <= |sums|
    ensures forall x :: multiset(offPeak)[x]
                     == if sums != [] && x.rentBikes <= 0.8 * MeanHourly(sums) then multiset(sums)[x] else 0
  {
    if sums == [] then []
    else
      var threshold := 0.8 * MeanHourly(sums);
      var keep := (x: HourTotal) => x.rentBikes <= threshold;
      var selected := Where(sums, keep);
      WhereCounts(sums, keep);
      var sorted := SortBy(selected, HourRent);
      assert forall x :: x in sorted <==> x in multiset(selected);
      forall i, j | 0 <= i < j < |sorted| ensures sorted[i].rentBikes <= sorted[j].rentBikes {
        assert HourRent(sorted[i]) <= HourRent(sorted[j]);
      }
      sorted
  }

  /** With a positive mean no hour is both a peak and an off-peak hour. */
  lemma PeakAndOffPeakDisjoint(sums: seq<HourTotal>, x: HourTotal)
    requires sums != [] && MeanHourly(sums) > 0.0
    ensures !(x in PeakHours(sums) && x in OffPeakHours(sums))
  {
  }

  /**
   * When no bike was ever available, the mean is 0 and every hour is both a
   * peak and an off-peak hour: the two lists are then identical in content.
   */
  lemma IdleHoursArePeakAndOffPeak(sums: seq<HourTotal>, x: HourTotal)
    requires forall i :: 0 <= i < |sums| ==> sums[i].rentBikes == 0.0
    requires x in sums
    ensures x in PeakHours(sums) && x in OffPeakHours(sums)
  {
    var col := Column(sums, HourRent);
    assert forall i :: 0 <= i < |col| ==> 0.0 <= col[i] <= 0.0;
    MeanWithin(col, 0.0, 0.0);
  }

  /** `f"{h:02d}:00-{h + 1:02d}:00"`. */
  function FormatPeriod(h: Hour): (period: string)
    ensures |period| == 11
    ensures forall i :: i in {0, 1, 6, 7} ==> '0' <= period[i] <= '9'
    ensures ReadPad2(period[..2]) == h && ReadPad2(period[6..8]) == h + 1
    ensures period[2..6] == ":00-" && period[8..] == ":00"
  {
    var period := Pad2(h) + ":00-" + Pad2(h + 1) + ":00";
    assert period[..2] == Pad2(h);
    assert period[6..8] == Pad2(h + 1);
    period
  }

  /** The labels of a run of hours, in order. */
  function PeriodLabels(hours: seq<HourTotal>): (labels: seq<string>)
    ensures |labels| == |hours|
    ensures forall i :: 0 <= i < |hours| ==> labels[i] == FormatPeriod(hours[i].hour)
  {
    seq(|hours|, i requires 0 <= i < |hours| => FormatPeriod(hours[i].hour))
  }

  /**
   * `hours_to_periods_top2`: "無" (none) for no hours, otherwise the labels
   * of the first two hours in the given order, joined by ", ".
   */
  method PeriodsTop2(hours: seq<HourTotal>) returns (text: string)
    ensures hours == [] ==> text == "無"
    ensures |hours| == 1 ==> text == FormatPeriod(hours[0].hour)
    ensures |hours| >= 2 ==> text == FormatPeriod(hours[0].hour) + ", " + FormatPeriod(hours[1].hour)
  {
    if hours == [] {
      return "無";
    }
    var top := if |hours| < 2 then hours else hours[..2];
    var periods: seq<string> := [];
    for i := 0 to |top|
      invariant periods == PeriodLabels(top[..i])
    {
      assert top[..i + 1] == top[..i] + [top[i]];
      periods := periods + [FormatPeriod(top[i].hour)];
    }
    assert top[..|top|] == top;
    text := Join(periods, ", ");
    if |top| == 2 {
      assert periods[1..] == [periods[1]];
    }
  }

  /** The table's station averages by name, with the first capacity for the total. */
  function NamePasses(rows: seq<Snapshot>, m: Metric, minValue: real, name: string): (p: bool)
    ensures (forall i :: 0 <= i < |rows| ==> rows[i].sna != name) ==> !p
    ensures forall i :: 0 <= i < |rows| && rows[i].sna == name ==>
      |Members(rows, Sna, name)| > 0 && (p <==> GroupMetric(Members(rows, Sna, name), m) >= minValue)
  {
    forall i | 0 <= i < |rows| && rows[i].sna == name ensures |Members(rows, Sna, name)| > 0 {
      assert rows[i] in rows;
    }
    var members := Members(rows, Sna, name);
    assert |members| > 0 ==> members[0] in members;
    |members| > 0 && GroupMetric(members, m) >= minValue
  }

  /**
   * The detail table's rows: those of the stations picked in the sidebar, or,
   * when none is picked, those of the stations whose average passes the filter.
   */
  function TableRows(rows: seq<Snapshot>, m: Metric, minValue: real, selected: seq<string>): (shown: seq<Snapshot>)
    ensures forall r :: r in shown <==>
      r in rows && if selected != [] then r.sna in selected else NamePasses(rows, m, minValue, r.sna)
    ensures |shown| <= |rows|
    ensures forall r :: multiset(shown)[r]
                     == if (if selected != [] then r.sna in selected else NamePasses(rows, m, minValue, r.sna))
                        then multiset(rows)[r] else 0
  {
    var passing := Where(Keys(rows, Sna), name => NamePasses(rows, m, minValue, name));
    if selected != [] then
      var picked := (r: Snapshot) => r.sna in selected;
      WhereCounts(rows, picked);
      Where(rows, picked)
    else
      assert forall r :: r in rows ==> (r.sna in passing <==> NamePasses(rows, m, minValue, r.sna)) by {
        forall r | r in rows ensures r.sna in Keys(rows, Sna) {
          var i :| 0 <= i < |rows| && rows[i] == r;
        }
      }
      var passes := (r: Snapshot) => r.sna in passing;
      WhereCounts(rows, passes);
      assert forall r :: r !in rows ==> multiset(rows)[r] == 0;
      Where(rows, passes)
  }
}

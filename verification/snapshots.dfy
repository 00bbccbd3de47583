/**
 * One row of the station data set both dashboards read: a snapshot of one
 * station at one time. The timestamp is kept only as its hour of day, which is
 * all that either dashboard derives from it.
 */
module Snapshots {
  import opened Grouping

  /** An hour of day, as pandas' `.dt.hour` yields it. */
  type Hour = h: int | 0 <= h < 24

  datatype Snapshot = Snapshot(
    sno: int,              // station number
    sna: string,           // station name
    hour: Hour,            // hour of the snapshot's timestamp
    total: nat,            // dock capacity
    rentBikes: nat,        // available_rent_bikes
    returnBikes: nat,      // available_return_bikes
    latitude: real,
    longitude: real)

  function HourOf(r: Snapshot): Hour { r.hour }
  function RentBikes(r: Snapshot): real { r.rentBikes as real }
  function ReturnBikes(r: Snapshot): real { r.returnBikes as real }

  /** The rows taken at hour `h`, in table order. */
  function RowsAt(rows: seq<Snapshot>, h: Hour): seq<Snapshot>
  {
    Members(rows, HourOf, h)
  }

  /**
   * The hours that occur in the table, ascending, each once: the index of a
   * `groupby` on the hour (hours without data are absent, not zero-filled).
   */
  function HoursPresent(rows: seq<Snapshot>): (hs: seq<Hour>)
    ensures forall i, j :: 0 <= i < j < |hs| ==> hs[i] < hs[j]
    ensures forall h: Hour :: h in hs <==> exists i :: 0 <= i < |rows| && rows[i].hour == h
    ensures forall i :: 0 <= i < |hs| ==> |RowsAt(rows, hs[i])| > 0
  {
    HoursFrom(rows, 0)
  }

  function HoursFrom(rows: seq<Snapshot>, from: nat): (hs: seq<Hour>)
    requires from <= 24
    ensures forall i, j :: 0 <= i < j < |hs| ==> hs[i] < hs[j]
    ensures forall i :: 0 <= i < |hs| ==> from <= hs[i]
    ensures forall h: Hour :: h in hs <==> from <= h && exists i :: 0 <= i < |rows| && rows[i].hour == h
    ensures forall i :: 0 <= i < |hs| ==> |RowsAt(rows, hs[i])| > 0
    decreases 24 - from
  {
    if from == 24 then []
    else
      var rest := HoursFrom(rows, from + 1);
      var present := RowsAt(rows, from);
      assert (exists i :: 0 <= i < |rows| && rows[i].hour == from) <==> |present| > 0 by {
        if |present| > 0 {
          assert present[0] in present;
        }
        forall i | 0 <= i < |rows| && rows[i].hour == from ensures rows[i] in present {
        }
      }
      if |present| > 0 then [from as Hour] + rest else rest
  }
}

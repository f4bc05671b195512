/**
 * The backend's in-memory reading log: an append-only list of records,
 * each holding the posted value and the time it was stored.  The clock is
 * a parameter of `Create` (milliseconds since the epoch, as a `Date` holds it).
 */
module Readings {

  /** A stored record: `{ value, data: new Date() }`. */
  datatype Reading = Reading(value: real, data: int)

  /** What `findlatest` answers. */
  datatype Latest =
    | NoData(message: string)  // `{ message: 'no data yet' }`
    | Found(reading: Reading)

  const NoDataMessage: string := "no data yet"

  /** The answer `findlatest` gives for a log. */
  function LatestOf(log: seq<Reading>): (r: Latest)
    ensures r.NoData? <==> log == []
    ensures r.NoData? ==> r.message == NoDataMessage
    ensures r.Found? ==> r.reading == log[|log| - 1] && r.reading in log
  {
    if |log| == 0 then NoData(NoDataMessage) else Found(log[|log| - 1])
  }

  class ReadingsService {
    var readings: seq<Reading>

    constructor ()
      ensures readings == []
    {
      readings := [];
    }

    /** Stores `val` stamped with `now` and returns the stored record. */
    method Create(val: real, now: int) returns (r: Reading)
      modifies this
      ensures r.value == val && r.data == now
      ensures readings == old(readings) + [r]
    {
      r := Reading(val, now);
      readings := readings + [r];
    }

    /** The most recent record, or the "no data yet" message on an empty log. */
    method FindLatest() returns (r: Latest)
      ensures r == LatestOf(readings)
    {
      if |readings| == 0 {
        return NoData(NoDataMessage);
      }
      return Found(readings[|readings| - 1]);
    }
  }

  /** Right after a record is appended, the latest record is that one. */
  lemma LatestAfterAppend(log: seq<Reading>, r: Reading)
    ensures LatestOf(log + [r]) == Found(r)
  {
  }
}

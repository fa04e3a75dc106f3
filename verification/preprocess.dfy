/** The row filter and transform of `process_excel`: keep the rows whose
    calendar date lies between the start and end dates, both inclusive, in
    their original order, and give each the modified value `constant - raw`. */
module Preprocess {
  import opened Tables

  /** A sheet row as far as the analyzer reads it: the first column (the
      timestamp, in seconds) and the third column (the raw level). */
  datatype Reading = Reading(time: int, raw: real)

  const SecondsPerDay: int := 86400

  /** The calendar day number of a timestamp, as `.dt.date` gives it for a
      naive timestamp (the division rounds down, also before the epoch). */
  function DayOf(t: int): int
  {
    t / SecondsPerDay
  }

  predicate InRange(r: Reading, startDay: int, endDay: int)
  {
    startDay <= DayOf(r.time) <= endDay
  }

  function Transform(r: Reading, constant: real): Row
  {
    Row(r.time, r.raw, constant - r.raw)
  }

  /** The date-range filter followed by the `constant - third column` assignment. */
  function FilterRows(readings: seq<Reading>, startDay: int, endDay: int, constant: real): (out: seq<Row>)
    ensures |out| <= |readings|
    ensures forall p :: p in out ==>
      && p.modified == constant - p.raw
      && startDay <= DayOf(p.time) <= endDay
      && Reading(p.time, p.raw) in readings
    ensures forall r :: r in readings ==> (InRange(r, startDay, endDay) <==> Transform(r, constant) in out)
  {
    if |readings| == 0 then []
    else
      var head := if InRange(readings[0], startDay, endDay) then [Transform(readings[0], constant)] else [];
      var rest := FilterRows(readings[1..], startDay, endDay, constant);
      assert readings == [readings[0]] + readings[1..];
      head + rest
  }

  /** The filter works row by row: the rows kept from two consecutive stretches
      of the sheet are the rows kept from each, in the same order. */
  lemma {:induction false} FilterRowsAppend(a: seq<Reading>, b: seq<Reading>, startDay: int, endDay: int, constant: real)
    ensures FilterRows(a + b, startDay, endDay, constant)
         == FilterRows(a, startDay, endDay, constant) + FilterRows(b, startDay, endDay, constant)
  {
    if |a| > 0 {
      assert (a + b)[0] == a[0];
      assert (a + b)[1..] == a[1..] + b;
      FilterRowsAppend(a[1..], b, startDay, endDay, constant);
    } else {
      assert a + b == b;
    }
  }

  /** The inclusive day range is the half-open range of seconds from midnight
      of the start day up to (not including) midnight after the end day. */
  lemma InRangeSeconds(r: Reading, startDay: int, endDay: int)
    ensures InRange(r, startDay, endDay)
        <==> startDay * SecondsPerDay <= r.time < (endDay + 1) * SecondsPerDay
  {
  }
}

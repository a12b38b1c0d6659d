/** The date ranges of the historical downloaders: every one of them refuses
    a start after its end, and the GMO kline download then walks the range
    one calendar day at a time, both ends included. Instants are
    microseconds since the epoch, as in `EpochTime`. */
module Ranges {
  import opened Wrappers
  import opened EpochTime

  /** The guard shared by the FTX, Bitfinex and GMO downloaders: a start
      after the end raises `ValueError`; equal ends are accepted. */
  function CheckRange(start: int, end: int): (r: Result<int>)
    ensures r.Raised? <==> end < start
    ensures r.Ok? ==> r.value == end - start && r.value >= 0
  {
    if start > end then Raised("ValueError: end_ymd should be after start_ymd.")
    else Ok(end - start)
  }

  /** The days the GMO loop visits from `cur` on: `cur`, then one day later,
      for as long as the day is not after `end`. */
  function Days(cur: int, end: int): seq<int>
    decreases end - cur + MicrosPerDay
  {
    if cur > end then [] else [cur] + Days(cur + MicrosPerDay, end)
  }

  /** The visited days in closed form: day `k` is `k` days after the start,
      each lies in the range, and there are as many as whole days fit in
      the range, plus one for the start. */
  lemma {:induction false} DaysClosedForm(cur: int, end: int)
    requires cur <= end + MicrosPerDay
    ensures |Days(cur, end)| == (end - cur + MicrosPerDay) / MicrosPerDay
    ensures forall k :: 0 <= k < |Days(cur, end)| ==> Days(cur, end)[k] == cur + k * MicrosPerDay
    ensures forall k :: 0 <= k < |Days(cur, end)| ==> cur <= Days(cur, end)[k] <= end
    ensures end < cur + |Days(cur, end)| * MicrosPerDay
    decreases end - cur + MicrosPerDay
  {
    if cur <= end {
      DaysClosedForm(cur + MicrosPerDay, end);
      var rest := Days(cur + MicrosPerDay, end);
      assert Days(cur, end) == [cur] + rest;
      assert (end - cur + MicrosPerDay) / MicrosPerDay == (end - (cur + MicrosPerDay) + MicrosPerDay) / MicrosPerDay + 1;
      forall k | 0 <= k < |Days(cur, end)| ensures Days(cur, end)[k] == cur + k * MicrosPerDay {
        if k > 0 {
          assert Days(cur, end)[k] == rest[k - 1];
        }
      }
    }
  }

  /** The GMO kline download: after the range check, one request per day
      from the start day to the end day inclusive, each request naming its
      day. The result is the sequence of days requested. */
  method GmoKlineDays(start: int, end: int) returns (r: Result<seq<int>>)
    ensures r.Raised? <==> end < start
    ensures r.Ok? ==> r.value == Days(start, end)
    ensures r.Ok? ==> |r.value| == (end - start) / MicrosPerDay + 1
    ensures r.Ok? ==> forall k :: 0 <= k < |r.value| ==> r.value[k] == start + k * MicrosPerDay <= end
  {
    var check := CheckRange(start, end);
    if check.Raised? {
      return Raised(check.message);
    }
    var days: seq<int> := [];
    var cur := start;
    while cur <= end
      invariant cur == start + |days| * MicrosPerDay
      invariant cur <= end + MicrosPerDay
      invariant days + Days(cur, end) == Days(start, end)
      decreases end - cur
    {
      assert Days(cur, end) == [cur] + Days(cur + MicrosPerDay, end);
      days := days + [cur];
      cur := cur + MicrosPerDay;
    }
    assert days == Days(start, end);
    DaysClosedForm(start, end);
    return Ok(days);
  }

  /** Ranges that end on the same day are walked over the same number of
      days: only the whole days between start and end count. */
  lemma DaysWithinDay(start: int, end: int, late: int)
    requires start <= end <= late < start + ((end - start) / MicrosPerDay + 1) * MicrosPerDay
    ensures |Days(start, late)| == |Days(start, end)|
  {
    DaysClosedForm(start, end);
    DaysClosedForm(start, late);
  }

  /** A one-day range visits its single day; midnights `n` days apart give
      `n + 1` days. */
  lemma MidnightRange(start: int, n: nat)
    ensures |Days(start, start + n * MicrosPerDay)| == n + 1
  {
    DaysClosedForm(start, start + n * MicrosPerDay);
    assert (n * MicrosPerDay + MicrosPerDay) / MicrosPerDay == n + 1 by {
      assert n * MicrosPerDay + MicrosPerDay == (n + 1) * MicrosPerDay;
    }
  }
}

/** The polars path of the Bybit and Binance builders: trades read from a
    CSV, their timestamps scaled to microseconds, grouped into fixed windows
    with `group_by_dynamic`, aggregated, and laid against a whole-day
    calendar of window starts. */
module Polars {
  import opened Wrappers
  import opened Buckets
  import opened Candles
  import opened Resampling
  import EpochTime

  /** A row of a trade CSV: a timestamp in the file's unit, price, size and
      the side as the exchange spells it. */
  datatype Tick = Tick(timestamp: real, price: int, size: int, side: string)

  /** Polars' cast of a float to an integer: truncation toward zero. */
  function TruncReal(x: real): (n: int)
    ensures x >= 0.0 ==> n as real <= x < n as real + 1.0
    ensures x < 0.0 ==> n as real - 1.0 < x <= n as real
  {
    if x >= 0.0 then x.Floor else -((-x).Floor)
  }

  /** The `datetime` column: the timestamp times the multiplier, cast to
      microseconds. */
  function TickTime(multiplier: int): Tick -> int
  {
    (t: Tick) => TruncReal(t.timestamp * multiplier as real)
  }

  /** `buy_size` / `sell_size`: the size when the side equals `side`, else 0. */
  function SideSize(side: string): Tick -> int
  {
    (t: Tick) => if t.side == side then t.size else 0
  }

  function TickSize(t: Tick): int
  {
    t.size
  }

  /** A tick seen as a bar. */
  function TickCandle(t: Tick): Candle
  {
    PrintCandle(t.price, t.size)
  }

  /** A row of the aggregated frame: window start, bar, buy and sell volume. */
  datatype PlBar = PlBar(datetime: int, bar: Candle, buyVol: int, sellVol: int)

  function PlVolume(b: PlBar): int
  {
    b.bar.volume
  }

  /** Row `i` aggregates exactly the ticks of its window, which is never
      empty: first, max, min and last price, summed size, and the summed
      sizes of the `buy` and the `sell` ticks. */
  ghost predicate DynamicRow(ticks: seq<Tick>, m: int, every: int, buy: string, sell: string, r: seq<PlBar>, i: int)
    requires 0 <= i < |r|
  {
    var g := Window(ticks, TickTime(m), r[i].datetime, r[i].datetime + every);
    && |g| > 0
    && r[i].bar == Combine(CandlesOf(g, TickCandle))
    && r[i].buyVol == SumBy(g, SideSize(buy))
    && r[i].sellVol == SumBy(g, SideSize(sell))
  }

  /** Some row's window `[datetime, datetime + every)` contains time `t`. */
  ghost predicate InBar(r: seq<PlBar>, every: int, t: int)
  {
    exists i :: 0 <= i < |r| && r[i].datetime <= t < r[i].datetime + every
  }

  /** `_make_ohlcv_from_timestamp`: `group_by_dynamic(every)` over ticks that
      `set_sorted` declares to be in time order. One row per occupied window
      and none for an empty one; window starts are multiples of `every` in
      strictly increasing order. What each row holds is `MakeOhlcvRows`. */
  function MakeOhlcv(ticks: seq<Tick>, buy: string, sell: string, every: int, m: int): (r: seq<PlBar>)
    requires every > 0
    requires SortedBy(ticks, TickTime(m))
    ensures |r| == 0 <==> |ticks| == 0
    ensures forall i :: 0 <= i < |r| ==> r[i].datetime % every == 0
    ensures forall i, j :: 0 <= i < j < |r| ==> r[i].datetime < r[j].datetime
  {
    var key := Floor(TickTime(m), every);
    var runs := Runs(ticks, key);
    var ks := RunKeys(runs, key);
    var r := BarsOfRuns(runs, ks, every, buy, sell);
    RunsHaveShape(ticks, m, every);
    DynamicFacts(ticks, m, every, buy, sell, runs, ks, r);
    r
  }

  /** Each row of `MakeOhlcv` is the aggregation of exactly the ticks of its
      window, and every tick lies in some row's window. */
  lemma MakeOhlcvRows(ticks: seq<Tick>, buy: string, sell: string, every: int, m: int)
    requires every > 0
    requires SortedBy(ticks, TickTime(m))
    ensures var r := MakeOhlcv(ticks, buy, sell, every, m);
            && (forall i :: 0 <= i < |r| ==> DynamicRow(ticks, m, every, buy, sell, r, i))
            && (forall j :: 0 <= j < |ticks| ==> InBar(r, every, TickTime(m)(ticks[j])))
  {
    var key := Floor(TickTime(m), every);
    var runs := Runs(ticks, key);
    var ks := RunKeys(runs, key);
    var r := BarsOfRuns(runs, ks, every, buy, sell);
    assert MakeOhlcv(ticks, buy, sell, every, m) == r;
    RunsHaveShape(ticks, m, every);
    DynamicFacts(ticks, m, every, buy, sell, runs, ks, r);
  }

  /** One row per run, labelled with the start of the run's window. */
  function BarsOfRuns(runs: seq<seq<Tick>>, ks: seq<int>, every: int, buy: string, sell: string): (r: seq<PlBar>)
    requires forall i :: 0 <= i < |runs| ==> |runs[i]| > 0
    requires |ks| == |runs|
    ensures |r| == |runs|
    ensures forall i :: 0 <= i < |r| ==>
              r[i] == PlBar(ks[i] * every, Combine(CandlesOf(runs[i], TickCandle)),
                            SumBy(runs[i], SideSize(buy)), SumBy(runs[i], SideSize(sell)))
  {
    seq(|runs|, i requires 0 <= i < |runs| =>
      PlBar(ks[i] * every, Combine(CandlesOf(runs[i], TickCandle)),
            SumBy(runs[i], SideSize(buy)), SumBy(runs[i], SideSize(sell))))
  }

  /** The run keys: the window number of each run. */
  function RunKeys(runs: seq<seq<Tick>>, key: Tick -> int): (ks: seq<int>)
    requires forall i :: 0 <= i < |runs| ==> |runs[i]| > 0
    ensures |ks| == |runs|
    ensures forall i :: 0 <= i < |ks| ==> ks[i] == key(runs[i][0])
  {
    seq(|runs|, i requires 0 <= i < |runs| => key(runs[i][0]))
  }

  /** What the runs of the window numbers of sorted ticks satisfy: they
      concatenate back to the ticks, each holds a single window number `ks[i]`,
      and those numbers strictly increase. */
  ghost predicate RunShape(ticks: seq<Tick>, m: int, every: int, runs: seq<seq<Tick>>, ks: seq<int>)
    requires every > 0
  {
    && |runs| == |ks|
    && Flatten(runs) == ticks
    && (forall i :: 0 <= i < |runs| ==> |runs[i]| > 0)
    && (forall i, j :: 0 <= i < |runs| && 0 <= j < |runs[i]| ==> Floor(TickTime(m), every)(runs[i][j]) == ks[i])
    && (forall i, j :: 0 <= i < j < |ks| ==> ks[i] < ks[j])
  }

  lemma RunsHaveShape(ticks: seq<Tick>, m: int, every: int)
    requires every > 0 && SortedBy(ticks, TickTime(m))
    ensures var key := Floor(TickTime(m), every);
            var runs := Runs(ticks, key);
            RunShape(ticks, m, every, runs, RunKeys(runs, key))
  {
    var key := Floor(TickTime(m), every);
    var runs := Runs(ticks, key);
    var ks := RunKeys(runs, key);
    SortedFloor(ticks, TickTime(m), every);
    RunsAscending(ticks, key);
    RunsUniform(ticks, key);
    RunsFlatten(ticks, key);
    AscendingDistinct(ks);
  }

  lemma DynamicFacts(ticks: seq<Tick>, m: int, every: int, buy: string, sell: string,
                     runs: seq<seq<Tick>>, ks: seq<int>, r: seq<PlBar>)
    requires every > 0 && RunShape(ticks, m, every, runs, ks)
    requires |r| == |runs|
    requires forall i :: 0 <= i < |r| ==>
               r[i] == PlBar(ks[i] * every, Combine(CandlesOf(runs[i], TickCandle)),
                             SumBy(runs[i], SideSize(buy)), SumBy(runs[i], SideSize(sell)))
    ensures |r| == 0 <==> |ticks| == 0
    ensures forall i :: 0 <= i < |r| ==> r[i].datetime % every == 0
    ensures forall i, j :: 0 <= i < j < |r| ==> r[i].datetime < r[j].datetime
    ensures forall i :: 0 <= i < |r| ==> DynamicRow(ticks, m, every, buy, sell, r, i)
    ensures forall j :: 0 <= j < |ticks| ==> InBar(r, every, TickTime(m)(ticks[j]))
  {
    if |r| == 0 {
      assert Flatten(runs) == [];
    }
    DynamicStarts(every, ks, r);
    DynamicRows(ticks, m, every, buy, sell, runs, ks, r);
    DynamicCovers(ticks, m, every, runs, ks, r);
  }

  lemma DynamicStarts(every: int, ks: seq<int>, r: seq<PlBar>)
    requires every > 0 && |r| == |ks|
    requires forall i :: 0 <= i < |r| ==> r[i].datetime == ks[i] * every
    requires forall i, j :: 0 <= i < j < |ks| ==> ks[i] < ks[j]
    ensures forall i :: 0 <= i < |r| ==> r[i].datetime % every == 0
    ensures forall i, j :: 0 <= i < j < |r| ==> r[i].datetime < r[j].datetime
  {
    forall i | 0 <= i < |r| ensures r[i].datetime % every == 0 {
      StartAligned(ks[i], every);
    }
    forall i, j | 0 <= i < j < |r| ensures r[i].datetime < r[j].datetime {
      MulMono(ks[i] + 1, ks[j], every);
    }
  }

  lemma DynamicRows(ticks: seq<Tick>, m: int, every: int, buy: string, sell: string,
                    runs: seq<seq<Tick>>, ks: seq<int>, r: seq<PlBar>)
    requires every > 0 && RunShape(ticks, m, every, runs, ks)
    requires |r| == |runs|
    requires forall i :: 0 <= i < |r| ==>
               r[i] == PlBar(ks[i] * every, Combine(CandlesOf(runs[i], TickCandle)),
                             SumBy(runs[i], SideSize(buy)), SumBy(runs[i], SideSize(sell)))
    ensures forall i :: 0 <= i < |r| ==> DynamicRow(ticks, m, every, buy, sell, r, i)
  {
    forall i | 0 <= i < |r| ensures DynamicRow(ticks, m, every, buy, sell, r, i) {
      RowOfRun(ticks, m, every, buy, sell, runs, ks, r, i);
    }
  }

  lemma RowOfRun(ticks: seq<Tick>, m: int, every: int, buy: string, sell: string,
                 runs: seq<seq<Tick>>, ks: seq<int>, r: seq<PlBar>, i: int)
    requires every > 0 && RunShape(ticks, m, every, runs, ks)
    requires |r| == |runs| && 0 <= i < |r|
    requires r[i] == PlBar(ks[i] * every, Combine(CandlesOf(runs[i], TickCandle)),
                           SumBy(runs[i], SideSize(buy)), SumBy(runs[i], SideSize(sell)))
    ensures DynamicRow(ticks, m, every, buy, sell, r, i)
  {
    RunIsWindow(ticks, m, every, runs, ks, i);
    var g := Window(ticks, TickTime(m), r[i].datetime, r[i].datetime + every);
    assert g == runs[i];
  }

  lemma DynamicCovers(ticks: seq<Tick>, m: int, every: int, runs: seq<seq<Tick>>, ks: seq<int>, r: seq<PlBar>)
    requires every > 0 && RunShape(ticks, m, every, runs, ks)
    requires |r| == |runs|
    requires forall i :: 0 <= i < |r| ==> r[i].datetime == ks[i] * every
    ensures forall j :: 0 <= j < |ticks| ==> InBar(r, every, TickTime(m)(ticks[j]))
  {
    forall j | 0 <= j < |ticks| ensures InBar(r, every, TickTime(m)(ticks[j])) {
      TickInRun(ticks, m, every, runs, ks, j);
      var i :| 0 <= i < |ks| && ks[i] == Floor(TickTime(m), every)(ticks[j]);
      DivWindow(TickTime(m)(ticks[j]), every, ks[i]);
      assert r[i].datetime == ks[i] * every;
    }
  }

  /** Run `i` is exactly the window of its key. */
  lemma RunIsWindow(ticks: seq<Tick>, m: int, every: int, runs: seq<seq<Tick>>, ks: seq<int>, i: int)
    requires every > 0 && RunShape(ticks, m, every, runs, ks)
    requires 0 <= i < |runs|
    ensures runs[i] == Window(ticks, TickTime(m), ks[i] * every, ks[i] * every + every)
  {
    PickGroup(runs, ks, Floor(TickTime(m), every), ks[i]);
    BucketIsWindow(ticks, TickTime(m), every, ks[i]);
  }

  /** Every tick belongs to the run of its own key. */
  lemma TickInRun(ticks: seq<Tick>, m: int, every: int, runs: seq<seq<Tick>>, ks: seq<int>, j: int)
    requires every > 0 && RunShape(ticks, m, every, runs, ks)
    requires 0 <= j < |ticks|
    ensures exists i :: 0 <= i < |ks| && ks[i] == Floor(TickTime(m), every)(ticks[j])
  {
    var key := Floor(TickTime(m), every);
    WithKeyHit(ticks, key, key(ticks[j]));
    PickGroup(runs, ks, key, key(ticks[j]));
  }

  /** The windows partition the ticks: the rows' volumes add up to the total
      traded size. */
  lemma MakeOhlcvVolume(ticks: seq<Tick>, buy: string, sell: string, every: int, m: int)
    requires every > 0
    requires SortedBy(ticks, TickTime(m))
    ensures SumBy(MakeOhlcv(ticks, buy, sell, every, m), PlVolume) == SumBy(ticks, TickSize)
  {
    var key := Floor(TickTime(m), every);
    var runs := Runs(ticks, key);
    var r := MakeOhlcv(ticks, buy, sell, every, m);
    assert r == BarsOfRuns(runs, RunKeys(runs, key), every, buy, sell);
    forall i | 0 <= i < |r| ensures PlVolume(r[i]) == SumBy(runs[i], TickSize) {
      TickCandlesVolume(runs[i]);
    }
    SumPointwise(r, runs, PlVolume, TickSize);
    SumOfGroupsFlatten(runs, TickSize);
    RunsFlatten(ticks, key);
  }

  lemma {:induction false} TickCandlesVolume(g: seq<Tick>)
    ensures SumBy(CandlesOf(g, TickCandle), VolumeOf) == SumBy(g, TickSize)
    decreases |g|
  {
    if |g| > 0 {
      TickCandlesVolume(g[1..]);
      assert CandlesOf(g, TickCandle)[1..] == CandlesOf(g[1..], TickCandle);
    }
  }

  predicate TickSizeNonNegative(t: Tick)
  {
    t.size >= 0
  }

  /** With two different side labels and non-negative sizes, the buy and the
      sell sizes of a group add up to at most its total size, and to exactly
      its total when every tick carries one of the two labels. */
  lemma {:induction false} SidesWithinSize(g: seq<Tick>, buy: string, sell: string)
    requires buy != sell
    requires forall j :: 0 <= j < |g| ==> TickSizeNonNegative(g[j])
    ensures SumBy(g, SideSize(buy)) + SumBy(g, SideSize(sell)) <= SumBy(g, TickSize)
    ensures (forall j :: 0 <= j < |g| ==> g[j].side == buy || g[j].side == sell) ==>
              SumBy(g, SideSize(buy)) + SumBy(g, SideSize(sell)) == SumBy(g, TickSize)
    decreases |g|
  {
    if |g| > 0 {
      assert forall j :: 0 <= j < |g[1..]| ==> TickSizeNonNegative(g[1..][j]) by {
        forall j | 0 <= j < |g[1..]| ensures TickSizeNonNegative(g[1..][j]) { assert g[1..][j] == g[j + 1]; }
      }
      SidesWithinSize(g[1..], buy, sell);
      if forall j :: 0 <= j < |g| ==> g[j].side == buy || g[j].side == sell {
        assert forall j :: 0 <= j < |g[1..]| ==> g[1..][j].side == buy || g[1..][j].side == sell by {
          forall j | 0 <= j < |g[1..]| ensures g[1..][j].side == buy || g[1..][j].side == sell {
            assert g[1..][j] == g[j + 1];
          }
        }
      }
    }
  }

  /** Per row, with non-negative sizes and two different side labels,
      `buy_vol + sell_vol <= volume`, with equality when every tick of the
      window is labelled `buy` or `sell`. */
  lemma MakeOhlcvSides(ticks: seq<Tick>, buy: string, sell: string, every: int, m: int, i: int)
    requires every > 0 && buy != sell
    requires SortedBy(ticks, TickTime(m))
    requires forall j :: 0 <= j < |ticks| ==> ticks[j].size >= 0
    requires 0 <= i < |MakeOhlcv(ticks, buy, sell, every, m)|
    ensures var b := MakeOhlcv(ticks, buy, sell, every, m)[i];
            b.buyVol + b.sellVol <= b.bar.volume
    ensures (forall j :: 0 <= j < |ticks| ==> ticks[j].side == buy || ticks[j].side == sell) ==>
              var b := MakeOhlcv(ticks, buy, sell, every, m)[i];
              b.buyVol + b.sellVol == b.bar.volume
  {
    var r := MakeOhlcv(ticks, buy, sell, every, m);
    MakeOhlcvRows(ticks, buy, sell, every, m);
    RowSides(ticks, buy, sell, every, m, r, i);
  }

  lemma RowSides(ticks: seq<Tick>, buy: string, sell: string, every: int, m: int, r: seq<PlBar>, i: int)
    requires every > 0 && buy != sell && 0 <= i < |r|
    requires forall j :: 0 <= j < |ticks| ==> ticks[j].size >= 0
    requires DynamicRow(ticks, m, every, buy, sell, r, i)
    ensures r[i].buyVol + r[i].sellVol <= r[i].bar.volume
    ensures (forall j :: 0 <= j < |ticks| ==> ticks[j].side == buy || ticks[j].side == sell) ==>
              r[i].buyVol + r[i].sellVol == r[i].bar.volume
  {
    var lo := r[i].datetime;
    var g := Window(ticks, TickTime(m), lo, lo + every);
    DynamicRowSums(ticks, m, every, buy, sell, r, i);
    WindowLabels(ticks, m, lo, lo + every, buy, sell);
    var labelled := forall j :: 0 <= j < |ticks| ==> ticks[j].side == buy || ticks[j].side == sell;
    GroupSides(g, buy, sell, labelled, r[i].bar.volume, r[i].buyVol, r[i].sellVol);
  }

  /** A window keeps the non-negative sizes and the side labels of the
      ticks it is cut from. */
  lemma WindowLabels(ticks: seq<Tick>, m: int, lo: int, hi: int, buy: string, sell: string)
    requires forall j :: 0 <= j < |ticks| ==> ticks[j].size >= 0
    ensures var g := Window(ticks, TickTime(m), lo, hi);
            && (forall j :: 0 <= j < |g| ==> TickSizeNonNegative(g[j]))
            && ((forall j :: 0 <= j < |ticks| ==> ticks[j].side == buy || ticks[j].side == sell) ==>
                forall j :: 0 <= j < |g| ==> g[j].side == buy || g[j].side == sell)
  {
    assert forall j :: 0 <= j < |ticks| ==> TickSizeNonNegative(ticks[j]);
    WindowKeeps(ticks, TickTime(m), lo, hi, TickSizeNonNegative);
    if forall j :: 0 <= j < |ticks| ==> ticks[j].side == buy || ticks[j].side == sell {
      WindowKeeps(ticks, TickTime(m), lo, hi, (t: Tick) => t.side == buy || t.side == sell);
    }
  }

  /** The side volumes of a group of ticks against its volume. */
  lemma GroupSides(g: seq<Tick>, buy: string, sell: string, labelled: bool, volume: int, buyVol: int, sellVol: int)
    requires buy != sell
    requires forall j :: 0 <= j < |g| ==> TickSizeNonNegative(g[j])
    requires labelled ==> forall j :: 0 <= j < |g| ==> g[j].side == buy || g[j].side == sell
    requires volume == SumBy(g, TickSize) && buyVol == SumBy(g, SideSize(buy)) && sellVol == SumBy(g, SideSize(sell))
    ensures buyVol + sellVol <= volume
    ensures labelled ==> buyVol + sellVol == volume
  {
    SidesWithinSize(g, buy, sell);
  }

  /** A dynamic row's volume and side volumes are sums over its window. */
  lemma DynamicRowSums(ticks: seq<Tick>, m: int, every: int, buy: string, sell: string, r: seq<PlBar>, i: int)
    requires 0 <= i < |r|
    requires DynamicRow(ticks, m, every, buy, sell, r, i)
    ensures var g := Window(ticks, TickTime(m), r[i].datetime, r[i].datetime + every);
            && r[i].bar.volume == SumBy(g, TickSize)
            && r[i].buyVol == SumBy(g, SideSize(buy))
            && r[i].sellVol == SumBy(g, SideSize(sell))
  {
    var g := Window(ticks, TickTime(m), r[i].datetime, r[i].datetime + every);
    TickCandlesVolume(g);
  }

  /** `pl.datetime_range(start, end, every)`, both ends included: exactly the
      times from `start` to `end` that are a whole number of steps after
      `start`, in increasing order. */
  function DatetimeRange(start: int, end: int, every: int): (r: seq<int>)
    requires every > 0
    ensures forall x :: x in r <==> start <= x <= end && (x - start) % every == 0
    ensures forall i, j :: 0 <= i < j < |r| ==> r[i] < r[j]
  {
    if end < start then []
    else
      var n := (end - start) / every + 1;
      var r := seq(n, i requires 0 <= i < n => start + i * every);
      RangeFacts(start, end, every, r);
      r
  }

  lemma RangeFacts(start: int, end: int, every: int, r: seq<int>)
    requires every > 0 && start <= end
    requires |r| == (end - start) / every + 1
    requires forall i :: 0 <= i < |r| ==> r[i] == start + i * every
    ensures forall x :: x in r <==> start <= x <= end && (x - start) % every == 0
    ensures forall i, j :: 0 <= i < j < |r| ==> r[i] < r[j]
  {
    forall x | x in r ensures start <= x <= end && (x - start) % every == 0 {
      var i :| 0 <= i < |r| && r[i] == x;
      RangeMember(start, end, every, i);
    }
    forall x | start <= x <= end && (x - start) % every == 0 ensures x in r {
      var i := (x - start) / every;
      RangeIndex(start, end, every, x);
      assert r[i] == x;
    }
    forall i, j | 0 <= i < j < |r| ensures r[i] < r[j] {
      MulMono(i + 1, j, every);
    }
  }

  /** Step `i` of the range, for `i` up to the step count, stays in range and
      on the grid. */
  lemma RangeMember(start: int, end: int, every: int, i: int)
    requires every > 0 && start <= end
    requires 0 <= i <= (end - start) / every
    ensures start <= start + i * every <= end
    ensures (i * every) % every == 0
  {
    var q := (end - start) / every;
    DivWindow(end - start, every, q);
    MulMono(0, i, every);
    MulMono(i, q, every);
    StartAligned(i, every);
  }

  /** A grid time in range is step `(x - start) / every` of it. */
  lemma RangeIndex(start: int, end: int, every: int, x: int)
    requires every > 0 && start <= x <= end && (x - start) % every == 0
    ensures 0 <= (x - start) / every <= (end - start) / every
    ensures start + (x - start) / every * every == x
  {
    DivWindow(x - start, every, (x - start) / every);
    FloorMonotone(x - start, end - start, every);
    FloorMonotone(0, x - start, every);
  }

  /** The calendar `bybit_make_ohlcv` and `binance_make_ohlcv` merge with: from
      midnight of the first row's day to one second before the midnight that
      ends the last row's day, in steps of `every`. */
  function DayCalendar(first: int, last: int, every: int): (r: seq<int>)
    requires every > 0
    ensures forall x :: x in r <==>
              Midnight(first) <= x <= Midnight(last) + EpochTime.MicrosPerDay - EpochTime.MicrosPerSecond
              && (x - Midnight(first)) % every == 0
  {
    DatetimeRange(Midnight(first), Midnight(last) + EpochTime.MicrosPerDay - EpochTime.MicrosPerSecond, every)
  }

  /** The two inputs of the merge: the calendar and the aggregated frame. */
  datatype Frames = Frames(calendar: seq<int>, bars: seq<PlBar>)

  /** The multiplier that turns Bybit's second timestamps into microseconds. */
  const BybitMultiplier := 1_000_000

  /** `bybit_make_ohlcv`: the aggregated frame of the day's trades with "Buy"
      and "Sell" as the side labels, and its day calendar. Reading the first
      datetime of an empty frame raises. */
  function BybitMakeOhlcv(ticks: seq<Tick>, every: int): (r: Result<Frames>)
    requires every > 0
    requires SortedBy(ticks, TickTime(BybitMultiplier))
    ensures r.Raised? <==> |ticks| == 0
    ensures r.Ok? ==> r.value.bars == MakeOhlcv(ticks, "Buy", "Sell", every, BybitMultiplier)
    ensures r.Ok? ==> |r.value.bars| > 0
    ensures r.Ok? ==>
              r.value.calendar == DayCalendar(r.value.bars[0].datetime, r.value.bars[|r.value.bars| - 1].datetime, every)
  {
    WithCalendar(MakeOhlcv(ticks, "Buy", "Sell", every, BybitMultiplier), every)
  }

  /** A non-empty frame together with its day calendar. */
  function WithCalendar(bars: seq<PlBar>, every: int): (r: Result<Frames>)
    requires every > 0
    ensures r.Raised? <==> |bars| == 0
    ensures r.Ok? ==> r.value.bars == bars
    ensures r.Ok? ==> r.value.calendar == DayCalendar(bars[0].datetime, bars[|bars| - 1].datetime, every)
  {
    if |bars| == 0 then Raised("index 0 is out of bounds for sequence of length 0")
    else Ok(Frames(DayCalendar(bars[0].datetime, bars[|bars| - 1].datetime, every), bars))
  }

  /** When a whole number of windows fills a day and windows are whole
      seconds, every row of the Bybit frame has its slot in the calendar. */
  lemma CalendarCoversBars(ticks: seq<Tick>, every: int)
    requires every > 0
    requires EpochTime.MicrosPerDay % every == 0 && every % EpochTime.MicrosPerSecond == 0
    requires SortedBy(ticks, TickTime(BybitMultiplier))
    ensures var r := BybitMakeOhlcv(ticks, every);
            r.Ok? ==> forall i :: 0 <= i < |r.value.bars| ==> r.value.bars[i].datetime in r.value.calendar
  {
    var r := BybitMakeOhlcv(ticks, every);
    if r.Ok? {
      assert CalendarReady(r.value, every);
      FramesCovered(r.value, every);
    }
  }

  /** Aligned, increasing rows with the day calendar of their first and last
      row. */
  predicate CalendarReady(f: Frames, every: int)
    requires every > 0
  {
    && |f.bars| > 0
    && (forall i :: 0 <= i < |f.bars| ==> f.bars[i].datetime % every == 0)
    && (forall i, j :: 0 <= i < j < |f.bars| ==> f.bars[i].datetime < f.bars[j].datetime)
    && f.calendar == DayCalendar(f.bars[0].datetime, f.bars[|f.bars| - 1].datetime, every)
  }

  lemma FramesCovered(f: Frames, every: int)
    requires every > 0
    requires EpochTime.MicrosPerDay % every == 0 && every % EpochTime.MicrosPerSecond == 0
    requires CalendarReady(f, every)
    ensures forall i :: 0 <= i < |f.bars| ==> f.bars[i].datetime in f.calendar
  {
    BarsInCalendar(f.bars, every);
  }

  /** Aligned, increasing rows all lie in the day calendar of their first
      and last row. */
  lemma BarsInCalendar(bars: seq<PlBar>, every: int)
    requires every > 0
    requires EpochTime.MicrosPerDay % every == 0 && every % EpochTime.MicrosPerSecond == 0
    requires |bars| > 0
    requires forall i :: 0 <= i < |bars| ==> bars[i].datetime % every == 0
    requires forall i, j :: 0 <= i < j < |bars| ==> bars[i].datetime < bars[j].datetime
    ensures forall i :: 0 <= i < |bars| ==>
              bars[i].datetime in DayCalendar(bars[0].datetime, bars[|bars| - 1].datetime, every)
  {
    forall i | 0 <= i < |bars|
      ensures bars[i].datetime in DayCalendar(bars[0].datetime, bars[|bars| - 1].datetime, every)
    {
      assert i > 0 ==> bars[0].datetime < bars[i].datetime;
      assert i < |bars| - 1 ==> bars[i].datetime < bars[|bars| - 1].datetime;
      InCalendar(bars[0].datetime, bars[i].datetime, bars[|bars| - 1].datetime, every);
    }
  }

  /** A multiple of `every` between two multiples of `every` lies in their
      day calendar. */
  lemma InCalendar(first: int, d: int, last: int, every: int)
    requires every > 0
    requires EpochTime.MicrosPerDay % every == 0 && every % EpochTime.MicrosPerSecond == 0
    requires first <= d <= last
    requires d % every == 0 && last % every == 0
    ensures d in DayCalendar(first, last, every)
  {
    var day := EpochTime.MicrosPerDay;
    var start := Midnight(first);
    var m := Midnight(last);
    MultipleOfMultiple(start, day, every);
    MultipleOfMultiple(m, day, every);
    MultipleDifference(d, start, every);
    MultipleDifference(last, m, every);
    MultipleBelow(last - m, day, every);
    DivWindow(every, EpochTime.MicrosPerSecond, every / EpochTime.MicrosPerSecond);
    MulMono(1, every / EpochTime.MicrosPerSecond, EpochTime.MicrosPerSecond);
  }

  /** A multiple of a multiple of `w` is a multiple of `w`. */
  lemma MultipleOfMultiple(a: int, d: int, w: int)
    requires w > 0 && d > 0 && a % d == 0 && d % w == 0
    ensures a % w == 0
  {
    DivWindow(a, d, a / d);
    DivWindow(d, w, d / w);
    assert a == (a / d) * (d / w) * w;
    StartAligned((a / d) * (d / w), w);
  }

  /** The difference of two multiples of `w` is a multiple of `w`. */
  lemma MultipleDifference(a: int, b: int, w: int)
    requires w > 0 && a % w == 0 && b % w == 0
    ensures (a - b) % w == 0
  {
    DivWindow(a, w, a / w);
    DivWindow(b, w, b / w);
    assert a - b == (a / w - b / w) * w;
    StartAligned(a / w - b / w, w);
  }

  /** Below a multiple `d` of `w`, a multiple of `w` is at most `d - w`. */
  lemma MultipleBelow(x: int, d: int, w: int)
    requires w > 0 && 0 <= x < d && x % w == 0 && d % w == 0
    ensures x <= d - w
  {
    DivWindow(x, w, x / w);
    DivWindow(d, w, d / w);
    if x / w >= d / w {
      MulMono(d / w, x / w, w);
    }
    MulMono(x / w + 1, d / w, w);
  }

  /** The multiplier that turns Binance's millisecond timestamps into
      microseconds. */
  const BinanceMultiplier := 1_000

  /** `binance_make_ohlcv`: the day calendar for a frame aggregated elsewhere,
      given the datetimes of its rows. Reading the first datetime of an empty
      frame raises. */
  function BinanceCalendar(datetimes: seq<int>, every: int): (r: Result<seq<int>>)
    requires every > 0
    ensures r.Raised? <==> |datetimes| == 0
    ensures r.Ok? ==> forall x :: x in r.value <==>
              Midnight(datetimes[0]) <= x <= Midnight(datetimes[|datetimes| - 1]) + EpochTime.MicrosPerDay - EpochTime.MicrosPerSecond
              && (x - Midnight(datetimes[0])) % every == 0
  {
    if |datetimes| == 0 then Raised("index 0 is out of bounds for sequence of length 0")
    else Ok(DayCalendar(datetimes[0], datetimes[|datetimes| - 1], every))
  }
}

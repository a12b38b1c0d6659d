/** Time-bucketed OHLCV frames: pandas `resample_ohlc` and
    `trades_to_historical`, the polars `_make_ohlcv_from_timestamp`, and the
    whole-day calendar the Bybit and Binance builders merge the bars into.
    Times are microseconds since the epoch; a bucket of width `w` starting at
    `s` holds the rows with `s <= time < s + w`. Pandas sorts an unsorted
    index stably before grouping and, with its default `origin='start_day'`,
    counts bucket starts from the midnight of the earliest row's day; the
    polars buckets start at multiples of `w`. */
module Resampling {
  import opened Wrappers
  import opened Buckets
  import opened Candles
  import EpochTime

  /** The rows whose time lies in `[lo, hi)`, in their original order: the
      reference for what a bucket aggregates. */
  function Window<T>(xs: seq<T>, time: T -> int, lo: int, hi: int): (r: seq<T>)
    ensures forall j :: 0 <= j < |r| ==> lo <= time(r[j]) < hi
    decreases |xs|
  {
    if |xs| == 0 then []
    else (if lo <= time(xs[0]) < hi then [xs[0]] else []) + Window(xs[1..], time, lo, hi)
  }

  /** The bucket number of a row for buckets of width `w`. */
  function Floor<T>(time: T -> int, w: int): T -> int
    requires w > 0
  {
    x => time(x) / w
  }

  /** The bucket number of a row for buckets of width `w` counted from `o`. */
  function Bucket<T>(time: T -> int, w: int, o: int): T -> int
    requires w > 0
  {
    x => (time(x) - o) / w
  }

  /** A window holds only rows of its input. */
  lemma {:induction false} WindowSubset<T>(xs: seq<T>, time: T -> int, lo: int, hi: int)
    ensures multiset(Window(xs, time, lo, hi)) <= multiset(xs)
    decreases |xs|
  {
    if |xs| > 0 {
      WindowSubset(xs[1..], time, lo, hi);
      assert xs == [xs[0]] + xs[1..];
    }
  }

  lemma WindowCons<T>(x: T, s: seq<T>, time: T -> int, lo: int, hi: int)
    ensures Window([x] + s, time, lo, hi) == (if lo <= time(x) < hi then [x] else []) + Window(s, time, lo, hi)
  {
    assert ([x] + s)[0] == x && ([x] + s)[1..] == s;
  }

  /** Putting a row into sorted rows and then taking a window is taking the
      window and then putting the row in, if it lies in the window. */
  lemma {:induction false} WindowInsert<T>(x: T, s: seq<T>, time: T -> int, lo: int, hi: int)
    requires SortedBy(s, time)
    ensures Window(Insert(x, s, time), time, lo, hi)
            == if lo <= time(x) < hi then Insert(x, Window(s, time, lo, hi), time) else Window(s, time, lo, hi)
    decreases |s|
  {
    var ws := Window(s, time, lo, hi);
    if |s| == 0 || time(x) <= time(s[0]) {
      WindowInsertFront(x, s, time, lo, hi);
    } else {
      var t := Insert(x, s[1..], time);
      var w1 := Window(s[1..], time, lo, hi);
      InsertPast(x, s, time);
      WindowCons(s[0], t, time, lo, hi);
      WindowCons(s[0], s[1..], time, lo, hi);
      assert [s[0]] + s[1..] == s;
      assert SortedBy(s[1..], time);
      WindowInsert(x, s[1..], time, lo, hi);
      if lo <= time(s[0]) < hi {
        assert ws == [s[0]] + w1;
        if lo <= time(x) < hi {
          assert ([s[0]] + w1)[0] == s[0] && ([s[0]] + w1)[1..] == w1;
          InsertPast(x, [s[0]] + w1, time);
        }
      } else {
        assert ws == w1;
        assert Window(Insert(x, s, time), time, lo, hi) == Window(t, time, lo, hi);
      }
    }
  }

  lemma WindowInsertFront<T>(x: T, s: seq<T>, time: T -> int, lo: int, hi: int)
    requires SortedBy(s, time)
    requires |s| == 0 || time(x) <= time(s[0])
    ensures Window(Insert(x, s, time), time, lo, hi)
            == if lo <= time(x) < hi then Insert(x, Window(s, time, lo, hi), time) else Window(s, time, lo, hi)
  {
    var ws := Window(s, time, lo, hi);
    InsertFront(x, s, time);
    WindowCons(x, s, time, lo, hi);
    if lo <= time(x) < hi {
      if |ws| > 0 {
        WindowSubset(s, time, lo, hi);
        assert ws[0] in multiset(ws);
        var j :| 0 <= j < |s| && s[j] == ws[0];
        assert time(s[0]) <= time(s[j]);
      }
      InsertFront(x, ws, time);
    } else {
      assert [] + ws == ws;
    }
  }

  /** The rows of a window of the sorted rows are the window's rows of the
      input, sorted: in time order, and in input order among equal times. */
  lemma {:induction false} WindowOfSorted<T>(xs: seq<T>, time: T -> int, lo: int, hi: int)
    ensures Window(StableSort(xs, time), time, lo, hi) == StableSort(Window(xs, time, lo, hi), time)
    decreases |xs|
  {
    if |xs| > 0 {
      var s1 := StableSort(xs[1..], time);
      var w1 := Window(xs[1..], time, lo, hi);
      assert StableSort(xs, time) == Insert(xs[0], s1, time);
      StableSortSorted(xs[1..], time);
      WindowInsert(xs[0], s1, time, lo, hi);
      WindowOfSorted(xs[1..], time, lo, hi);
      WindowCons(xs[0], xs[1..], time, lo, hi);
      assert [xs[0]] + xs[1..] == xs;
      if lo <= time(xs[0]) < hi {
        assert Window(xs, time, lo, hi) == [xs[0]] + w1;
        StableSortCons(xs[0], w1, time);
      } else {
        assert Window(xs, time, lo, hi) == w1;
      }
    }
  }

  lemma MulMono(a: int, b: int, w: int)
    requires a <= b && w >= 0
    ensures a * w <= b * w
  {
    assert b * w - a * w == (b - a) * w;
  }

  /** A time falls in bucket `k` exactly when it lies in `[k * w, k * w + w)`. */
  lemma DivWindow(t: int, w: int, k: int)
    requires w > 0
    ensures t / w == k <==> k * w <= t < k * w + w
  {
    var q := t / w;
    var r := t % w;
    assert t == q * w + r && 0 <= r < w;
    if q < k {
      MulMono(q + 1, k, w);
      assert (q + 1) * w == q * w + w;
    } else if q > k {
      MulMono(k + 1, q, w);
      assert (k + 1) * w == k * w + w;
    }
  }

  /** Bucket starts are multiples of the width. */
  lemma StartAligned(k: int, w: int)
    requires w > 0
    ensures (k * w) % w == 0
  {
    DivWindow(k * w, w, k);
    assert k * w == (k * w) / w * w + (k * w) % w;
  }

  /** Filtering by bucket number is filtering by the bucket's time window. */
  lemma {:induction false} BucketIsWindow<T>(xs: seq<T>, time: T -> int, w: int, k: int)
    requires w > 0
    ensures WithKey(xs, Floor(time, w), k) == Window(xs, time, k * w, k * w + w)
    decreases |xs|
  {
    if |xs| > 0 {
      DivWindow(time(xs[0]), w, k);
      BucketIsWindow(xs[1..], time, w, k);
    }
  }

  /** The same with buckets counted from `o`. */
  lemma {:induction false} BucketWindow<T>(xs: seq<T>, time: T -> int, w: int, o: int, k: int, lo: int)
    requires w > 0 && lo == k * w + o
    ensures WithKey(xs, Bucket(time, w, o), k) == Window(xs, time, lo, lo + w)
    decreases |xs|
  {
    if |xs| > 0 {
      DivWindow(time(xs[0]) - o, w, k);
      BucketWindow(xs[1..], time, w, o, k, lo);
    }
  }

  /** Bucket numbers never decrease along rows in time order. */
  lemma SortedFloor<T>(xs: seq<T>, time: T -> int, w: int)
    requires w > 0 && SortedBy(xs, time)
    ensures SortedBy(xs, Floor(time, w))
  {
    forall i, j | 0 <= i < j < |xs| ensures Floor(time, w)(xs[i]) <= Floor(time, w)(xs[j]) {
      FloorMonotone(time(xs[i]), time(xs[j]), w);
    }
  }

  lemma SortedBucket<T>(xs: seq<T>, time: T -> int, w: int, o: int)
    requires w > 0 && SortedBy(xs, time)
    ensures SortedBy(xs, Bucket(time, w, o))
  {
    forall i, j | 0 <= i < j < |xs| ensures Bucket(time, w, o)(xs[i]) <= Bucket(time, w, o)(xs[j]) {
      FloorMonotone(time(xs[i]) - o, time(xs[j]) - o, w);
    }
  }

  lemma FloorMonotone(a: int, b: int, w: int)
    requires w > 0 && a <= b
    ensures a / w <= b / w
  {
    DivWindow(a, w, a / w);
    DivWindow(b, w, b / w);
    if a / w > b / w {
      MulMono(b / w + 1, a / w, w);
    }
  }

  /** One output row: the bucket start and its bar. */
  datatype Row = Row(start: int, bar: Candle)

  function RowVolume(r: Row): int
  {
    r.bar.volume
  }

  /** The per-bucket aggregate of the occupied buckets, `None` for empty ones. */
  function Cells<T>(slots: seq<Slot<T>>, view: T -> Candle): (r: seq<Option<Candle>>)
    ensures |r| == |slots|
    ensures forall i :: 0 <= i < |slots| ==>
              r[i] == if |slots[i].members| > 0 then Some(Combine(CandlesOf(slots[i].members, view))) else None
  {
    seq(|slots|, i requires 0 <= i < |slots| =>
      if |slots[i].members| > 0 then Some(Combine(CandlesOf(slots[i].members, view))) else None)
  }

  /** Bucketing with starts at `o` plus multiples of `w`, followed by a gap
      fill: one row per bucket from the earliest row's to the latest row's,
      with consecutive starts; a row with data aggregates exactly the rows in
      its window, in their order, an empty one is filled from the row before
      it, and every input row falls in the window of some row. */
  function AggregateFrom<T>(xs: seq<T>, time: T -> int, w: int, o: int, view: T -> Candle, p: GapPolicy): (r: seq<Row>)
    requires w > 0
    ensures |r| == 0 <==> |xs| == 0
    ensures OnGrid(r, RowStart, o, w)
    ensures AggregatedRows(xs, time, w, view, p, r)
    ensures Covers(r, RowStart, w, xs, time)
  {
    var slots := Bins(xs, Bucket(time, w, o));
    var cells := Cells(slots, view);
    assert |cells| > 0 ==> cells[0].Some? by {
      if |cells| > 0 { assert |slots[0].members| > 0; }
    }
    var filled := FillForward(cells, p);
    var r := Label(slots, filled, w, o);
    AggregateFacts(xs, time, w, o, view, p, slots, filled, r);
    r
  }

  /** Each bucket's bar under its start time. */
  function Label<T>(slots: seq<Slot<T>>, filled: seq<Candle>, w: int, o: int): (r: seq<Row>)
    requires |filled| == |slots|
    ensures |r| == |slots|
    ensures forall i :: 0 <= i < |r| ==> r[i] == Row(slots[i].key * w + o, filled[i])
  {
    seq(|slots|, i requires 0 <= i < |slots| => Row(slots[i].key * w + o, filled[i]))
  }

  lemma AggregateFacts<T>(xs: seq<T>, time: T -> int, w: int, o: int, view: T -> Candle, p: GapPolicy,
                          slots: seq<Slot<T>>, filled: seq<Candle>, r: seq<Row>)
    requires w > 0 && slots == Bins(xs, Bucket(time, w, o))
    requires filled == FillForward(Cells(slots, view), p)
    requires |r| == |slots|
    requires forall i :: 0 <= i < |r| ==> r[i] == Row(slots[i].key * w + o, filled[i])
    ensures |r| == 0 <==> |xs| == 0
    ensures OnGrid(r, RowStart, o, w)
    ensures AggregatedRows(xs, time, w, view, p, r)
    ensures Covers(r, RowStart, w, xs, time)
  {
    AggregateShape(xs, time, w, o, slots, filled, r);
    AggregateRows(xs, time, w, o, view, p, slots, filled, r);
    AggregateCovers(xs, time, w, o, slots, r);
  }

  /** Row `i` aggregates exactly the rows in its window, or, with none there,
      is the gap bar of the row before it. */
  ghost predicate AggregatedRow<T>(xs: seq<T>, time: T -> int, w: int, view: T -> Candle, p: GapPolicy, r: seq<Row>, i: int)
    requires 0 <= i < |r|
  {
    var g := Window(xs, time, r[i].start, r[i].start + w);
    && (|g| > 0 ==> r[i].bar == Combine(CandlesOf(g, view)))
    && (|g| == 0 ==> i > 0 && r[i].bar == GapBar(r[i - 1].bar, p))
  }

  /** Every row aggregates its window. */
  ghost predicate AggregatedRows<T>(xs: seq<T>, time: T -> int, w: int, view: T -> Candle, p: GapPolicy, r: seq<Row>)
  {
    forall i :: 0 <= i < |r| ==> AggregatedRow(xs, time, w, view, p, r, i)
  }

  /** Row starts lie `o` plus a multiple of `w` apart, each `w` after the
      one before. */
  ghost predicate OnGrid<R>(r: seq<R>, start: R -> int, o: int, w: int)
    requires w > 0
  {
    && (forall i :: 0 <= i < |r| ==> (start(r[i]) - o) % w == 0)
    && (forall i :: 0 <= i < |r| - 1 ==> start(r[i + 1]) == start(r[i]) + w)
  }

  /** Every input row falls in the window of some row. */
  ghost predicate Covers<R, T>(r: seq<R>, start: R -> int, w: int, xs: seq<T>, time: T -> int)
  {
    forall j :: 0 <= j < |xs| ==> InRow(r, start, w, time(xs[j]))
  }

  lemma AggregateShape<T>(xs: seq<T>, time: T -> int, w: int, o: int, slots: seq<Slot<T>>, filled: seq<Candle>, r: seq<Row>)
    requires w > 0 && slots == Bins(xs, Bucket(time, w, o))
    requires |r| == |slots| == |filled|
    requires forall i :: 0 <= i < |r| ==> r[i] == Row(slots[i].key * w + o, filled[i])
    ensures |r| == 0 <==> |xs| == 0
    ensures OnGrid(r, RowStart, o, w)
  {
    forall i | 0 <= i < |r| ensures (r[i].start - o) % w == 0 {
      assert r[i].start - o == slots[i].key * w;
      StartAligned(slots[i].key, w);
    }
    forall i | 0 <= i < |r| - 1 ensures r[i + 1].start == r[i].start + w {
      assert slots[i + 1].key == slots[i].key + 1;
      assert (slots[i].key + 1) * w == slots[i].key * w + w;
    }
  }

  lemma AggregateRows<T>(xs: seq<T>, time: T -> int, w: int, o: int, view: T -> Candle, p: GapPolicy,
                         slots: seq<Slot<T>>, filled: seq<Candle>, r: seq<Row>)
    requires w > 0 && (|slots| > 0 ==> |slots[0].members| > 0)
    requires forall i :: 0 <= i < |slots| ==> slots[i].members == WithKey(xs, Bucket(time, w, o), slots[i].key)
    requires filled == FillForward(Cells(slots, view), p)
    requires |r| == |slots|
    requires forall i :: 0 <= i < |r| ==> r[i] == Row(slots[i].key * w + o, filled[i])
    ensures AggregatedRows(xs, time, w, view, p, r)
  {
    forall i | 0 <= i < |r| ensures AggregatedRow(xs, time, w, view, p, r, i) {
      SlotFilled(slots, view, p, filled, i);
      RowFromSlot(xs, time, w, o, view, p, slots[i], filled[i], r, i);
    }
  }

  /** Bucket `i`'s filled bar: its aggregate when occupied, else the gap bar
      of the bucket before it. */
  lemma SlotFilled<T>(slots: seq<Slot<T>>, view: T -> Candle, p: GapPolicy, filled: seq<Candle>, i: int)
    requires |slots| > 0 ==> |slots[0].members| > 0
    requires filled == FillForward(Cells(slots, view), p)
    requires 0 <= i < |slots|
    ensures |slots[i].members| > 0 ==> filled[i] == Combine(CandlesOf(slots[i].members, view))
    ensures |slots[i].members| == 0 ==> i > 0 && filled[i] == GapBar(filled[i - 1], p)
  {
    var cells := Cells(slots, view);
    assert cells[i].None? <==> |slots[i].members| == 0;
  }

  lemma RowFromSlot<T>(xs: seq<T>, time: T -> int, w: int, o: int, view: T -> Candle, p: GapPolicy,
                       s: Slot<T>, c: Candle, r: seq<Row>, i: int)
    requires w > 0 && 0 <= i < |r|
    requires s.members == WithKey(xs, Bucket(time, w, o), s.key)
    requires r[i] == Row(s.key * w + o, c)
    requires |s.members| > 0 ==> c == Combine(CandlesOf(s.members, view))
    requires |s.members| == 0 ==> i > 0 && c == GapBar(r[i - 1].bar, p)
    ensures AggregatedRow(xs, time, w, view, p, r, i)
  {
    var g := Window(xs, time, r[i].start, r[i].start + w);
    BucketWindow(xs, time, w, o, s.key, r[i].start);
    assert |g| == |s.members|;
    if |g| > 0 {
      assert r[i].bar == Combine(CandlesOf(g, view));
    } else {
      assert r[i].bar == GapBar(r[i - 1].bar, p);
    }
  }

  lemma AggregateCovers<T>(xs: seq<T>, time: T -> int, w: int, o: int, slots: seq<Slot<T>>, r: seq<Row>)
    requires w > 0 && slots == Bins(xs, Bucket(time, w, o))
    requires |r| == |slots|
    requires forall i :: 0 <= i < |r| ==> r[i].start == slots[i].key * w + o
    ensures Covers(r, RowStart, w, xs, time)
  {
    var key := Bucket(time, w, o);
    forall j | 0 <= j < |xs|
      ensures InRow(r, RowStart, w, time(xs[j]))
    {
      var k := key(xs[j]);
      var i := k - MinKey(xs, key);
      DivWindow(time(xs[j]) - o, w, k);
      assert r[i].start == k * w + o;
    }
  }

  /** Some row's window `[start, start + w)` contains time `t`. */
  ghost predicate InRow<R>(r: seq<R>, start: R -> int, w: int, t: int)
  {
    exists i :: 0 <= i < |r| && start(r[i]) <= t < start(r[i]) + w
  }

  function RowStart(r: Row): int
  {
    r.start
  }

  /** The midnight that starts the day of `t`: pandas `normalize`, and
      `datetime.combine(d.date(), datetime.min.time())`. */
  function Midnight(t: int): (d: int)
    ensures d % EpochTime.MicrosPerDay == 0
    ensures d <= t < d + EpochTime.MicrosPerDay
  {
    t - t % EpochTime.MicrosPerDay
  }

  /** Pandas' default `origin='start_day'`: bucket starts are counted from
      the midnight of the earliest row's day. */
  function Origin<T>(xs: seq<T>, time: T -> int): int
    requires |xs| > 0
  {
    Midnight(MinKey(xs, time))
  }

  /** Pandas `resample(w).agg(first, max, min, last, sum)` followed by a gap
      fill. The rows are first sorted stably by time; bucket starts are the
      midnight of the earliest row's day plus multiples of `w`. There is one
      row per bucket from the earliest row's to the latest row's, with
      consecutive starts; a row with data aggregates exactly the rows of its
      window in sorted order, an empty one is filled from the row before it,
      and every input row falls in the window of some row. */
  function Aggregate<T>(xs: seq<T>, time: T -> int, w: int, view: T -> Candle, p: GapPolicy): (r: seq<Row>)
    requires w > 0
    ensures |r| == 0 <==> |xs| == 0
    ensures |xs| > 0 ==> OnGrid(r, RowStart, Origin(xs, time), w)
    ensures AggregatedRows(StableSort(xs, time), time, w, view, p, r)
    ensures Covers(r, RowStart, w, xs, time)
  {
    if |xs| == 0 then []
    else
      var s := StableSort(xs, time);
      var r := AggregateFrom(s, time, w, Origin(xs, time), view, p);
      SortedCovers(xs, s, time, w, r);
      r
  }

  /** Rows that cover the sorted input cover the input. */
  lemma SortedCovers<T>(xs: seq<T>, s: seq<T>, time: T -> int, w: int, r: seq<Row>)
    requires s == StableSort(xs, time)
    requires Covers(r, RowStart, w, s, time)
    ensures Covers(r, RowStart, w, xs, time)
  {
    StableSortPermutes(xs, time);
    forall j | 0 <= j < |xs| ensures InRow(r, RowStart, w, time(xs[j])) {
      assert xs[j] in multiset(s);
      var k :| 0 <= k < |s| && s[k] == xs[j];
      assert InRow(r, RowStart, w, time(s[k]));
    }
  }

  /** The volume of a row's bar. */
  function VolumeVia<T>(view: T -> Candle): T -> int
  {
    x => view(x).volume
  }

  lemma {:induction false} CandlesVolume<T>(g: seq<T>, view: T -> Candle)
    ensures SumBy(CandlesOf(g, view), VolumeOf) == SumBy(g, VolumeVia(view))
    decreases |g|
  {
    if |g| > 0 {
      CandlesVolume(g[1..], view);
      assert CandlesOf(g, view)[1..] == CandlesOf(g[1..], view);
    }
  }

  /** Every bucket's volume is the summed volume of the input rows in its
      window, whatever their order. */
  lemma AggregateVolumeAt<T>(xs: seq<T>, time: T -> int, w: int, view: T -> Candle, p: GapPolicy, r: seq<Row>, i: int)
    requires w > 0 && r == Aggregate(xs, time, w, view, p)
    requires 0 <= i < |r|
    ensures r[i].bar.volume == SumBy(Window(xs, time, r[i].start, r[i].start + w), VolumeVia(view))
  {
    WindowVolume(xs, time, w, view, p, r, i);
  }

  lemma WindowVolume<T>(xs: seq<T>, time: T -> int, w: int, view: T -> Candle, p: GapPolicy, r: seq<Row>, i: int)
    requires 0 <= i < |r|
    requires AggregatedRow(StableSort(xs, time), time, w, view, p, r, i)
    ensures r[i].bar.volume == SumBy(Window(xs, time, r[i].start, r[i].start + w), VolumeVia(view))
  {
    var lo := r[i].start;
    var g := Window(xs, time, lo, lo + w);
    WindowOfSorted(xs, time, lo, lo + w);
    SumByStableSort(g, time, VolumeVia(view));
    if |g| > 0 {
      CandlesVolume(StableSort(g, time), view);
    }
  }

  /** Bucketing neither loses nor invents volume, whatever the order of the
      rows. */
  lemma AggregateVolume<T>(xs: seq<T>, time: T -> int, w: int, view: T -> Candle, p: GapPolicy)
    requires w > 0
    ensures SumBy(Aggregate(xs, time, w, view, p), RowVolume) == SumBy(xs, VolumeVia(view))
  {
    if |xs| > 0 {
      var s := StableSort(xs, time);
      var o := Origin(xs, time);
      assert Aggregate(xs, time, w, view, p) == AggregateFrom(s, time, w, o, view, p);
      StableSortSorted(xs, time);
      AlignedVolume(s, time, w, o, view, p);
      SumByStableSort(xs, time, VolumeVia(view));
    }
  }

  /** Over rows in time order, bucketing neither loses nor invents volume. */
  lemma AlignedVolume<T>(xs: seq<T>, time: T -> int, w: int, o: int, view: T -> Candle, p: GapPolicy)
    requires w > 0 && SortedBy(xs, time)
    ensures SumBy(AggregateFrom(xs, time, w, o, view, p), RowVolume) == SumBy(xs, VolumeVia(view))
  {
    var r := AggregateFrom(xs, time, w, o, view, p);
    var key := Bucket(time, w, o);
    var slots := Bins(xs, key);
    SortedBucket(xs, time, w, o);
    BinsOfSorted(xs, key);
    assert Flatten(Members(slots)) == xs;
    forall i | 0 <= i < |r| ensures RowVolume(r[i]) == SumBy(Members(slots)[i], VolumeVia(view)) {
      FromStartAt(xs, time, w, o, view, p, i);
      RowHoldsBin(xs, time, w, o, view, p, r, slots, i);
    }
    SumPointwise(r, Members(slots), RowVolume, VolumeVia(view));
    SumOfGroupsFlatten(Members(slots), VolumeVia(view));
  }

  lemma RowHoldsBin<T>(xs: seq<T>, time: T -> int, w: int, o: int, view: T -> Candle, p: GapPolicy,
                       r: seq<Row>, slots: seq<Slot<T>>, i: int)
    requires w > 0 && slots == Bins(xs, Bucket(time, w, o))
    requires |r| == |slots| && 0 <= i < |r|
    requires r[i].start == slots[i].key * w + o
    requires AggregatedRow(xs, time, w, view, p, r, i)
    ensures RowVolume(r[i]) == SumBy(slots[i].members, VolumeVia(view))
  {
    BucketWindow(xs, time, w, o, slots[i].key, r[i].start);
    CandlesVolume(slots[i].members, view);
  }

  /** Row `i` of the bucketing starts at the `i`-th bucket key. */
  lemma FromStartAt<T>(xs: seq<T>, time: T -> int, w: int, o: int, view: T -> Candle, p: GapPolicy, i: int)
    requires w > 0
    requires 0 <= i < |AggregateFrom(xs, time, w, o, view, p)|
    ensures var slots := Bins(xs, Bucket(time, w, o));
            |slots| == |AggregateFrom(xs, time, w, o, view, p)| &&
            AggregateFrom(xs, time, w, o, view, p)[i].start == slots[i].key * w + o
  {
  }

  /** A row of a time-indexed OHLCV frame. */
  datatype Stamped = Stamped(time: int, bar: Candle)

  function StampedTime(s: Stamped): int
  {
    s.time
  }

  function BarOf(s: Stamped): Candle
  {
    s.bar
  }

  /** The bucket width of `resample_ohlc`: `timeframe` minutes. */
  function OhlcWidth(timeframe: int): int
  {
    timeframe * 60 * EpochTime.MicrosPerSecond
  }

  /** Row `i` of `resample_ohlc`: the aggregate of the bars in its window, or,
      for an empty window, a bar whose open, high, low and close all equal
      the previous row's close, with volume 0. */
  ghost predicate ResampledRow(bars: seq<Stamped>, w: int, r: seq<Row>, i: int)
    requires 0 <= i < |r|
  {
    var g := Window(bars, StampedTime, r[i].start, r[i].start + w);
    && (|g| > 0 ==> r[i].bar == Combine(CandlesOf(g, BarOf)))
    && (|g| == 0 ==> i > 0 && r[i].bar.volume == 0 && r[i].bar.close == r[i - 1].bar.close
                     && r[i].bar.open == r[i].bar.high == r[i].bar.low == r[i].bar.close)
  }

  /** `resample_ohlc(df, timeframe)`: buckets of `timeframe * 60` seconds
      counted from the midnight of the earliest bar's day, first/max/min/
      last/sum per bucket over the bars in time order, close forward-filled
      and open/high/low of an empty bucket set to that close. */
  function ResampleOhlc(bars: seq<Stamped>, timeframe: int): (r: seq<Row>)
    requires timeframe > 0
    ensures |r| == 0 <==> |bars| == 0
    ensures |bars| > 0 ==> OnGrid(r, RowStart, Origin(bars, StampedTime), OhlcWidth(timeframe))
    ensures forall i :: 0 <= i < |r| ==> ResampledRow(StableSort(bars, StampedTime), OhlcWidth(timeframe), r, i)
    ensures Covers(r, RowStart, OhlcWidth(timeframe), bars, StampedTime)
  {
    var w := OhlcWidth(timeframe);
    var r := Aggregate(bars, StampedTime, w, BarOf, CloseOnly);
    ResampledRows(StableSort(bars, StampedTime), w, r);
    r
  }

  lemma ResampledRows(bars: seq<Stamped>, w: int, r: seq<Row>)
    requires AggregatedRows(bars, StampedTime, w, BarOf, CloseOnly, r)
    ensures forall i :: 0 <= i < |r| ==> ResampledRow(bars, w, r, i)
  {
    forall i | 0 <= i < |r| ensures ResampledRow(bars, w, r, i) {
      assert AggregatedRow(bars, StampedTime, w, BarOf, CloseOnly, r, i);
    }
  }

  /** The rows of a window keep any property every input row has. */
  lemma {:induction false} WindowKeeps<T>(xs: seq<T>, time: T -> int, lo: int, hi: int, P: T -> bool)
    requires forall j :: 0 <= j < |xs| ==> P(xs[j])
    ensures forall j :: 0 <= j < |Window(xs, time, lo, hi)| ==> P(Window(xs, time, lo, hi)[j])
    decreases |xs|
  {
    if |xs| > 0 {
      assert forall j :: 0 <= j < |xs[1..]| ==> P(xs[1..][j]) by {
        forall j | 0 <= j < |xs[1..]| ensures P(xs[1..][j]) { assert xs[1..][j] == xs[j + 1]; }
      }
      WindowKeeps(xs[1..], time, lo, hi, P);
    }
  }

  function StampedVolume(s: Stamped): int
  {
    s.bar.volume
  }

  /** `resample_ohlc` neither loses nor invents volume: the rows' volumes add
      up to the input's, in whatever order the bars come. */
  lemma ResampleOhlcVolume(bars: seq<Stamped>, timeframe: int)
    requires timeframe > 0
    ensures SumBy(ResampleOhlc(bars, timeframe), RowVolume) == SumBy(bars, StampedVolume)
  {
    AggregateVolume(bars, StampedTime, OhlcWidth(timeframe), BarOf, CloseOnly);
    StampedVolumes(bars);
  }

  lemma {:induction false} StampedVolumes(bars: seq<Stamped>)
    ensures SumBy(bars, VolumeVia(BarOf)) == SumBy(bars, StampedVolume)
    decreases |bars|
  {
    if |bars| > 0 {
      StampedVolumes(bars[1..]);
      var f := VolumeVia(BarOf);
      assert f(bars[0]) == BarOf(bars[0]).volume;
    }
  }

  /** When the width divides a day, counting from the first day's midnight
      gives bucket starts on the epoch grid: multiples of the width. */
  lemma StartsOnEpochGrid<T>(xs: seq<T>, time: T -> int, w: int, view: T -> Candle, p: GapPolicy)
    requires w > 0 && EpochTime.MicrosPerDay % w == 0
    ensures forall i :: 0 <= i < |Aggregate(xs, time, w, view, p)| ==> Aggregate(xs, time, w, view, p)[i].start % w == 0
  {
    var r := Aggregate(xs, time, w, view, p);
    if |xs| > 0 {
      GridStarts(r, Origin(xs, time), w);
    }
  }

  lemma GridStarts(r: seq<Row>, o: int, w: int)
    requires w > 0 && o % EpochTime.MicrosPerDay == 0 && EpochTime.MicrosPerDay % w == 0
    requires OnGrid(r, RowStart, o, w)
    ensures forall i :: 0 <= i < |r| ==> r[i].start % w == 0
  {
    forall i | 0 <= i < |r| ensures r[i].start % w == 0 {
      GridSum(o, r[i].start - o, w);
    }
  }

  lemma GridSum(o: int, d: int, w: int)
    requires w > 0 && o % EpochTime.MicrosPerDay == 0 && EpochTime.MicrosPerDay % w == 0 && d % w == 0
    ensures (o + d) % w == 0
  {
    var a := o / EpochTime.MicrosPerDay;
    var b := EpochTime.MicrosPerDay / w;
    var c := d / w;
    assert o == a * EpochTime.MicrosPerDay;
    assert EpochTime.MicrosPerDay == b * w;
    assert d == c * w;
    assert a * (b * w) == (a * b) * w;
    assert o + d == (a * b + c) * w;
    StartAligned(a * b + c, w);
  }

  /** Seven-minute buckets do not divide a day: a single bar at the second
      day's midnight gets a bucket starting there, which is not a multiple
      of seven minutes. */
  lemma SevenMinutesOffGrid()
    ensures var r := ResampleOhlc([Stamped(EpochTime.MicrosPerDay, Candle(1, 1, 1, 1, 1))], 7);
            |r| > 0 && r[0].start == EpochTime.MicrosPerDay && r[0].start % OhlcWidth(7) != 0
  {
    var bars := [Stamped(EpochTime.MicrosPerDay, Candle(1, 1, 1, 1, 1))];
    var w := OhlcWidth(7);
    var r := ResampleOhlc(bars, 7);
    assert MinKey(bars, StampedTime) == EpochTime.MicrosPerDay;
    assert Origin(bars, StampedTime) == EpochTime.MicrosPerDay;
    assert InRow(r, RowStart, w, EpochTime.MicrosPerDay);
    var i :| 0 <= i < |r| && RowStart(r[i]) <= EpochTime.MicrosPerDay < RowStart(r[i]) + w;
    OnlyBucket(r, w, EpochTime.MicrosPerDay, i);
    DayModSevenMinutes();
  }

  /** A day is 205 seven-minute buckets and five minutes. */
  lemma DayModSevenMinutes()
    ensures EpochTime.MicrosPerDay % OhlcWidth(7) == 5 * 60 * EpochTime.MicrosPerSecond
  {
  }

  /** Consecutive buckets counted from `o` whose `i`-th holds `o` itself:
      that bucket is the first and starts at `o`. */
  lemma OnlyBucket(r: seq<Row>, w: int, o: int, i: int)
    requires w > 0 && 0 <= i < |r|
    requires OnGrid(r, RowStart, o, w)
    requires r[i].start <= o < r[i].start + w
    ensures r[i].start == o
  {
    var d := o - r[i].start;
    assert (r[i].start - o) % w == 0;
    DivWindow(r[i].start - o, w, -1);
  }

  /** The `buyVol` and `sellVol` columns of `trades_to_historical`. */
  datatype Flows = Flows(buyVol: int, sellVol: int)

  /** A row of `trades_to_historical`: the bucket start, its bar, and the
      volume split when the trades carry a side column. */
  datatype HistRow = HistRow(start: int, bar: Candle, flows: Option<Flows>)

  function HistStart(r: HistRow): int
  {
    r.start
  }

  function TradeTime(t: Trade): int
  {
    t.time
  }

  /** The volume split of the trades in `[start, start + w)`, or `None` without
      a side column. */
  function FlowsOf(trades: seq<Trade>, w: int, hasSide: bool, start: int): Option<Flows>
  {
    if hasSide then
      var g := Window(trades, TradeTime, start, start + w);
      Some(Flows(SumBy(g, BuySize), SumBy(g, SellSize)))
    else None
  }

  /** A sum over a window, such as the buy or the sell volume of a bucket,
      does not depend on the order of the rows. */
  lemma WindowSumOrderFree<T>(xs: seq<T>, time: T -> int, lo: int, hi: int, f: T -> int)
    ensures SumBy(Window(StableSort(xs, time), time, lo, hi), f) == SumBy(Window(xs, time, lo, hi), f)
  {
    WindowOfSorted(xs, time, lo, hi);
    SumByStableSort(Window(xs, time, lo, hi), time, f);
  }

  /** Row `i` of `trades_to_historical`: the trades in its window aggregated,
      or, for an empty window, all four prices of the previous row and volume
      0; with a side column, the summed sizes of the buy and the sell trades
      of the window. */
  ghost predicate HistoricalRow(trades: seq<Trade>, w: int, hasSide: bool, r: seq<HistRow>, i: int)
    requires 0 <= i < |r|
  {
    var g := Window(trades, TradeTime, r[i].start, r[i].start + w);
    && (|g| > 0 ==> r[i].bar == Combine(CandlesOf(g, TradeCandle)))
    && (|g| == 0 ==> i > 0 && r[i].bar == r[i - 1].bar.(volume := 0))
    && (hasSide ==> r[i].flows == Some(Flows(SumBy(g, BuySize), SumBy(g, SellSize))))
    && (!hasSide ==> r[i].flows == None)
  }

  /** `trades_to_historical(df, period)`: buckets of width `period` counted
      from the midnight of the earliest trade's day, the trade prices
      aggregated per bucket in time order, the whole OHLC frame
      forward-filled, sizes summed, and with a side column (side spellings
      normalised first) the buy and sell sizes summed separately. */
  function TradesToHistorical(trades: seq<Trade>, period: int, hasSide: bool): (r: seq<HistRow>)
    requires period > 0
    ensures |r| == 0 <==> |trades| == 0
    ensures |trades| > 0 ==> OnGrid(r, HistStart, Origin(trades, TradeTime), period)
    ensures forall i :: 0 <= i < |r| ==> HistoricalRow(StableSort(trades, TradeTime), period, hasSide, r, i)
    ensures Covers(r, HistStart, period, trades, TradeTime)
  {
    var rows := Aggregate(trades, TradeTime, period, TradeCandle, CopyPrevious);
    var ts := StableSort(trades, TradeTime);
    var r := WithFlows(rows, ts, period, hasSide);
    HistoricalFacts(trades, ts, period, hasSide, rows, r);
    r
  }

  /** Each row with the volume split of its window attached. */
  function WithFlows(rows: seq<Row>, trades: seq<Trade>, w: int, hasSide: bool): (r: seq<HistRow>)
    ensures |r| == |rows|
    ensures forall i :: 0 <= i < |r| ==>
              r[i] == HistRow(rows[i].start, rows[i].bar, FlowsOf(trades, w, hasSide, rows[i].start))
  {
    seq(|rows|, i requires 0 <= i < |rows| =>
      HistRow(rows[i].start, rows[i].bar, FlowsOf(trades, w, hasSide, rows[i].start)))
  }

  lemma HistoricalFacts(trades: seq<Trade>, ts: seq<Trade>, w: int, hasSide: bool, rows: seq<Row>, r: seq<HistRow>)
    requires w > 0
    requires |rows| == 0 <==> |trades| == 0
    requires |trades| > 0 ==> OnGrid(rows, RowStart, Origin(trades, TradeTime), w)
    requires AggregatedRows(ts, TradeTime, w, TradeCandle, CopyPrevious, rows)
    requires Covers(rows, RowStart, w, trades, TradeTime)
    requires |r| == |rows|
    requires forall i :: 0 <= i < |r| ==>
               r[i] == HistRow(rows[i].start, rows[i].bar, FlowsOf(ts, w, hasSide, rows[i].start))
    ensures |r| == 0 <==> |trades| == 0
    ensures |trades| > 0 ==> OnGrid(r, HistStart, Origin(trades, TradeTime), w)
    ensures forall i :: 0 <= i < |r| ==> HistoricalRow(ts, w, hasSide, r, i)
    ensures Covers(r, HistStart, w, trades, TradeTime)
  {
    HistoricalRowsAll(ts, w, hasSide, rows, r);
    HistoricalCovers(trades, w, rows, r);
    if |trades| > 0 {
      HistoricalGrid(rows, r, Origin(trades, TradeTime), w);
    }
  }

  lemma HistoricalGrid(rows: seq<Row>, r: seq<HistRow>, o: int, w: int)
    requires w > 0 && OnGrid(rows, RowStart, o, w)
    requires |r| == |rows|
    requires forall i :: 0 <= i < |r| ==> r[i].start == rows[i].start
    ensures OnGrid(r, HistStart, o, w)
  {
    assert forall i :: 0 <= i < |r| ==> HistStart(r[i]) == RowStart(rows[i]);
  }

  lemma HistoricalCovers(trades: seq<Trade>, w: int, rows: seq<Row>, r: seq<HistRow>)
    requires Covers(rows, RowStart, w, trades, TradeTime)
    requires |r| == |rows|
    requires forall i :: 0 <= i < |r| ==> r[i].start == rows[i].start
    ensures Covers(r, HistStart, w, trades, TradeTime)
  {
    forall j | 0 <= j < |trades| ensures InRow(r, HistStart, w, TradeTime(trades[j])) {
      assert InRow(rows, RowStart, w, TradeTime(trades[j]));
      var i :| 0 <= i < |rows| && RowStart(rows[i]) <= TradeTime(trades[j]) < RowStart(rows[i]) + w;
      assert HistStart(r[i]) == RowStart(rows[i]);
    }
  }

  lemma HistoricalRowsAll(trades: seq<Trade>, w: int, hasSide: bool, rows: seq<Row>, r: seq<HistRow>)
    requires w > 0
    requires AggregatedRows(trades, TradeTime, w, TradeCandle, CopyPrevious, rows)
    requires |r| == |rows|
    requires forall i :: 0 <= i < |r| ==>
               r[i] == HistRow(rows[i].start, rows[i].bar, FlowsOf(trades, w, hasSide, rows[i].start))
    ensures forall i :: 0 <= i < |r| ==> HistoricalRow(trades, w, hasSide, r, i)
  {
    forall i | 0 <= i < |r| ensures HistoricalRow(trades, w, hasSide, r, i) {
      HistoricalRowAt(trades, w, hasSide, rows, r, i);
    }
  }

  lemma HistoricalRowAt(trades: seq<Trade>, w: int, hasSide: bool, rows: seq<Row>, r: seq<HistRow>, i: int)
    requires w > 0 && 0 <= i < |r| == |rows|
    requires AggregatedRow(trades, TradeTime, w, TradeCandle, CopyPrevious, rows, i)
    requires r[i] == HistRow(rows[i].start, rows[i].bar, FlowsOf(trades, w, hasSide, rows[i].start))
    requires i > 0 ==> r[i - 1].bar == rows[i - 1].bar
    ensures HistoricalRow(trades, w, hasSide, r, i)
  {
    var g := Window(trades, TradeTime, rows[i].start, rows[i].start + w);
    if |g| == 0 {
      assert i > 0 && rows[i].bar == GapBar(rows[i - 1].bar, CopyPrevious);
      CopyPreviousGap(rows[i - 1].bar);
    }
    HistoricalRowIntro(trades, w, hasSide, r, i, g);
  }

  /** Row `i` is a `trades_to_historical` row once its three parts are. */
  lemma HistoricalRowIntro(trades: seq<Trade>, w: int, hasSide: bool, r: seq<HistRow>, i: int, g: seq<Trade>)
    requires 0 <= i < |r|
    requires g == Window(trades, TradeTime, r[i].start, r[i].start + w)
    requires |g| > 0 ==> r[i].bar == Combine(CandlesOf(g, TradeCandle))
    requires |g| == 0 ==> i > 0 && r[i].bar == r[i - 1].bar.(volume := 0)
    requires r[i].flows == FlowsOf(trades, w, hasSide, r[i].start)
    ensures HistoricalRow(trades, w, hasSide, r, i)
  {
  }

  lemma CopyPreviousGap(prev: Candle)
    ensures GapBar(prev, CopyPrevious) == prev.(volume := 0)
  {
  }

  predicate SizeNonNegative(t: Trade)
  {
    t.size >= 0
  }

  /** With non-negative sizes the buy and sell volume of a row never exceed
      its volume. */
  lemma HistoricalFlowsWithinVolume(trades: seq<Trade>, period: int, i: int)
    requires period > 0
    requires forall j :: 0 <= j < |trades| ==> trades[j].size >= 0
    requires 0 <= i < |TradesToHistorical(trades, period, true)|
    ensures var row := TradesToHistorical(trades, period, true)[i];
            row.flows.Some? && row.flows.value.buyVol + row.flows.value.sellVol <= row.bar.volume
  {
    var r := TradesToHistorical(trades, period, true);
    var ts := StableSort(trades, TradeTime);
    StableSortKeeps(trades, TradeTime, SizeNonNegative);
    RowFlowsWithinVolume(ts, period, r, i);
  }

  lemma RowFlowsWithinVolume(trades: seq<Trade>, w: int, r: seq<HistRow>, i: int)
    requires w > 0 && 0 <= i < |r|
    requires forall j :: 0 <= j < |trades| ==> trades[j].size >= 0
    requires HistoricalRow(trades, w, true, r, i)
    ensures r[i].flows.Some? && r[i].flows.value.buyVol + r[i].flows.value.sellVol <= r[i].bar.volume
  {
    var g := Window(trades, TradeTime, r[i].start, r[i].start + w);
    if |g| > 0 {
      WindowKeeps(trades, TradeTime, r[i].start, r[i].start + w, SizeNonNegative);
      WindowFlowsWithinVolume(g);
    }
  }

  lemma WindowFlowsWithinVolume(g: seq<Trade>)
    requires |g| > 0
    requires forall j :: 0 <= j < |g| ==> SizeNonNegative(g[j])
    ensures SumBy(g, BuySize) + SumBy(g, SellSize) <= Combine(CandlesOf(g, TradeCandle)).volume
  {
    TradeVolume(g);
    BuySellWithinVolume(g);
  }
}

/** The Binance downloaders: the time window of a day of aggregated trades,
    the id-cursor fetch loop whose pages overlap by one trade, the cleanup
    that drops the repeated trades and trims to the window, and the two
    time-cursor loops over the open-interest and taker-volume histories.

    The exchange is an oracle: a function from request parameters to the
    page it answers with. */
module Binance {
  import opened Wrappers
  import opened EpochTime

  // ---------------------------------------------------------------------
  // The requested window

  /** `datetime.strptime(ymd, "%Y-%m-%d")` as an instant, or `ValueError`. */
  function ParseYmd(ymd: string): (r: Result<Instant>)
    ensures r.Ok? <==> ParseDate(ymd, '-').Some?
    ensures r.Ok? ==> r.value == ToInstant(ParseDate(ymd, '-').value)
    ensures r.Ok? ==> r.value.micros % MicrosPerDay == 0
  {
    match ParseDate(ymd, '-')
    case None => Raised("ValueError: time data does not match format '%Y-%m-%d'")
    case Some(t) =>
      TimeGmMidnight(t);
      DaySecondsToMicros(TimeGm(t));
      Ok(ToInstant(t))
  }

  /** A `YYYY-MM-DD` date is read back as midnight of that date. */
  lemma ParseYmdFormat(t: DateTime)
    requires ValidDateTime(t) && t.year <= 9999
    requires t.hour == 0 && t.minute == 0 && t.second == 0
    ensures ParseYmd(FormatDate(t, '-')) == Ok(ToInstant(t))
  {
    ParseFormatDate(t, '-');
  }

  /** The `(from_date, to_date)` of `binance_get_trades`: from the start of
      `start_ymd` up to one microsecond before the next day, or before
      `end_ymd` when one is given. */
  function TradeWindow(startYmd: string, endYmd: Option<string>): (r: Result<(Instant, Instant)>)
    ensures r.Ok? <==> ParseDate(startYmd, '-').Some? && (endYmd.Some? ==> ParseDate(endYmd.value, '-').Some?)
    ensures r.Ok? && endYmd.None? ==> r.value.1.micros == r.value.0.micros + MicrosPerDay - 1
    ensures r.Ok? && endYmd.Some? ==> r.value.1.micros == ParseYmd(endYmd.value).value.micros - 1
  {
    var to :=
      match endYmd
      case None =>
        (match ParseYmd(startYmd)
         case Raised(e) => Raised(e)
         case Ok(d) => Ok(Instant(d.micros + MicrosPerDay - 1)))
      case Some(e) =>
        (match ParseYmd(e)
         case Raised(m) => Raised(m)
         case Ok(d) => Ok(Instant(d.micros - 1)));
    match to
    case Raised(m) => Raised(m)
    case Ok(t) =>
      match ParseYmd(startYmd)
      case Raised(m) => Raised(m)
      case Ok(f) => Ok((f, t))
  }

  /** For a single day from an instant at or after the epoch, the bound in
      milliseconds is the day's first millisecond plus 86 399 999, and a
      millisecond timestamp `ms` is within it exactly when it lies before the
      next day. */
  lemma OneDayBound(startYmd: string, ms: int)
    requires TradeWindow(startYmd, None).Ok?
    requires TradeWindow(startYmd, None).value.0.micros >= 0
    ensures var (f, t) := TradeWindow(startYmd, None).value;
            DatetimeToMs(t) == DatetimeToMs(f) + 86_399_999
    ensures var (f, t) := TradeWindow(startYmd, None).value;
            ms <= DatetimeToMs(t) <==> ms < DatetimeToMs(f) + 86_400_000
  {
    var (f, t) := TradeWindow(startYmd, None).value;
    DayBoundMs(f);
  }

  lemma DayBoundMs(f: Instant)
    requires f.micros >= 0 && f.micros % MicrosPerDay == 0
    ensures DatetimeToMs(Instant(f.micros + MicrosPerDay - 1)) == DatetimeToMs(f) + 86_399_999
  {
    var k := f.micros / MicrosPerDay;
    assert f.micros == k * 86_400_000 * 1000;
    assert DatetimeToMs(f) == k * 86_400_000;
  }

  // ---------------------------------------------------------------------
  // Aggregated trades and the id-cursor fetch loop

  /** A row of `/fapi/v1/aggTrades`: the aggregate trade id `a`, the
      millisecond time `T`, price and quantity. */
  datatype AggTrade = AggTrade(id: int, time: int, price: int, qty: int)

  /** `binance_get_1st_id`: the first id of the answer for the first minute of
      the day, or an exception when that minute had no trade. */
  function FirstId(response: seq<AggTrade>): (r: Result<int>)
    ensures r.Ok? <==> |response| > 0
    ensures r.Ok? ==> r.value == response[0].id
  {
    if |response| > 0 then Ok(response[0].id) else Raised("no trades found")
  }

  /** The `fromId` of request `k`: the first id for the first request, then
      the id of the last trade of the page before. */
  function RequestId(firstId: int, pages: seq<seq<AggTrade>>, k: int): int
    requires 0 <= k <= |pages|
    requires forall i :: 0 <= i < |pages| ==> |pages[i]| > 0
  {
    if k == 0 then firstId else pages[k - 1][|pages[k - 1]| - 1].id
  }

  /** `current_time`: the time of the last trade fetched, 0 before any. */
  function CurrentTime(pages: seq<seq<AggTrade>>): int
    requires forall i :: 0 <= i < |pages| ==> |pages[i]| > 0
  {
    if |pages| == 0 then 0 else pages[|pages| - 1][|pages[|pages| - 1]| - 1].time
  }

  /** Each page is the exchange's answer to the `fromId` its predecessor
      ended with. */
  ghost predicate Chained(page: int -> seq<AggTrade>, firstId: int, pages: seq<seq<AggTrade>>)
    requires forall i :: 0 <= i < |pages| ==> |pages[i]| > 0
  {
    forall k :: 0 <= k < |pages| ==> pages[k] == page(RequestId(firstId, pages, k))
  }

  /** The fetch loop of `binance_get_trades` (and `fetch_binance_trades`), over
      at most `maxRequests` requests. An empty answer raises inside the `try`,
      is caught, and the same `fromId` is asked again; a non-empty one moves
      the cursor to its last trade. The loop stops once the last trade
      fetched is at or after `toMs`, so every page but the last ends before
      `toMs`; `finished` says whether it stopped within the request budget.
      An unfinished fetch has spent the whole budget or was last answered
      with nothing at the cursor it ended on. */
  method FetchTrades(page: int -> seq<AggTrade>, firstId: int, toMs: int, maxRequests: nat)
    returns (pages: seq<seq<AggTrade>>, finished: bool)
    ensures forall i :: 0 <= i < |pages| ==> |pages[i]| > 0
    ensures Chained(page, firstId, pages)
    ensures forall k :: 0 <= k < |pages| - 1 ==> pages[k][|pages[k]| - 1].time < toMs
    ensures finished <==> CurrentTime(pages) >= toMs
    ensures |pages| <= maxRequests
    ensures !finished ==> |pages| == maxRequests || |page(RequestId(firstId, pages, |pages|))| == 0
  {
    pages := [];
    var fromId := firstId;
    var currentTime := 0;
    var requests := 0;
    while currentTime < toMs && requests < maxRequests
      invariant 0 <= requests <= maxRequests
      invariant |pages| <= requests
      invariant forall i :: 0 <= i < |pages| ==> |pages[i]| > 0
      invariant Chained(page, firstId, pages)
      invariant fromId == RequestId(firstId, pages, |pages|)
      invariant |pages| < requests ==> |page(fromId)| == 0
      invariant currentTime == CurrentTime(pages)
      invariant forall k :: 0 <= k < |pages| - 1 ==> pages[k][|pages[k]| - 1].time < toMs
      decreases maxRequests - requests
    {
      var trades := page(fromId);
      requests := requests + 1;
      if |trades| > 0 {
        ChainedExtend(page, firstId, pages, trades);
        EndsBefore(pages, trades, toMs);
        pages := pages + [trades];
        fromId := trades[|trades| - 1].id;
        currentTime := trades[|trades| - 1].time;
      }
    }
    finished := currentTime >= toMs;
  }

  lemma ChainedExtend(page: int -> seq<AggTrade>, firstId: int, pages: seq<seq<AggTrade>>, trades: seq<AggTrade>)
    requires forall i :: 0 <= i < |pages| ==> |pages[i]| > 0
    requires |trades| > 0
    requires Chained(page, firstId, pages)
    requires trades == page(RequestId(firstId, pages, |pages|))
    ensures forall i :: 0 <= i < |pages + [trades]| ==> |(pages + [trades])[i]| > 0
    ensures Chained(page, firstId, pages + [trades])
  {
    var ps := pages + [trades];
    forall i | 0 <= i < |ps| ensures |ps[i]| > 0 {
      if i < |pages| { assert ps[i] == pages[i]; }
    }
    forall k | 0 <= k < |ps| ensures ps[k] == page(RequestId(firstId, ps, k)) {
      RequestIdExtend(firstId, pages, trades, k);
      if k < |pages| {
        assert ps[k] == pages[k];
      } else {
        assert ps[k] == trades;
      }
    }
  }

  /** Appending a page while the last trade fetched is before `toMs` keeps
      every page but the last ending before `toMs`. */
  lemma EndsBefore(pages: seq<seq<AggTrade>>, trades: seq<AggTrade>, toMs: int)
    requires forall i :: 0 <= i < |pages| ==> |pages[i]| > 0
    requires forall k :: 0 <= k < |pages| - 1 ==> pages[k][|pages[k]| - 1].time < toMs
    requires CurrentTime(pages) < toMs
    ensures forall k :: 0 <= k < |pages + [trades]| - 1 ==>
              (pages + [trades])[k][|(pages + [trades])[k]| - 1].time < toMs
  {
    var ps: seq<seq<AggTrade>> := pages + [trades];
    forall k | 0 <= k < |ps| - 1 ensures ps[k][|ps[k]| - 1].time < toMs {
      assert ps[k] == pages[k];
    }
  }

  /** Appending a page does not change the `fromId` of the earlier requests. */
  lemma RequestIdExtend(firstId: int, pages: seq<seq<AggTrade>>, trades: seq<AggTrade>, k: int)
    requires forall i :: 0 <= i < |pages| ==> |pages[i]| > 0
    requires |trades| > 0 && 0 <= k <= |pages|
    ensures forall i :: 0 <= i < |pages + [trades]| ==> |(pages + [trades])[i]| > 0
    ensures RequestId(firstId, pages + [trades], k) == RequestId(firstId, pages, k)
  {
    var ps := pages + [trades];
    forall i | 0 <= i < |ps| ensures |ps[i]| > 0 {
      if i < |pages| { assert ps[i] == pages[i]; }
    }
    if k > 0 {
      assert ps[k - 1] == pages[k - 1];
    }
  }

  /** The exchange answers `fromId` starting with that very trade. */
  ghost predicate StartsAtId(page: int -> seq<AggTrade>)
  {
    forall id :: |page(id)| > 0 ==> page(id)[0].id == id
  }

  /** With such an exchange consecutive pages share a trade: every page after
      the first starts with the trade the page before it ended with. */
  lemma PagesOverlap(page: int -> seq<AggTrade>, firstId: int, pages: seq<seq<AggTrade>>)
    requires StartsAtId(page)
    requires forall i :: 0 <= i < |pages| ==> |pages[i]| > 0
    requires Chained(page, firstId, pages)
    ensures forall k :: 0 < k < |pages| ==> pages[k][0].id == pages[k - 1][|pages[k - 1]| - 1].id
  {
    forall k | 0 < k < |pages| ensures pages[k][0].id == pages[k - 1][|pages[k - 1]| - 1].id {
      assert pages[k] == page(RequestId(firstId, pages, k));
    }
  }

  // ---------------------------------------------------------------------
  // Cleanup: drop_duplicates(subset='a') and trim

  /** `r` is `xs` with some elements deleted, the rest in their order. */
  ghost predicate SubseqOf<T>(r: seq<T>, xs: seq<T>)
    decreases |xs|
  {
    if |r| == 0 then true
    else if |xs| == 0 then false
    else (r[0] == xs[0] && SubseqOf(r[1..], xs[1..])) || SubseqOf(r, xs[1..])
  }

  /** No two rows share an id. */
  predicate UniqueIds(r: seq<AggTrade>)
  {
    forall i, j :: 0 <= i < j < |r| ==> r[i].id != r[j].id
  }

  /** `t` is the first row of `xs` with its id. */
  ghost predicate FirstWithId(xs: seq<AggTrade>, t: AggTrade)
  {
    exists j :: 0 <= j < |xs| && xs[j] == t && forall k :: 0 <= k < j ==> xs[k].id != t.id
  }

  /** Some row of `r` has id `id`. */
  ghost predicate HasId(r: seq<AggTrade>, id: int)
  {
    exists i :: 0 <= i < |r| && r[i].id == id
  }

  /** `drop_duplicates(subset='a')` over the rows after those whose ids are in
      `seen`: the first row of each id is kept, later ones are dropped. */
  function DedupeFrom(xs: seq<AggTrade>, seen: set<int>): (r: seq<AggTrade>)
    ensures forall i :: 0 <= i < |r| ==> r[i].id !in seen
    ensures UniqueIds(r)
    decreases |xs|
  {
    if |xs| == 0 then []
    else if xs[0].id in seen then DedupeFrom(xs[1..], seen)
    else [xs[0]] + DedupeFrom(xs[1..], seen + {xs[0].id})
  }

  /** `df.drop_duplicates(subset='a')`. */
  function Dedupe(xs: seq<AggTrade>): (r: seq<AggTrade>)
    ensures UniqueIds(r)
  {
    DedupeFrom(xs, {})
  }

  /** What the deduplication keeps: an order-preserving selection of the rows,
      each the first of its id, and every id of the input is kept. */
  lemma {:induction false} DedupeFromMeaning(xs: seq<AggTrade>, seen: set<int>)
    ensures SubseqOf(DedupeFrom(xs, seen), xs)
    ensures forall i :: 0 <= i < |DedupeFrom(xs, seen)| ==> FirstWithId(xs, DedupeFrom(xs, seen)[i])
    ensures forall j :: 0 <= j < |xs| && xs[j].id !in seen ==> HasId(DedupeFrom(xs, seen), xs[j].id)
    decreases |xs|
  {
    if |xs| > 0 {
      var r := DedupeFrom(xs, seen);
      if xs[0].id in seen {
        DedupeFromMeaning(xs[1..], seen);
        var rest := DedupeFrom(xs[1..], seen);
        assert r == rest;
        SubseqSkip(rest, xs);
        forall i | 0 <= i < |r| ensures FirstWithId(xs, r[i]) {
          FirstWithIdSkip(xs, r[i]);
        }
        forall j | 0 <= j < |xs| && xs[j].id !in seen ensures HasId(r, xs[j].id) {
          assert xs[j] == xs[1..][j - 1];
        }
      } else {
        var s' := seen + {xs[0].id};
        DedupeFromMeaning(xs[1..], s');
        var rest := DedupeFrom(xs[1..], s');
        assert r == [xs[0]] + rest;
        assert r[1..] == rest;
        forall i | 0 <= i < |r| ensures FirstWithId(xs, r[i]) {
          if i == 0 {
            assert xs[0] == r[0];
          } else {
            assert r[i] == rest[i - 1];
            assert r[i].id != xs[0].id;
            FirstWithIdSkip(xs, r[i]);
          }
        }
        forall j | 0 <= j < |xs| && xs[j].id !in seen ensures HasId(r, xs[j].id) {
          if xs[j].id == xs[0].id {
            assert r[0].id == xs[j].id;
          } else {
            assert xs[j] == xs[1..][j - 1];
            var i :| 0 <= i < |rest| && rest[i].id == xs[j].id;
            assert r[i + 1].id == xs[j].id;
          }
        }
      }
    }
  }

  /** A selection from the tail is a selection from the whole. */
  lemma {:induction false} SubseqSkip<T>(r: seq<T>, xs: seq<T>)
    requires |xs| > 0 && SubseqOf(r, xs[1..])
    ensures SubseqOf(r, xs)
  {
  }

  /** The first row with an id in the tail, when the head has another id, is
      the first row with it in the whole. */
  lemma FirstWithIdSkip(xs: seq<AggTrade>, t: AggTrade)
    requires |xs| > 0 && FirstWithId(xs[1..], t) && xs[0].id != t.id
    ensures FirstWithId(xs, t)
  {
    var j :| 0 <= j < |xs[1..]| && xs[1..][j] == t && forall k :: 0 <= k < j ==> xs[1..][k].id != t.id;
    assert xs[j + 1] == t;
    forall k | 0 <= k < j + 1 ensures xs[k].id != t.id {
      if k > 0 { assert xs[k] == xs[1..][k - 1]; }
    }
  }

  /** `df[df['T'] <= bound]`. */
  function Trim(xs: seq<AggTrade>, bound: int): (r: seq<AggTrade>)
    ensures forall i :: 0 <= i < |r| ==> r[i].time <= bound
    ensures forall t :: t in r <==> t in xs && t.time <= bound
    decreases |xs|
  {
    if |xs| == 0 then []
    else if xs[0].time <= bound then [xs[0]] + Trim(xs[1..], bound)
    else Trim(xs[1..], bound)
  }

  /** Trimming keeps the order of the rows it keeps. */
  lemma {:induction false} TrimOrder(xs: seq<AggTrade>, bound: int)
    ensures SubseqOf(Trim(xs, bound), xs)
    decreases |xs|
  {
    if |xs| > 0 {
      TrimOrder(xs[1..], bound);
      var rest := Trim(xs[1..], bound);
      if xs[0].time <= bound {
        assert Trim(xs, bound)[1..] == rest;
      } else {
        SubseqSkip(rest, xs);
      }
    }
  }

  /** A selection from rows with unique ids has unique ids. */
  lemma {:induction false} SubseqUnique(r: seq<AggTrade>, xs: seq<AggTrade>)
    requires SubseqOf(r, xs) && UniqueIds(xs)
    ensures UniqueIds(r)
    ensures forall t :: t in r ==> t in xs
    decreases |xs|
  {
    if |r| > 0 {
      assert UniqueIds(xs[1..]) by {
        forall i, j | 0 <= i < j < |xs[1..]| ensures xs[1..][i].id != xs[1..][j].id {
          assert xs[1..][i] == xs[i + 1] && xs[1..][j] == xs[j + 1];
        }
      }
      if r[0] == xs[0] && SubseqOf(r[1..], xs[1..]) {
        SubseqUnique(r[1..], xs[1..]);
        forall i, j | 0 <= i < j < |r| ensures r[i].id != r[j].id {
          if i == 0 {
            assert r[j] == r[1..][j - 1];
            assert r[j] in xs[1..];
            var k :| 0 <= k < |xs[1..]| && xs[1..][k] == r[j];
            assert xs[k + 1] == r[j];
          } else {
            assert r[i] == r[1..][i - 1] && r[j] == r[1..][j - 1];
          }
        }
        forall t | t in r ensures t in xs {
          if t != r[0] {
            var i :| 0 <= i < |r| && r[i] == t;
            assert t == r[1..][i - 1];
            assert t in xs[1..];
            var k :| 0 <= k < |xs[1..]| && xs[1..][k] == t;
            assert xs[k + 1] == t;
          }
        }
      } else {
        SubseqUnique(r, xs[1..]);
      }
    }
  }

  /** The cleanup of `binance_get_trades`: duplicates dropped by id keeping the
      first, then only rows up to the bound. The result has unique ids, all
      within the bound, each the first row of its id in the fetched rows, in
      their fetched order, and every fetched id within the bound whose first
      row is within it survives. */
  function Cleanup(xs: seq<AggTrade>, bound: int): (r: seq<AggTrade>)
    ensures UniqueIds(r)
    ensures forall i :: 0 <= i < |r| ==> r[i].time <= bound
    ensures SubseqOf(r, xs)
    ensures forall i :: 0 <= i < |r| ==> FirstWithId(xs, r[i])
  {
    var d := Dedupe(xs);
    var r := Trim(d, bound);
    DedupeFromMeaning(xs, {});
    TrimOrder(d, bound);
    SubseqUnique(r, d);
    SubseqTrans(r, d, xs);
    forall i | 0 <= i < |r| ensures FirstWithId(xs, r[i]) {
      assert r[i] in d;
    }
    r
  }

  /** A selection of a selection is a selection. */
  lemma {:induction false} SubseqTrans<T>(a: seq<T>, b: seq<T>, c: seq<T>)
    requires SubseqOf(a, b) && SubseqOf(b, c)
    ensures SubseqOf(a, c)
    decreases |c|
  {
    if |a| > 0 {
      if b[0] == c[0] && SubseqOf(b[1..], c[1..]) {
        if a[0] == b[0] && SubseqOf(a[1..], b[1..]) {
          SubseqTrans(a[1..], b[1..], c[1..]);
        } else {
          SubseqTrans(a, b[1..], c[1..]);
          SubseqSkip(a, c);
        }
      } else {
        SubseqTrans(a, b, c[1..]);
        SubseqSkip(a, c);
      }
    }
  }

  /** Every id fetched keeps a row through the cleanup when the first row
      with that id lies within the bound. */
  lemma CleanupKeepsIds(xs: seq<AggTrade>, bound: int, j: int)
    requires 0 <= j < |xs| && xs[j].time <= bound
    requires forall k :: 0 <= k < j ==> xs[k].id != xs[j].id
    ensures xs[j] in Cleanup(xs, bound)
  {
    var d := Dedupe(xs);
    DedupeFromMeaning(xs, {});
    var i :| 0 <= i < |d| && d[i].id == xs[j].id;
    var k :| 0 <= k < |xs| && xs[k] == d[i] && forall m :: 0 <= m < k ==> xs[m].id != d[i].id;
    assert k == j;
  }

  // ---------------------------------------------------------------------
  // The time-cursor loops of the open-interest and taker-volume histories

  /** A row of a statistics history: its millisecond timestamp and value. */
  datatype Point = Point(timestamp: int, value: int)

  /** What the history endpoint answers for `[startTime, endTime]`: rows
      inside the requested range, oldest first. */
  ghost predicate Answers(history: (int, int) -> seq<Point>)
  {
    forall s, e :: InRange(history(s, e), s, e)
  }

  predicate InRange(page: seq<Point>, s: int, e: int)
  {
    && (forall i :: 0 <= i < |page| ==> s <= page[i].timestamp <= e)
    && (forall i, j :: 0 <= i < j < |page| ==> page[i].timestamp <= page[j].timestamp)
  }

  /** Timestamps in order. */
  predicate Chronological(ps: seq<Point>)
  {
    forall i, j :: 0 <= i < j < |ps| ==> ps[i].timestamp <= ps[j].timestamp
  }

  /** The pages older than `lastTime`, oldest first: the page for
      `[startMs, lastTime]`, preceded by the pages older than its oldest row,
      until the cursor falls below `startMs` or a page comes back empty. */
  ghost function OlderPages(history: (int, int) -> seq<Point>, startMs: int, lastTime: int): seq<Point>
    requires Answers(history)
    decreases lastTime - startMs
  {
    if lastTime < startMs then []
    else
      var temp := history(startMs, lastTime);
      assert InRange(temp, startMs, lastTime);
      if |temp| == 0 then [] else OlderPages(history, startMs, temp[0].timestamp - 1) + temp
  }

  /** Everything the history loop collects after a non-empty first page: the
      older pages followed by the first page. */
  ghost function Collected(history: (int, int) -> seq<Point>, startMs: int, nowMs: int): seq<Point>
    requires Answers(history) && |history(startMs, nowMs)| > 0
  {
    var data := history(startMs, nowMs);
    OlderPages(history, startMs, data[0].timestamp - 1) + data
  }

  /** `binance_get_OI`: the newest page up to `nowMs`, then older pages
      ending one millisecond before the oldest row seen, each prepended,
      until the cursor falls below `startMs` or a page comes back empty. An
      empty first page raises `IndexError`. The result is exactly the pages
      fetched, oldest first; its rows are within `[startMs, nowMs]` and in
      time order, and the loop always ends. */
  method CollectHistory(history: (int, int) -> seq<Point>, startMs: int, nowMs: int)
    returns (r: Result<seq<Point>>)
    requires Answers(history)
    ensures r.Raised? <==> |history(startMs, nowMs)| == 0
    ensures r.Ok? ==> r.value == Collected(history, startMs, nowMs)
    ensures r.Ok? ==> forall i :: 0 <= i < |r.value| ==> startMs <= r.value[i].timestamp <= nowMs
    ensures r.Ok? ==> Chronological(r.value)
  {
    var data := history(startMs, nowMs);
    assert InRange(data, startMs, nowMs);
    if |data| == 0 {
      return Raised("IndexError: list index out of range");
    }
    var lastTime := data[0].timestamp - 1;
    var df := data;
    while lastTime >= startMs
      invariant |df| > 0 && lastTime == df[0].timestamp - 1
      invariant forall i :: 0 <= i < |df| ==> startMs <= df[i].timestamp <= nowMs
      invariant Chronological(df)
      invariant OlderPages(history, startMs, lastTime) + df == Collected(history, startMs, nowMs)
      decreases lastTime - startMs
    {
      var temp := history(startMs, lastTime);
      assert InRange(temp, startMs, lastTime);
      if |temp| == 0 {
        break;
      }
      ghost var older := OlderPages(history, startMs, temp[0].timestamp - 1);
      assert OlderPages(history, startMs, lastTime) == older + temp;
      assert older + (temp + df) == (older + temp) + df;
      lastTime := temp[0].timestamp - 1;
      PrependOlder(temp, df);
      df := temp + df;
    }
    assert OlderPages(history, startMs, lastTime) == [];
    assert [] + df == df;
    return Ok(df);
  }

  /** An older page in time order put in front of a younger one keeps the
      whole in time order. */
  lemma PrependOlder(older: seq<Point>, df: seq<Point>)
    requires |df| > 0
    requires Chronological(older) && Chronological(df)
    requires forall i :: 0 <= i < |older| ==> older[i].timestamp < df[0].timestamp
    ensures Chronological(older + df)
  {
    var s := older + df;
    forall i, j | 0 <= i < j < |s| ensures s[i].timestamp <= s[j].timestamp {
      if i < |older| <= j {
        assert df[0].timestamp <= df[j - |older|].timestamp || j - |older| == 0;
      }
    }
  }

  /** The state of the taker-volume loop: its cursor and the rows so far. */
  datatype Cursor = Cursor(lastTime: int, rows: seq<Point>)

  /** One pass of the `binance_get_buy_sell_vol` loop as written: an empty page
      raises `IndexError`, which is caught without a `break`, so the cursor
      stays where it was and the empty page is prepended. */
  function BuySellVolStep(history: (int, int) -> seq<Point>, startMs: int, c: Cursor): (n: Cursor)
    ensures |history(startMs, c.lastTime)| == 0 ==> n == c
    ensures |history(startMs, c.lastTime)| > 0 ==> n.lastTime == history(startMs, c.lastTime)[0].timestamp - 1
  {
    var temp := history(startMs, c.lastTime);
    var last := if |temp| > 0 then temp[0].timestamp - 1 else c.lastTime;
    Cursor(last, temp + c.rows)
  }

  /** The loop as written, run for at most `fuel` passes: the rows once the
      cursor falls below `startMs`, or `None` if it has not by then. */
  function BuySellVolAsWritten(history: (int, int) -> seq<Point>, startMs: int, c: Cursor, fuel: nat): Option<seq<Point>>
    decreases fuel
  {
    if c.lastTime < startMs then Some(c.rows)
    else if fuel == 0 then None
    else BuySellVolAsWritten(history, startMs, BuySellVolStep(history, startMs, c), fuel - 1)
  }

  /** Once the endpoint answers the cursor with an empty page while the
      cursor has not yet passed `startMs`, the loop as written never ends:
      however many passes it is given, it has not finished. */
  lemma {:induction false} BuySellVolStalls(history: (int, int) -> seq<Point>, startMs: int, c: Cursor, fuel: nat)
    requires c.lastTime >= startMs
    requires |history(startMs, c.lastTime)| == 0
    ensures BuySellVolAsWritten(history, startMs, c, fuel) == None
    decreases fuel
  {
    if fuel > 0 {
      assert BuySellVolStep(history, startMs, c) == c;
      BuySellVolStalls(history, startMs, c, fuel - 1);
    }
  }

  /** `binance_get_buy_sell_vol` with the `break` that `binance_get_OI` has:
      the same collection loop, which always ends. */
  method CollectBuySellVol(history: (int, int) -> seq<Point>, startMs: int, nowMs: int)
    returns (r: Result<seq<Point>>)
    requires Answers(history)
    ensures r.Raised? <==> |history(startMs, nowMs)| == 0
    ensures r.Ok? ==> r.value == Collected(history, startMs, nowMs)
    ensures r.Ok? ==> forall i :: 0 <= i < |r.value| ==> startMs <= r.value[i].timestamp <= nowMs
    ensures r.Ok? ==> Chronological(r.value)
  {
    r := CollectHistory(history, startMs, nowMs);
  }
}

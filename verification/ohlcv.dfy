/** Trade to OHLCV aggregation: the per-bucket first/max/min/last/sum, the
    side normalisation and buy/sell split of `trades_to_historical`, and the
    two gap-fill policies (`resample_ohlc` and `trades_to_historical`).
    Prices and sizes are integers (ticks and lots). */
module Candles {
  import opened Wrappers
  import opened Buckets

  /** One OHLCV bar. */
  datatype Candle = Candle(open: int, high: int, low: int, close: int, volume: int)

  /** Open and close lie between low and high. */
  predicate Consistent(c: Candle)
  {
    c.low <= c.open <= c.high && c.low <= c.close <= c.high
  }

  function VolumeOf(c: Candle): int
  {
    c.volume
  }

  /** Largest high of a non-empty run of bars: pandas `max`. */
  function MaxHigh(cs: seq<Candle>): (m: int)
    requires |cs| > 0
    ensures forall i :: 0 <= i < |cs| ==> cs[i].high <= m
    ensures exists i :: 0 <= i < |cs| && cs[i].high == m
    decreases |cs|
  {
    if |cs| == 1 then cs[0].high
    else
      var m := MaxHigh(cs[1..]);
      assert forall i :: 1 <= i < |cs| ==> cs[i].high <= m by {
        forall i | 1 <= i < |cs| ensures cs[i].high <= m { assert cs[i] == cs[1..][i - 1]; }
      }
      var j :| 0 <= j < |cs[1..]| && cs[1..][j].high == m;
      assert cs[j + 1].high == m;
      if cs[0].high >= m then cs[0].high else m
  }

  /** Smallest low of a non-empty run of bars: pandas `min`. */
  function MinLow(cs: seq<Candle>): (m: int)
    requires |cs| > 0
    ensures forall i :: 0 <= i < |cs| ==> m <= cs[i].low
    ensures exists i :: 0 <= i < |cs| && cs[i].low == m
    decreases |cs|
  {
    if |cs| == 1 then cs[0].low
    else
      var m := MinLow(cs[1..]);
      assert forall i :: 1 <= i < |cs| ==> m <= cs[i].low by {
        forall i | 1 <= i < |cs| ensures m <= cs[i].low { assert cs[i] == cs[1..][i - 1]; }
      }
      var j :| 0 <= j < |cs[1..]| && cs[1..][j].low == m;
      assert cs[j + 1].low == m;
      if cs[0].low <= m then cs[0].low else m
  }

  /** The aggregate of one occupied bucket: open of the first bar, the highest
      high, the lowest low, close of the last bar and the summed volume. The
      result is a bar of the bucket's own extremes, and it is consistent
      whenever every input bar is. */
  function Combine(cs: seq<Candle>): (c: Candle)
    requires |cs| > 0
    ensures c.open == cs[0].open && c.close == cs[|cs| - 1].close
    ensures forall i :: 0 <= i < |cs| ==> c.low <= cs[i].low && cs[i].high <= c.high
    ensures exists i :: 0 <= i < |cs| && cs[i].high == c.high
    ensures exists i :: 0 <= i < |cs| && cs[i].low == c.low
    ensures c.volume == SumBy(cs, VolumeOf)
    ensures (forall i :: 0 <= i < |cs| ==> Consistent(cs[i])) ==> Consistent(c)
  {
    Candle(cs[0].open, MaxHigh(cs), MinLow(cs), cs[|cs| - 1].close, SumBy(cs, VolumeOf))
  }

  /** The bars of a bucket's rows under a per-row view. */
  function CandlesOf<T>(g: seq<T>, f: T -> Candle): (r: seq<Candle>)
    ensures |r| == |g|
    ensures forall i :: 0 <= i < |g| ==> r[i] == f(g[i])
    decreases |g|
  {
    if |g| == 0 then [] else [f(g[0])] + CandlesOf(g[1..], f)
  }

  /** A trade: time in microseconds since the epoch, price, size and the
      exchange's spelling of the taker side. */
  datatype Trade = Trade(time: int, price: int, size: int, side: string)

  /** A single print seen as a bar: all four prices are its price and the
      volume is its size. */
  function PrintCandle(price: int, size: int): (c: Candle)
    ensures Consistent(c)
  {
    Candle(price, price, price, price, size)
  }

  function TradeCandle(t: Trade): (c: Candle)
    ensures Consistent(c)
  {
    PrintCandle(t.price, t.size)
  }

  function SizeOf(t: Trade): int
  {
    t.size
  }

  /** The volume of a bucket of trades is its summed size. */
  lemma {:induction false} TradeVolume(g: seq<Trade>)
    ensures SumBy(CandlesOf(g, TradeCandle), VolumeOf) == SumBy(g, SizeOf)
    decreases |g|
  {
    if |g| > 0 {
      TradeVolume(g[1..]);
      assert CandlesOf(g, TradeCandle)[1..] == CandlesOf(g[1..], TradeCandle);
    }
  }

  /** The spellings the exchanges use for the buy and the sell side. */
  const BuySpellings: set<string> := {"Buy", "BUY", "OrderSide.BUY"}
  const SellSpellings: set<string> := {"Sell", "SELL", "OrderSide.SELL"}

  /** pandas `Series.mask(s == from, to)` on one cell. */
  function Mask(v: string, from: string, to: string): string
  {
    if v == from then to else v
  }

  /** The six masks of `trades_to_historical`, applied in the source's order.
      Net effect: every buy spelling becomes "buy", every sell spelling
      "sell", anything else is left as it is, and the result is never itself
      a spelling the masks would rewrite, so normalising twice changes nothing. */
  function NormaliseSide(s: string): (r: string)
    ensures s in BuySpellings ==> r == "buy"
    ensures s in SellSpellings ==> r == "sell"
    ensures s !in BuySpellings && s !in SellSpellings ==> r == s
    ensures r !in BuySpellings && r !in SellSpellings
  {
    var b := Mask(Mask(Mask(s, "Buy", "buy"), "BUY", "buy"), "OrderSide.BUY", "buy");
    Mask(Mask(Mask(b, "Sell", "sell"), "SELL", "sell"), "OrderSide.SELL", "sell")
  }

  lemma NormaliseSideIdempotent(s: string)
    ensures NormaliseSide(NormaliseSide(s)) == NormaliseSide(s)
  {
    var r := NormaliseSide(s);
    assert r !in BuySpellings && r !in SellSpellings;
  }

  /** `buyVol`: the size of trades whose normalised side is "buy", else 0. */
  function BuySize(t: Trade): int
  {
    if NormaliseSide(t.side) == "buy" then t.size else 0
  }

  /** `sellVol`: the size of trades whose normalised side is "sell", else 0. */
  function SellSize(t: Trade): int
  {
    if NormaliseSide(t.side) == "sell" then t.size else 0
  }

  /** A trade whose side is neither "buy" nor "sell" after normalisation. */
  predicate Unclassified(t: Trade)
  {
    NormaliseSide(t.side) != "buy" && NormaliseSide(t.side) != "sell"
  }

  function UnclassifiedSize(t: Trade): int
  {
    if Unclassified(t) then t.size else 0
  }

  /** Every trade's size goes to exactly one of buy, sell or neither. */
  lemma {:induction false} SideSplit(g: seq<Trade>)
    ensures SumBy(g, BuySize) + SumBy(g, SellSize) + SumBy(g, UnclassifiedSize) == SumBy(g, SizeOf)
    decreases |g|
  {
    if |g| > 0 {
      SideSplit(g[1..]);
    }
  }

  lemma {:induction false} SumByNonNegative<T>(g: seq<T>, f: T -> int)
    requires forall i :: 0 <= i < |g| ==> f(g[i]) >= 0
    ensures SumBy(g, f) >= 0
    decreases |g|
  {
    if |g| > 0 {
      assert forall i :: 0 <= i < |g[1..]| ==> f(g[1..][i]) >= 0 by {
        forall i | 0 <= i < |g[1..]| ensures f(g[1..][i]) >= 0 { assert g[1..][i] == g[i + 1]; }
      }
      SumByNonNegative(g[1..], f);
    }
  }

  lemma {:induction false} SumByPositive<T>(g: seq<T>, f: T -> int, k: int)
    requires forall i :: 0 <= i < |g| ==> f(g[i]) >= 0
    requires 0 <= k < |g| && f(g[k]) > 0
    ensures SumBy(g, f) > 0
    decreases |g|
  {
    if k == 0 {
      SumByNonNegative(g[1..], f);
    } else {
      assert g[1..][k - 1] == g[k];
      SumByPositive(g[1..], f, k - 1);
    }
  }

  /** With non-negative sizes the buy and sell volume of a bucket never
      exceed its volume. */
  lemma BuySellWithinVolume(g: seq<Trade>)
    requires forall i :: 0 <= i < |g| ==> g[i].size >= 0
    ensures SumBy(g, BuySize) + SumBy(g, SellSize) <= SumBy(g, SizeOf)
  {
    SideSplit(g);
    UnclassifiedNonNegative(g);
  }

  lemma {:induction false} UnclassifiedNonNegative(g: seq<Trade>)
    requires forall i :: 0 <= i < |g| ==> g[i].size >= 0
    ensures SumBy(g, UnclassifiedSize) >= 0
    decreases |g|
  {
    if |g| > 0 {
      assert g[0].size >= 0;
      assert forall i :: 0 <= i < |g[1..]| ==> g[1..][i].size >= 0;
      UnclassifiedNonNegative(g[1..]);
    }
  }

  /** When every side is classified, buy and sell volume make up the volume. */
  lemma BuySellMakeUpVolume(g: seq<Trade>)
    requires forall i :: 0 <= i < |g| ==> !Unclassified(g[i])
    ensures SumBy(g, BuySize) + SumBy(g, SellSize) == SumBy(g, SizeOf)
  {
    SideSplit(g);
    forall i | 0 <= i < |g| ensures UnclassifiedSize(g[i]) == 0 {
    }
    ZeroSum(g, UnclassifiedSize);
  }

  /** With positive sizes, buy plus sell equals volume only if every side is classified. */
  lemma BuySellFullVolume(g: seq<Trade>)
    requires forall i :: 0 <= i < |g| ==> g[i].size > 0
    requires SumBy(g, BuySize) + SumBy(g, SellSize) == SumBy(g, SizeOf)
    ensures forall i :: 0 <= i < |g| ==> !Unclassified(g[i])
  {
    UnclassifiedSumZero(g);
    NothingUnclassified(g);
  }

  lemma UnclassifiedSumZero(g: seq<Trade>)
    requires SumBy(g, BuySize) + SumBy(g, SellSize) == SumBy(g, SizeOf)
    ensures SumBy(g, UnclassifiedSize) == 0
  {
    SideSplit(g);
  }

  lemma NothingUnclassified(g: seq<Trade>)
    requires forall i :: 0 <= i < |g| ==> g[i].size > 0
    requires SumBy(g, UnclassifiedSize) == 0
    ensures forall i :: 0 <= i < |g| ==> !Unclassified(g[i])
  {
    UnclassifiedTerms(g);
    ZeroSumParts(g, UnclassifiedSize);
  }

  /** Each trade's unclassified size is non-negative, and zero exactly when
      its side is classified. */
  lemma UnclassifiedTerms(g: seq<Trade>)
    requires forall i :: 0 <= i < |g| ==> g[i].size > 0
    ensures forall i :: 0 <= i < |g| ==> UnclassifiedSize(g[i]) >= 0
    ensures forall i :: 0 <= i < |g| ==> (UnclassifiedSize(g[i]) == 0 <==> !Unclassified(g[i]))
  {
  }

  /** A zero sum of non-negative terms has every term zero. */
  lemma ZeroSumParts<T>(g: seq<T>, f: T -> int)
    requires forall i :: 0 <= i < |g| ==> f(g[i]) >= 0
    requires SumBy(g, f) == 0
    ensures forall k :: 0 <= k < |g| ==> f(g[k]) == 0
  {
    forall k | 0 <= k < |g| ensures f(g[k]) == 0 {
      if f(g[k]) > 0 {
        SumByPositive(g, f, k);
      }
    }
  }

  lemma {:induction false} ZeroSum<T>(g: seq<T>, f: T -> int)
    requires forall i :: 0 <= i < |g| ==> f(g[i]) == 0
    ensures SumBy(g, f) == 0
    decreases |g|
  {
    if |g| > 0 {
      assert forall i :: 0 <= i < |g[1..]| ==> f(g[1..][i]) == 0 by {
        forall i | 0 <= i < |g[1..]| ensures f(g[1..][i]) == 0 { assert g[1..][i] == g[i + 1]; }
      }
      ZeroSum(g[1..], f);
    }
  }

  /** How an empty bucket is filled from the bar before it. `CloseOnly` is
      `resample_ohlc`: close forward-filled, open/high/low set to that close.
      `CopyPrevious` is the whole-frame `ffill` of `trades_to_historical`:
      all four prices copied. Either way the summed volume is 0. */
  datatype GapPolicy = CloseOnly | CopyPrevious

  function GapBar(prev: Candle, p: GapPolicy): (c: Candle)
    ensures c.close == prev.close && c.volume == 0
    ensures p == CloseOnly ==> c.open == c.high == c.low == c.close
    ensures p == CopyPrevious ==> c.open == prev.open && c.high == prev.high && c.low == prev.low
    ensures Consistent(prev) ==> Consistent(c)
  {
    match p
    case CloseOnly => Candle(prev.close, prev.close, prev.close, prev.close, 0)
    case CopyPrevious => Candle(prev.open, prev.high, prev.low, prev.close, 0)
  }

  /** Forward fill of a column of buckets, `None` for an empty one, starting
      from the bar `prev` that precedes them. */
  function FillFrom(cells: seq<Option<Candle>>, prev: Candle, p: GapPolicy): (r: seq<Candle>)
    ensures |r| == |cells|
    ensures forall i :: 0 <= i < |cells| && cells[i].Some? ==> r[i] == cells[i].value
    ensures |cells| > 0 && cells[0].None? ==> r[0] == GapBar(prev, p)
    ensures forall i :: 0 < i < |cells| && cells[i].None? ==> r[i] == GapBar(r[i - 1], p)
    decreases |cells|
  {
    if |cells| == 0 then []
    else
      var c := if cells[0].Some? then cells[0].value else GapBar(prev, p);
      var rest := FillFrom(cells[1..], c, p);
      var r := [c] + rest;
      assert forall i :: 1 <= i < |cells| ==> r[i] == rest[i - 1] && cells[i] == cells[1..][i - 1];
      r
  }

  /** Forward fill of a column whose first bucket is occupied (the first bin
      of a resample always is), so no missing value survives. */
  function FillForward(cells: seq<Option<Candle>>, p: GapPolicy): (r: seq<Candle>)
    requires |cells| > 0 ==> cells[0].Some?
    ensures |r| == |cells|
    ensures forall i :: 0 <= i < |cells| && cells[i].Some? ==> r[i] == cells[i].value
    ensures forall i :: 0 < i < |cells| && cells[i].None? ==> r[i] == GapBar(r[i - 1], p)
  {
    if |cells| == 0 then [] else FillFrom(cells, cells[0].value, p)
  }

  /** The last occupied bucket at or before `i`. */
  function LastPresent(cells: seq<Option<Candle>>, i: int): (k: nat)
    requires 0 <= i < |cells| && cells[0].Some?
    ensures k <= i && cells[k].Some?
    ensures forall j :: k < j <= i ==> cells[j].None?
    decreases i
  {
    if cells[i].Some? then i else LastPresent(cells, i - 1)
  }

  /** The reference meaning of the forward fill: a filled close is the close
      of the last occupied bucket; under `CopyPrevious` all four prices are
      that bucket's; an empty bucket has volume 0. */
  lemma {:induction false} FillForwardMeaning(cells: seq<Option<Candle>>, p: GapPolicy, i: int)
    requires 0 <= i < |cells| && cells[0].Some?
    ensures FillForward(cells, p)[i].close == cells[LastPresent(cells, i)].value.close
    ensures p == CopyPrevious ==>
              var c := FillForward(cells, p)[i];
              var s := cells[LastPresent(cells, i)].value;
              c.open == s.open && c.high == s.high && c.low == s.low
    ensures cells[i].None? ==> FillForward(cells, p)[i].volume == 0
    decreases i
  {
    if cells[i].None? {
      FillForwardMeaning(cells, p, i - 1);
    }
  }

  /** Filling never produces an inconsistent bar out of consistent ones. */
  lemma {:induction false} FillKeepsConsistent(cells: seq<Option<Candle>>, p: GapPolicy, i: int)
    requires 0 <= i < |cells| && cells[0].Some?
    requires forall j :: 0 <= j < |cells| && cells[j].Some? ==> Consistent(cells[j].value)
    ensures Consistent(FillForward(cells, p)[i])
    decreases i
  {
    if cells[i].None? {
      FillKeepsConsistent(cells, p, i - 1);
    }
  }
}

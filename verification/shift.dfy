/** `np_shift`: a length-preserving shift of an array that pads the vacated
    slots with a fill value. The same function appears in the fetcher utilities
    and, as a class method, in the wrapper utilities. */
module NpShift {

  /** `n` copies of `v`. */
  function Fill<T>(n: nat, v: T): (r: seq<T>)
    ensures |r| == n
    ensures forall i :: 0 <= i < n ==> r[i] == v
  {
    seq(n, _ => v)
  }

  /** `np_shift(arr, num, fill_value)`, written the way the source assigns
      slices: for `num > 0` the first `num` slots get the fill and the rest
      `arr[:-num]`; for `num < 0` the last `-num` slots get the fill and the
      rest `arr[-num:]`; for `num == 0` a copy. NumPy clamps the slice bounds,
      which the `Min` makes explicit. The contract is the index-wise meaning:
      slot `i` holds `arr[i - num]` when that index exists, else the fill. */
  function Shift<T>(arr: seq<T>, num: int, fill: T): (r: seq<T>)
    ensures |r| == |arr|
    ensures forall i :: 0 <= i < |r| ==>
              r[i] == (if 0 <= i - num < |arr| then arr[i - num] else fill)
  {
    var n := |arr|;
    if num > 0 then
      var k := Min(num, n);
      Fill(k, fill) + arr[..n - k]
    else if num < 0 then
      var k := Min(-num, n);
      arr[k..] + Fill(k, fill)
    else
      arr
  }

  function Min(a: nat, b: nat): nat
  {
    if a < b then a else b
  }

  /** A shift by `0 < k < n` puts the fill in the first `k` slots and moves every
      element `k` places to the right. */
  lemma ShiftRight<T>(arr: seq<T>, k: int, fill: T)
    requires 0 < k < |arr|
    ensures Shift(arr, k, fill)[..k] == Fill(k, fill)
    ensures Shift(arr, k, fill)[k..] == arr[..|arr| - k]
  {
  }

  /** A shift by `-k` with `0 < k < n` puts the fill in the last `k` slots and
      moves every element `k` places to the left. */
  lemma ShiftLeft<T>(arr: seq<T>, k: int, fill: T)
    requires 0 < k < |arr|
    ensures Shift(arr, -k, fill)[..|arr| - k] == arr[k..]
    ensures Shift(arr, -k, fill)[|arr| - k..] == Fill(k, fill)
  {
  }

  /** Shifting by at least the length in either direction leaves only fill values. */
  lemma ShiftBeyondLength<T>(arr: seq<T>, num: int, fill: T)
    requires num >= |arr| || -num >= |arr|
    ensures Shift(arr, num, fill) == Fill(|arr|, fill)
  {
  }

  /** Two shifts in the same direction compose into one shift by the sum. */
  lemma ShiftCompose<T>(arr: seq<T>, j: int, k: int, fill: T)
    requires (j >= 0 && k >= 0) || (j <= 0 && k <= 0)
    ensures Shift(Shift(arr, j, fill), k, fill) == Shift(arr, j + k, fill)
  {
    var a := Shift(arr, j, fill);
    var b := Shift(a, k, fill);
    var c := Shift(arr, j + k, fill);
    forall i | 0 <= i < |arr|
      ensures b[i] == c[i]
    {
    }
  }

  /** Shifting back by the same amount restores every element that was not
      pushed out, and puts the fill where the pushed-out ones were. */
  lemma ShiftBack<T>(arr: seq<T>, k: int, fill: T)
    requires 0 <= k <= |arr|
    ensures Shift(Shift(arr, k, fill), -k, fill) == arr[..|arr| - k] + Fill(k, fill)
  {
    var b := Shift(Shift(arr, k, fill), -k, fill);
    var c := arr[..|arr| - k] + Fill(k, fill);
    forall i | 0 <= i < |arr|
      ensures b[i] == c[i]
    {
    }
  }
}

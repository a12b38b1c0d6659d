/** Fixed-width time buckets over a time-ordered sequence of rows.

    A row's bucket is its key (the floor of its timestamp divided by the
    bucket width). Polars' `group_by_dynamic` emits one group per bucket that
    holds rows; these are the maximal runs of equal key (`Runs`). Pandas'
    `resample` emits every bucket from the first row's to the last row's,
    empty ones included; these are the runs spread over consecutive keys
    (`Expand`). */
module Buckets {

  /** Concatenation of groups. */
  function Flatten<T>(gs: seq<seq<T>>): seq<T>
    decreases |gs|
  {
    if |gs| == 0 then [] else gs[0] + Flatten(gs[1..])
  }

  lemma {:induction false} FlattenAppend<T>(a: seq<seq<T>>, b: seq<seq<T>>)
    ensures Flatten(a + b) == Flatten(a) + Flatten(b)
    decreases |a|
  {
    if |a| == 0 {
      assert a + b == b;
    } else {
      assert (a + b)[1..] == a[1..] + b;
      FlattenAppend(a[1..], b);
    }
  }

  /** Sum of `f` over a sequence. */
  function SumBy<T>(xs: seq<T>, f: T -> int): int
    decreases |xs|
  {
    if |xs| == 0 then 0 else f(xs[0]) + SumBy(xs[1..], f)
  }

  lemma {:induction false} SumByAppend<T>(a: seq<T>, b: seq<T>, f: T -> int)
    ensures SumBy(a + b, f) == SumBy(a, f) + SumBy(b, f)
    decreases |a|
  {
    if |a| == 0 {
      assert a + b == b;
    } else {
      assert (a + b)[1..] == a[1..] + b;
      SumByAppend(a[1..], b, f);
    }
  }

  /** Sum of per-group sums. */
  function SumOfGroups<T>(gs: seq<seq<T>>, f: T -> int): int
    decreases |gs|
  {
    if |gs| == 0 then 0 else SumBy(gs[0], f) + SumOfGroups(gs[1..], f)
  }

  /** Grouping neither loses nor invents anything that is summed. */
  lemma {:induction false} SumOfGroupsFlatten<T>(gs: seq<seq<T>>, f: T -> int)
    ensures SumOfGroups(gs, f) == SumBy(Flatten(gs), f)
    decreases |gs|
  {
    if |gs| > 0 {
      SumOfGroupsFlatten(gs[1..], f);
      SumByAppend(gs[0], Flatten(gs[1..]), f);
    }
  }

  /** Keys never decrease along the sequence (the rows are time-ordered). */
  predicate SortedBy<T>(xs: seq<T>, key: T -> int)
  {
    forall i, j :: 0 <= i < j < |xs| ==> key(xs[i]) <= key(xs[j])
  }

  /** A non-empty group whose members all share the first member's key. */
  predicate Uniform<T>(g: seq<T>, key: T -> int)
  {
    |g| > 0 && forall j :: 0 <= j < |g| ==> key(g[j]) == key(g[0])
  }

  /** Non-empty groups whose keys strictly increase. */
  predicate Ascending<T>(gs: seq<seq<T>>, key: T -> int)
  {
    && (forall i :: 0 <= i < |gs| ==> |gs[i]| > 0)
    && (forall i :: 0 <= i < |gs| - 1 ==> key(gs[i][0]) < key(gs[i + 1][0]))
  }

  /** The maximal runs of equal key: `group_by_dynamic` over rows that are
      already in time order. Every run is non-empty and the first run starts
      with the first row; `RunsFlatten`, `RunsUniform`, `RunsDistinct` and
      `RunsAscending` state the rest. */
  function Runs<T>(xs: seq<T>, key: T -> int): (r: seq<seq<T>>)
    ensures forall i :: 0 <= i < |r| ==> |r[i]| > 0
    ensures |xs| > 0 <==> |r| > 0
    ensures |xs| > 0 ==> r[0][0] == xs[0]
    decreases |xs|
  {
    if |xs| == 0 then []
    else
      var rest := Runs(xs[1..], key);
      if |rest| > 0 && key(rest[0][0]) == key(xs[0]) then
        [[xs[0]] + rest[0]] + rest[1..]
      else
        [[xs[0]]] + rest
  }

  /** Every row lands in exactly one run, in order. */
  lemma {:induction false} RunsFlatten<T>(xs: seq<T>, key: T -> int)
    ensures Flatten(Runs(xs, key)) == xs
    decreases |xs|
  {
    if |xs| > 0 {
      var rest := Runs(xs[1..], key);
      RunsFlatten(xs[1..], key);
      var r := Runs(xs, key);
      if |rest| > 0 && key(rest[0][0]) == key(xs[0]) {
        assert r[1..] == rest[1..];
        assert Flatten(rest) == rest[0] + Flatten(rest[1..]);
        assert Flatten(r) == ([xs[0]] + rest[0]) + Flatten(rest[1..]);
      } else {
        assert r[1..] == rest;
        assert Flatten(r) == [xs[0]] + Flatten(rest);
      }
      assert xs == [xs[0]] + xs[1..];
    }
  }

  /** Every run has a single key. */
  lemma {:induction false} RunsUniform<T>(xs: seq<T>, key: T -> int)
    ensures forall i :: 0 <= i < |Runs(xs, key)| ==> Uniform(Runs(xs, key)[i], key)
    decreases |xs|
  {
    if |xs| > 0 {
      var rest := Runs(xs[1..], key);
      RunsUniform(xs[1..], key);
      var r := Runs(xs, key);
      if |rest| > 0 && key(rest[0][0]) == key(xs[0]) {
        var merged := [xs[0]] + rest[0];
        assert Uniform(rest[0], key);
        forall j | 0 <= j < |merged| ensures key(merged[j]) == key(merged[0]) {
          if j > 0 { assert merged[j] == rest[0][j - 1]; }
        }
        forall i | 0 <= i < |r| ensures Uniform(r[i], key) {
          if i > 0 { assert r[i] == rest[i]; }
        }
      } else {
        forall i | 0 <= i < |r| ensures Uniform(r[i], key) {
          if i > 0 { assert r[i] == rest[i - 1]; }
        }
      }
    }
  }

  /** The key of a group: the key of its first row. */
  function GroupKey<T>(g: seq<T>, key: T -> int): int
    requires |g| > 0
  {
    key(g[0])
  }

  /** Non-empty groups in which neighbours have different keys. */
  predicate NeighboursDiffer<T>(gs: seq<seq<T>>, key: T -> int)
  {
    && (forall i :: 0 <= i < |gs| ==> |gs[i]| > 0)
    && (forall i :: 0 <= i < |gs| - 1 ==> GroupKey(gs[i], key) != GroupKey(gs[i + 1], key))
  }

  /** Neighbouring runs differ in key: the runs are maximal. */
  lemma {:induction false} RunsDistinct<T>(xs: seq<T>, key: T -> int)
    ensures NeighboursDiffer(Runs(xs, key), key)
    decreases |xs|
  {
    if |xs| > 0 {
      var rest := Runs(xs[1..], key);
      RunsDistinct(xs[1..], key);
      var r := Runs(xs, key);
      if |rest| > 0 && key(rest[0][0]) == key(xs[0]) {
        assert r == [[xs[0]] + rest[0]] + rest[1..];
        forall i | 0 <= i < |r| - 1 ensures GroupKey(r[i], key) != GroupKey(r[i + 1], key) {
          assert r[i + 1] == rest[i + 1];
          if i > 0 {
            assert r[i] == rest[i];
          } else {
            assert GroupKey(r[0], key) == key(xs[0]) == GroupKey(rest[0], key);
          }
        }
      } else {
        assert r == [[xs[0]]] + rest;
        forall i | 0 <= i < |r| - 1 ensures GroupKey(r[i], key) != GroupKey(r[i + 1], key) {
          assert r[i + 1] == rest[i];
          if i > 0 {
            assert r[i] == rest[i - 1];
          } else {
            assert GroupKey(r[0], key) == key(xs[0]) != GroupKey(rest[0], key);
          }
        }
      }
    }
  }

  /** For rows in time order the run keys strictly increase. */
  lemma {:induction false} RunsAscending<T>(xs: seq<T>, key: T -> int)
    requires SortedBy(xs, key)
    ensures Ascending(Runs(xs, key), key)
    decreases |xs|
  {
    if |xs| > 0 {
      var rest := Runs(xs[1..], key);
      assert SortedBy(xs[1..], key);
      RunsAscending(xs[1..], key);
      RunsDistinct(xs, key);
      var r := Runs(xs, key);
      if |rest| > 0 {
        assert rest[0][0] == xs[1];
      }
      forall i | 0 <= i < |r| - 1 ensures key(r[i][0]) < key(r[i + 1][0]) {
        assert GroupKey(r[i], key) != GroupKey(r[i + 1], key);
        if |rest| > 0 && key(rest[0][0]) == key(xs[0]) {
          assert r[i + 1] == rest[i + 1];
          if i > 0 { assert r[i] == rest[i]; } else { assert key(r[0][0]) == key(rest[0][0]); }
        } else {
          assert r[i + 1] == rest[i];
          if i > 0 { assert r[i] == rest[i - 1]; }
        }
      }
    }
  }

  /** One bucket of the full pandas range: its key and the rows it holds. */
  datatype Slot<T> = Slot(key: int, members: seq<T>)

  /** Empty buckets for the keys `from .. to - 1`. */
  function Gap<T>(from: int, to: int): (r: seq<Slot<T>>)
    requires from <= to
    ensures |r| == to - from
    ensures forall i :: 0 <= i < |r| ==> r[i] == Slot(from + i, [])
  {
    seq(to - from, i => Slot(from + i, []))
  }

  function Members<T>(slots: seq<Slot<T>>): (r: seq<seq<T>>)
    ensures |r| == |slots|
    ensures forall i :: 0 <= i < |r| ==> r[i] == slots[i].members
  {
    seq(|slots|, i requires 0 <= i < |slots| => slots[i].members)
  }

  /** The runs spread over every key from the first run's to the last run's,
      with an empty bucket for each key no row has: `resample`'s bins. The
      keys are consecutive, the occupied buckets hold the runs in order, and
      every row is in the bucket of its own key. */
  function Expand<T>(runs: seq<seq<T>>, key: T -> int): (r: seq<Slot<T>>)
    requires Ascending(runs, key)
    ensures |runs| == 0 ==> r == []
    ensures |runs| > 0 ==> |r| == key(runs[|runs| - 1][0]) - key(runs[0][0]) + 1
    ensures |runs| > 0 ==> forall i :: 0 <= i < |r| ==> r[i].key == key(runs[0][0]) + i
    ensures |runs| > 0 ==> |r| > 0 && r[0].members == runs[0]
    ensures Flatten(Members(r)) == Flatten(runs)
    ensures (forall i :: 0 <= i < |runs| ==> Uniform(runs[i], key)) ==>
              forall i, j :: 0 <= i < |r| && 0 <= j < |r[i].members| ==> key(r[i].members[j]) == r[i].key
    decreases |runs|
  {
    if |runs| == 0 then []
    else if |runs| == 1 then
      assert Flatten(Members([Slot(key(runs[0][0]), runs[0])])) == runs[0] + Flatten([]);
      assert Flatten(runs) == runs[0] + Flatten(runs[1..]);
      [Slot(key(runs[0][0]), runs[0])]
    else
      var tail := Expand(runs[1..], key);
      ExpandCons(runs, key, tail);
      [Slot(key(runs[0][0]), runs[0])] + Gap(key(runs[0][0]) + 1, key(runs[1][0])) + tail
  }

  /** The recursive step of `Expand`: the first run's bucket and the empty
      buckets up to the second run's key, put before the expansion of the
      remaining runs, expand all the runs. */
  lemma ExpandCons<T>(runs: seq<seq<T>>, key: T -> int, tail: seq<Slot<T>>)
    requires |runs| > 1 && Ascending(runs, key)
    requires |tail| == key(runs[1..][|runs[1..]| - 1][0]) - key(runs[1..][0][0]) + 1
    requires forall i :: 0 <= i < |tail| ==> tail[i].key == key(runs[1..][0][0]) + i
    requires Flatten(Members(tail)) == Flatten(runs[1..])
    requires (forall i :: 0 <= i < |runs[1..]| ==> Uniform(runs[1..][i], key)) ==>
               forall i, j :: 0 <= i < |tail| && 0 <= j < |tail[i].members| ==> key(tail[i].members[j]) == tail[i].key
    ensures var r := [Slot(key(runs[0][0]), runs[0])] + Gap(key(runs[0][0]) + 1, key(runs[1][0])) + tail;
            && |r| == key(runs[|runs| - 1][0]) - key(runs[0][0]) + 1
            && (forall i :: 0 <= i < |r| ==> r[i].key == key(runs[0][0]) + i)
            && |r| > 0 && r[0].members == runs[0]
            && Flatten(Members(r)) == Flatten(runs)
            && ((forall i :: 0 <= i < |runs| ==> Uniform(runs[i], key)) ==>
                  forall i, j :: 0 <= i < |r| && 0 <= j < |r[i].members| ==> key(r[i].members[j]) == r[i].key)
  {
    var k0 := key(runs[0][0]);
    var k1 := key(runs[1][0]);
    assert runs[1..][0] == runs[1] && runs[1..][|runs[1..]| - 1] == runs[|runs| - 1];
    ExpandFlatten(runs[0], Gap(k0 + 1, k1), tail, k0);
    assert Flatten(runs) == runs[0] + Flatten(runs[1..]);
    ExpandKeys(runs[0], tail, k0, k1, key(runs[|runs| - 1][0]));
    UniformRuns(runs, key);
    ExpandUniform(runs[0], tail, k0, k1, key);
  }

  /** A leading bucket and empty buckets up to the first key of the rest
      extend the rest's consecutive keys downwards. */
  lemma ExpandKeys<T>(first: seq<T>, tail: seq<Slot<T>>, k0: int, k1: int, last: int)
    requires k0 < k1
    requires |tail| == last - k1 + 1
    requires forall i :: 0 <= i < |tail| ==> tail[i].key == k1 + i
    ensures var r := [Slot(k0, first)] + Gap(k0 + 1, k1) + tail;
            && |r| == last - k0 + 1
            && (forall i :: 0 <= i < |r| ==> r[i].key == k0 + i)
            && r[0].members == first
  {
    var gap: seq<Slot<T>> := Gap(k0 + 1, k1);
    var r := [Slot(k0, first)] + gap + tail;
    forall i | 0 <= i < |r| ensures r[i].key == k0 + i {
      if i == 0 {
      } else if i <= |gap| {
        assert r[i] == gap[i - 1];
      } else {
        assert r[i] == tail[i - 1 - |gap|];
      }
    }
  }

  /** Uniform runs have a uniform first run and uniform later runs. */
  lemma UniformRuns<T>(runs: seq<seq<T>>, key: T -> int)
    requires |runs| > 0
    ensures (forall i :: 0 <= i < |runs| ==> Uniform(runs[i], key)) ==>
              Uniform(runs[0], key) && forall i :: 0 <= i < |runs[1..]| ==> Uniform(runs[1..][i], key)
  {
    if forall i :: 0 <= i < |runs| ==> Uniform(runs[i], key) {
      forall i | 0 <= i < |runs[1..]| ensures Uniform(runs[1..][i], key) {
        assert runs[1..][i] == runs[i + 1];
      }
    }
  }

  /** When the leading run has one key and every bucket of the rest holds
      only rows of its own key, so does every bucket of the whole. */
  lemma ExpandUniform<T>(first: seq<T>, tail: seq<Slot<T>>, k0: int, k1: int, key: T -> int)
    requires k0 < k1
    ensures Uniform(first, key) && key(first[0]) == k0
            && (forall i, j :: 0 <= i < |tail| && 0 <= j < |tail[i].members| ==> key(tail[i].members[j]) == tail[i].key) ==>
            var r := [Slot(k0, first)] + Gap(k0 + 1, k1) + tail;
            forall i, j :: 0 <= i < |r| && 0 <= j < |r[i].members| ==> key(r[i].members[j]) == r[i].key
  {
    var gap: seq<Slot<T>> := Gap(k0 + 1, k1);
    var r := [Slot(k0, first)] + gap + tail;
    if Uniform(first, key) && key(first[0]) == k0
       && (forall i, j :: 0 <= i < |tail| && 0 <= j < |tail[i].members| ==> key(tail[i].members[j]) == tail[i].key)
    {
      forall i, j | 0 <= i < |r| && 0 <= j < |r[i].members| ensures key(r[i].members[j]) == r[i].key {
        if i > |gap| {
          assert r[i] == tail[i - 1 - |gap|];
        }
      }
    }
  }

  /** The members of a leading occupied bucket, a stretch of empty buckets and
      the rest flatten to the leading rows followed by the rest's rows. */
  lemma ExpandFlatten<T>(first: seq<T>, gap: seq<Slot<T>>, tail: seq<Slot<T>>, k0: int)
    requires forall i :: 0 <= i < |gap| ==> gap[i].members == []
    ensures Flatten(Members([Slot(k0, first)] + gap + tail)) == first + Flatten(Members(tail))
  {
    var all := [Slot(k0, first)] + gap + tail;
    assert Members(all) == [first] + Members(gap) + Members(tail);
    FlattenAppend([first] + Members(gap), Members(tail));
    FlattenAppend([first], Members(gap));
    FlattenEmpties(Members(gap));
    assert Flatten([first]) == first + Flatten([]);
  }

  lemma {:induction false} FlattenEmpties<T>(gs: seq<seq<T>>)
    requires forall i :: 0 <= i < |gs| ==> gs[i] == []
    ensures Flatten(gs) == []
    decreases |gs|
  {
    if |gs| > 0 {
      FlattenEmpties(gs[1..]);
    }
  }

  /** `resample` over rows in time order: one bucket per key from the first
      row's to the last row's, consecutive, holding every row in order, each
      row in the bucket of its own key. */
  function Resample<T>(xs: seq<T>, key: T -> int): (r: seq<Slot<T>>)
    requires SortedBy(xs, key)
    ensures |xs| == 0 ==> r == []
    ensures |xs| > 0 ==> |r| == key(xs[|xs| - 1]) - key(xs[0]) + 1
    ensures |xs| > 0 ==> forall i :: 0 <= i < |r| ==> r[i].key == key(xs[0]) + i
    ensures |xs| > 0 ==> |r[0].members| > 0
    ensures Flatten(Members(r)) == xs
    ensures forall i, j :: 0 <= i < |r| && 0 <= j < |r[i].members| ==> key(r[i].members[j]) == r[i].key
  {
    var runs := Runs(xs, key);
    RunsAscending(xs, key);
    RunsFlatten(xs, key);
    RunsUniform(xs, key);
    if |xs| > 0 then
      var last := runs[|runs| - 1];
      LastOfFlatten(runs);
      assert last[|last| - 1] == xs[|xs| - 1];
      assert Uniform(last, key);
      Expand(runs, key)
    else
      Expand(runs, key)
  }

  /** The last row of a flattening of non-empty groups is the last row of the last group. */
  lemma {:induction false} LastOfFlatten<T>(gs: seq<seq<T>>)
    requires |gs| > 0
    requires forall i :: 0 <= i < |gs| ==> |gs[i]| > 0
    ensures |Flatten(gs)| > 0
    ensures Flatten(gs)[|Flatten(gs)| - 1] == gs[|gs| - 1][|gs[|gs| - 1]| - 1]
    decreases |gs|
  {
    if |gs| > 1 {
      LastOfFlatten(gs[1..]);
    }
  }

  /** The rows whose key is `k`, in their original order: the reference for
      what a bucket must hold. */
  function WithKey<T>(xs: seq<T>, key: T -> int, k: int): (r: seq<T>)
    ensures |r| <= |xs|
    ensures forall j :: 0 <= j < |r| ==> key(r[j]) == k
    decreases |xs|
  {
    if |xs| == 0 then []
    else (if key(xs[0]) == k then [xs[0]] else []) + WithKey(xs[1..], key, k)
  }

  lemma {:induction false} WithKeyAppend<T>(a: seq<T>, b: seq<T>, key: T -> int, k: int)
    ensures WithKey(a + b, key, k) == WithKey(a, key, k) + WithKey(b, key, k)
    decreases |a|
  {
    if |a| == 0 {
      assert a + b == b;
    } else {
      assert (a + b)[1..] == a[1..] + b;
      WithKeyAppend(a[1..], b, key, k);
    }
  }

  /** A group whose rows all have key `c` is kept whole by the filter for `c`
      and dropped entirely by any other. */
  lemma {:induction false} WithKeyUniform<T>(g: seq<T>, key: T -> int, c: int, k: int)
    requires forall j :: 0 <= j < |g| ==> key(g[j]) == c
    ensures WithKey(g, key, k) == if c == k then g else []
    decreases |g|
  {
    if |g| > 0 {
      WithKeyUniform(g[1..], key, c, k);
      assert [g[0]] + g[1..] == g;
    }
  }

  /** In a concatenation of groups with pairwise different keys `ks`, the
      rows with key `k` are exactly the group labelled `k`, or nothing when
      no group is. */
  lemma {:induction false} PickGroup<T>(gs: seq<seq<T>>, ks: seq<int>, key: T -> int, k: int)
    requires |gs| == |ks|
    requires forall i, j :: 0 <= i < |gs| && 0 <= j < |gs[i]| ==> key(gs[i][j]) == ks[i]
    requires forall i, j :: 0 <= i < j < |ks| ==> ks[i] != ks[j]
    ensures forall i :: 0 <= i < |ks| && ks[i] == k ==> WithKey(Flatten(gs), key, k) == gs[i]
    ensures (forall i :: 0 <= i < |ks| ==> ks[i] != k) ==> WithKey(Flatten(gs), key, k) == []
    decreases |gs|
  {
    if |gs| > 0 {
      PickGroup(gs[1..], ks[1..], key, k);
      WithKeyAppend(gs[0], Flatten(gs[1..]), key, k);
      WithKeyUniform(gs[0], key, ks[0], k);
      if ks[0] == k {
        assert forall i :: 0 <= i < |ks[1..]| ==> ks[1..][i] != k by {
          forall i | 0 <= i < |ks[1..]| ensures ks[1..][i] != k {
            assert ks[1..][i] == ks[i + 1];
          }
        }
      } else {
        forall i | 0 <= i < |ks| && ks[i] == k
          ensures WithKey(Flatten(gs), key, k) == gs[i]
        {
          assert i > 0 && ks[1..][i - 1] == k && gs[1..][i - 1] == gs[i];
        }
      }
    }
  }

  /** Strictly increasing neighbours give pairwise different keys. */
  lemma {:induction false} AscendingDistinct(ks: seq<int>)
    requires forall i :: 0 <= i < |ks| - 1 ==> ks[i] < ks[i + 1]
    ensures forall i, j :: 0 <= i < j < |ks| ==> ks[i] < ks[j]
    decreases |ks|
  {
    if |ks| > 1 {
      AscendingDistinct(ks[1..]);
      forall i, j | 0 <= i < j < |ks| ensures ks[i] < ks[j] {
        if i > 0 {
          assert ks[1..][i - 1] < ks[1..][j - 1];
        } else if j > 1 {
          assert ks[1..][0] < ks[1..][j - 1];
        }
      }
    }
  }

  /** Smallest key of a non-empty sequence. */
  function MinKey<T>(xs: seq<T>, key: T -> int): (m: int)
    requires |xs| > 0
    ensures forall j :: 0 <= j < |xs| ==> m <= key(xs[j])
    ensures exists j :: 0 <= j < |xs| && key(xs[j]) == m
    decreases |xs|
  {
    if |xs| == 1 then key(xs[0])
    else
      var m := MinKey(xs[1..], key);
      assert forall j :: 1 <= j < |xs| ==> m <= key(xs[j]) by {
        forall j | 1 <= j < |xs| ensures m <= key(xs[j]) { assert xs[j] == xs[1..][j - 1]; }
      }
      var j :| 0 <= j < |xs[1..]| && key(xs[1..][j]) == m;
      assert key(xs[j + 1]) == m;
      if key(xs[0]) <= m then key(xs[0]) else m
  }

  /** Largest key of a non-empty sequence. */
  function MaxKey<T>(xs: seq<T>, key: T -> int): (m: int)
    requires |xs| > 0
    ensures forall j :: 0 <= j < |xs| ==> key(xs[j]) <= m
    ensures exists j :: 0 <= j < |xs| && key(xs[j]) == m
    decreases |xs|
  {
    if |xs| == 1 then key(xs[0])
    else
      var m := MaxKey(xs[1..], key);
      assert forall j :: 1 <= j < |xs| ==> key(xs[j]) <= m by {
        forall j | 1 <= j < |xs| ensures key(xs[j]) <= m { assert xs[j] == xs[1..][j - 1]; }
      }
      var j :| 0 <= j < |xs[1..]| && key(xs[1..][j]) == m;
      assert key(xs[j + 1]) == m;
      if key(xs[0]) >= m then key(xs[0]) else m
  }

  /** Pandas `resample` bins over rows in any order: one bucket for every key
      from the smallest to the largest, each holding the rows with that key in
      their original order. The first and the last bucket are occupied. */
  function Bins<T>(xs: seq<T>, key: T -> int): (r: seq<Slot<T>>)
    ensures |xs| == 0 <==> |r| == 0
    ensures |xs| > 0 ==> |r| == MaxKey(xs, key) - MinKey(xs, key) + 1
    ensures forall i :: 0 <= i < |r| ==> r[i].key == MinKey(xs, key) + i
    ensures forall i :: 0 <= i < |r| ==> r[i].members == WithKey(xs, key, r[i].key)
    ensures |r| > 0 ==> |r[0].members| > 0 && |r[|r| - 1].members| > 0
  {
    if |xs| == 0 then []
    else
      var lo := MinKey(xs, key);
      var hi := MaxKey(xs, key);
      var r := seq(hi - lo + 1, i => Slot(lo + i, WithKey(xs, key, lo + i)));
      WithKeyHit(xs, key, lo);
      WithKeyHit(xs, key, hi);
      r
  }

  /** A key some row has selects at least one row. */
  lemma {:induction false} WithKeyHit<T>(xs: seq<T>, key: T -> int, k: int)
    requires exists j :: 0 <= j < |xs| && key(xs[j]) == k
    ensures |WithKey(xs, key, k)| > 0
    decreases |xs|
  {
    if key(xs[0]) != k {
      var j :| 0 <= j < |xs| && key(xs[j]) == k;
      assert key(xs[1..][j - 1]) == k;
      WithKeyHit(xs[1..], key, k);
    }
  }

  /** For rows in time order the bins are the runs spread over consecutive
      keys: the order-free definition and the run-based one agree. */
  lemma BinsOfSorted<T>(xs: seq<T>, key: T -> int)
    requires SortedBy(xs, key)
    ensures Bins(xs, key) == Resample(xs, key)
  {
    if |xs| > 0 {
      SortedMin(xs, key);
      SortedMax(xs, key);
      var b := Resample(xs, key);
      forall i | 0 <= i < |b| ensures Bins(xs, key)[i] == b[i] {
        BinAt(xs, key, b, key(xs[0]), i);
      }
    }
  }

  lemma BinAt<T>(xs: seq<T>, key: T -> int, b: seq<Slot<T>>, lo: int, i: int)
    requires |xs| > 0 && MinKey(xs, key) == lo
    requires 0 <= i < |b| == |Bins(xs, key)|
    requires forall i :: 0 <= i < |b| ==> b[i].key == lo + i
    requires Flatten(Members(b)) == xs
    requires forall i, j :: 0 <= i < |b| && 0 <= j < |b[i].members| ==> key(b[i].members[j]) == b[i].key
    ensures Bins(xs, key)[i] == b[i]
  {
    SlotIsFilter(xs, key, b, lo, i);
    BinMatches(xs, key, b[i], lo, i);
  }

  lemma BinMatches<T>(xs: seq<T>, key: T -> int, s: Slot<T>, lo: int, i: int)
    requires |xs| > 0 && MinKey(xs, key) == lo
    requires 0 <= i < |Bins(xs, key)|
    requires s.key == lo + i
    requires s.members == WithKey(xs, key, lo + i)
    ensures Bins(xs, key)[i] == s
  {
    var b := Bins(xs, key);
    var k := b[i].key;
    assert k == lo + i;
    var m := WithKey(xs, key, k);
    assert b[i].members == m;
    SlotFields(b[i], k, m);
    SlotFields(s, s.key, s.members);
  }

  lemma SlotFields<T>(s: Slot<T>, k: int, m: seq<T>)
    requires s.key == k && s.members == m
    ensures s == Slot(k, m)
  {
  }

  /** A slot among slots with consecutive keys from `lo`, whose members carry
      the slot's key and flatten to the rows, holds exactly the rows of its key. */
  lemma SlotIsFilter<T>(xs: seq<T>, key: T -> int, b: seq<Slot<T>>, lo: int, i: int)
    requires 0 <= i < |b|
    requires forall i :: 0 <= i < |b| ==> b[i].key == lo + i
    requires Flatten(Members(b)) == xs
    requires forall i, j :: 0 <= i < |b| && 0 <= j < |b[i].members| ==> key(b[i].members[j]) == b[i].key
    ensures b[i].members == WithKey(xs, key, lo + i)
  {
    var ks := seq(|b|, i requires 0 <= i < |b| => b[i].key);
    PickGroup(Members(b), ks, key, lo + i);
  }

  /** The smallest key of sorted rows is the first row's. */
  lemma SortedMin<T>(xs: seq<T>, key: T -> int)
    requires |xs| > 0 && SortedBy(xs, key)
    ensures MinKey(xs, key) == key(xs[0])
  {
    var i :| 0 <= i < |xs| && key(xs[i]) == MinKey(xs, key);
    if i > 0 {
      assert key(xs[0]) <= key(xs[i]);
    }
  }

  /** The largest key of sorted rows is the last row's. */
  lemma SortedMax<T>(xs: seq<T>, key: T -> int)
    requires |xs| > 0 && SortedBy(xs, key)
    ensures MaxKey(xs, key) == key(xs[|xs| - 1])
  {
    var j :| 0 <= j < |xs| && key(xs[j]) == MaxKey(xs, key);
    if j < |xs| - 1 {
      assert key(xs[j]) <= key(xs[|xs| - 1]);
    }
  }

  /** A sequence whose `i`-th value is the sum over group `i` sums to the sum
      over all groups. */
  lemma {:induction false} SumPointwise<A, B>(r: seq<A>, gs: seq<seq<B>>, f: A -> int, g: B -> int)
    requires |r| == |gs|
    requires forall i :: 0 <= i < |r| ==> f(r[i]) == SumBy(gs[i], g)
    ensures SumBy(r, f) == SumOfGroups(gs, g)
    decreases |r|
  {
    if |r| > 0 {
      assert forall i :: 0 <= i < |r[1..]| ==> f(r[1..][i]) == SumBy(gs[1..][i], g) by {
        forall i | 0 <= i < |r[1..]| ensures f(r[1..][i]) == SumBy(gs[1..][i], g) {
          assert r[1..][i] == r[i + 1] && gs[1..][i] == gs[i + 1];
        }
      }
      SumPointwise(r[1..], gs[1..], f, g);
    }
  }
  /** Row `x` put into rows sorted by key, before the first row whose key is
      at least its own. */
  function Insert<T>(x: T, s: seq<T>, key: T -> int): (r: seq<T>)
    ensures |r| == |s| + 1
    decreases |s|
  {
    if |s| == 0 || key(x) <= key(s[0]) then [x] + s
    else [s[0]] + Insert(x, s[1..], key)
  }

  /** The stable sort pandas puts an unsorted index through before grouping
      it (a merge sort, so rows with equal keys keep their input order),
      written as an insertion sort. */
  function StableSort<T>(xs: seq<T>, key: T -> int): (r: seq<T>)
    ensures |r| == |xs|
    decreases |xs|
  {
    if |xs| == 0 then [] else Insert(xs[0], StableSort(xs[1..], key), key)
  }

  /** A row no later than the first goes in front. */
  lemma InsertFront<T>(x: T, s: seq<T>, key: T -> int)
    requires |s| == 0 || key(x) <= key(s[0])
    ensures Insert(x, s, key) == [x] + s
  {
  }

  /** A row later than the first goes into the rest. */
  lemma InsertPast<T>(x: T, s: seq<T>, key: T -> int)
    requires |s| > 0 && key(x) > key(s[0])
    ensures Insert(x, s, key) == [s[0]] + Insert(x, s[1..], key)
  {
  }

  /** Sorting a row followed by more rows puts the row into the sorted rest. */
  lemma StableSortCons<T>(x: T, s: seq<T>, key: T -> int)
    ensures StableSort([x] + s, key) == Insert(x, StableSort(s, key), key)
  {
    assert ([x] + s)[0] == x && ([x] + s)[1..] == s;
  }

  lemma {:induction false} InsertMultiset<T>(x: T, s: seq<T>, key: T -> int)
    ensures multiset(Insert(x, s, key)) == multiset(s) + multiset{x}
    decreases |s|
  {
    if |s| > 0 && key(x) > key(s[0]) {
      InsertMultiset(x, s[1..], key);
      assert s == [s[0]] + s[1..];
    }
  }

  /** A row no later than any row of a sorted sequence can be put in front. */
  lemma ConsSorted<T>(a: T, t: seq<T>, key: T -> int)
    requires SortedBy(t, key)
    requires forall y :: y in multiset(t) ==> key(a) <= key(y)
    ensures SortedBy([a] + t, key)
  {
    var r := [a] + t;
    forall i, j | 0 <= i < j < |r| ensures key(r[i]) <= key(r[j]) {
      if i == 0 {
        assert r[j] == t[j - 1] && t[j - 1] in multiset(t);
      } else {
        assert r[i] == t[i - 1] && r[j] == t[j - 1];
      }
    }
  }

  lemma {:induction false} InsertSorted<T>(x: T, s: seq<T>, key: T -> int)
    requires SortedBy(s, key)
    ensures SortedBy(Insert(x, s, key), key)
    decreases |s|
  {
    if |s| == 0 || key(x) <= key(s[0]) {
      forall y | y in multiset(s) ensures key(x) <= key(y) {
        var j :| 0 <= j < |s| && s[j] == y;
        assert key(s[0]) <= key(s[j]);
      }
      ConsSorted(x, s, key);
    } else {
      var t := Insert(x, s[1..], key);
      InsertSorted(x, s[1..], key);
      InsertMultiset(x, s[1..], key);
      forall y | y in multiset(t) ensures key(s[0]) <= key(y) {
        if y != x {
          assert y in multiset(s[1..]);
          var j :| 0 <= j < |s[1..]| && s[1..][j] == y;
          assert key(s[0]) <= key(s[j + 1]);
        }
      }
      ConsSorted(s[0], t, key);
    }
  }

  /** The sort orders the rows by key. */
  lemma {:induction false} StableSortSorted<T>(xs: seq<T>, key: T -> int)
    ensures SortedBy(StableSort(xs, key), key)
    decreases |xs|
  {
    if |xs| > 0 {
      StableSortSorted(xs[1..], key);
      InsertSorted(xs[0], StableSort(xs[1..], key), key);
    }
  }

  /** The sort is a permutation: it neither loses nor invents a row. */
  lemma {:induction false} StableSortPermutes<T>(xs: seq<T>, key: T -> int)
    ensures multiset(StableSort(xs, key)) == multiset(xs)
    decreases |xs|
  {
    if |xs| > 0 {
      StableSortPermutes(xs[1..], key);
      InsertMultiset(xs[0], StableSort(xs[1..], key), key);
      assert xs == [xs[0]] + xs[1..];
    }
  }

  lemma {:induction false} WithKeyInsert<T>(x: T, s: seq<T>, key: T -> int, k: int)
    ensures WithKey(Insert(x, s, key), key, k) == (if key(x) == k then [x] else []) + WithKey(s, key, k)
    decreases |s|
  {
    if |s| == 0 || key(x) <= key(s[0]) {
      assert ([x] + s)[1..] == s;
    } else {
      var t := Insert(x, s[1..], key);
      assert ([s[0]] + t)[1..] == t;
      WithKeyInsert(x, s[1..], key, k);
    }
  }

  /** The sort is stable: the rows of any one key keep their input order. */
  lemma {:induction false} StableSortStable<T>(xs: seq<T>, key: T -> int, k: int)
    ensures WithKey(StableSort(xs, key), key, k) == WithKey(xs, key, k)
    decreases |xs|
  {
    if |xs| > 0 {
      StableSortStable(xs[1..], key, k);
      WithKeyInsert(xs[0], StableSort(xs[1..], key), key, k);
    }
  }

  /** Rows already in key order are left as they are. */
  lemma {:induction false} StableSortOfSorted<T>(xs: seq<T>, key: T -> int)
    requires SortedBy(xs, key)
    ensures StableSort(xs, key) == xs
    decreases |xs|
  {
    if |xs| > 0 {
      assert SortedBy(xs[1..], key);
      StableSortOfSorted(xs[1..], key);
      assert [xs[0]] + xs[1..] == xs;
    }
  }

  lemma {:induction false} SumByInsert<T>(x: T, s: seq<T>, key: T -> int, f: T -> int)
    ensures SumBy(Insert(x, s, key), f) == f(x) + SumBy(s, f)
    decreases |s|
  {
    if |s| == 0 || key(x) <= key(s[0]) {
      assert ([x] + s)[1..] == s;
    } else {
      var t := Insert(x, s[1..], key);
      assert ([s[0]] + t)[1..] == t;
      SumByInsert(x, s[1..], key, f);
    }
  }

  /** Sorting does not change a sum over the rows. */
  lemma {:induction false} SumByStableSort<T>(xs: seq<T>, key: T -> int, f: T -> int)
    ensures SumBy(StableSort(xs, key), f) == SumBy(xs, f)
    decreases |xs|
  {
    if |xs| > 0 {
      SumByStableSort(xs[1..], key, f);
      SumByInsert(xs[0], StableSort(xs[1..], key), key, f);
    }
  }
  /** The sorted rows keep any property every input row has. */
  lemma StableSortKeeps<T>(xs: seq<T>, key: T -> int, P: T -> bool)
    requires forall j :: 0 <= j < |xs| ==> P(xs[j])
    ensures forall j :: 0 <= j < |StableSort(xs, key)| ==> P(StableSort(xs, key)[j])
  {
    StableSortPermutes(xs, key);
    var s := StableSort(xs, key);
    forall j | 0 <= j < |s| ensures P(s[j]) {
      assert s[j] in multiset(s);
      var k :| 0 <= k < |xs| && xs[k] == s[j];
    }
  }
}

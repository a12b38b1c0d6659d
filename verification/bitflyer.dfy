/** The bitFlyer trade downloader: `bf_search_id`, which finds the first
    execution after a target time by stepping back from the newest id and
    then halving the id range, the paging loop of `bf_get_trades`, and the
    path of its output file.

    The execution history endpoint is an oracle `page`: `page(b)` is the
    answer to `before=b`, executions with ids below `b`, newest first. */
module BitFlyer {
  import opened Wrappers
  import opened EpochTime
  import Text

  /** An execution: its id and its `exec_date` in microseconds. */
  datatype Exec = Exec(id: int, time: int)

  /** Ids strictly decreasing: newest first, no execution twice. */
  predicate Descending(p: seq<Exec>)
  {
    forall i, j :: 0 <= i < j < |p| ==> p[i].id > p[j].id
  }

  /** Ids strictly increasing: oldest first, no execution twice. */
  predicate Ascending(p: seq<Exec>)
  {
    forall i, j :: 0 <= i < j < |p| ==> p[i].id < p[j].id
  }

  /** A page for `before=b`: ids below `b`, newest first. */
  predicate BelowDescending(p: seq<Exec>, b: int)
  {
    && (forall i :: 0 <= i < |p| ==> p[i].id < b)
    && Descending(p)
  }

  /** The time of execution `id` as `bf_date_to_dt` reads it: the newest
      execution of the answer to `before=id + 1`. */
  function ExecTime(page: int -> seq<Exec>, id: int): int
    requires |page(id + 1)| > 0
  {
    page(id + 1)[0].time
  }

  /** What the endpoint guarantees about ids: pages below the requested id,
      newest first. */
  ghost predicate Paged(page: int -> seq<Exec>)
  {
    forall b :: BelowDescending(page(b), b)
  }

  /** What the endpoint guarantees about times: they never decrease with the
      id. */
  ghost predicate Chronological(page: int -> seq<Exec>)
  {
    forall x, y :: x <= y && |page(x + 1)| > 0 && |page(y + 1)| > 0 ==> ExecTime(page, x) <= ExecTime(page, y)
  }

  /** The executions of a page oldest first (`_response[::-1]`). */
  function Reverse<T>(p: seq<T>): (r: seq<T>)
    ensures |r| == |p|
    ensures forall i :: 0 <= i < |p| ==> r[i] == p[|p| - 1 - i]
  {
    seq(|p|, i requires 0 <= i < |p| => p[|p| - 1 - i])
  }

  /** The final scan of `bf_search_id`: the id of the first execution, in the
      given order, strictly after `target`, or `None` when there is none. */
  function FirstAfter(execs: seq<Exec>, target: int): (r: Option<int>)
    ensures r.None? <==> forall k :: 0 <= k < |execs| ==> execs[k].time <= target
    ensures r.Some? ==> exists k :: 0 <= k < |execs| && execs[k].id == r.value && target < execs[k].time
                                    && forall j :: 0 <= j < k ==> execs[j].time <= target
    decreases |execs|
  {
    if |execs| == 0 then None
    else if target < execs[0].time then Some(execs[0].id)
    else
      FirstAfter(execs[1..], target)
  }

  /** The default number of executions per hour `bf_search_id` assumes. */
  const DefaultCountId := 14000

  /** The id range `bf_search_id` narrows down, and what it returns. */
  datatype Search = Search(startId: int, endId: int, found: Option<int>)

  /** `hours = int((time.time() - target.timestamp()) / 3600) + 1`. */
  function HoursBack(nowMicros: int, target: int): int
  {
    TruncDiv(nowMicros - target, 3600 * MicrosPerSecond) + 1
  }

  /** The exchange has no execution with an id below `firstId`. */
  ghost predicate Begins(page: int -> seq<Exec>, firstId: int)
  {
    forall b :: b <= firstId ==> |page(b)| == 0
  }

  /** Every execution of the exchange is after `target`. */
  ghost predicate AllAfter(page: int -> seq<Exec>, target: int)
  {
    forall id :: |page(id + 1)| > 0 ==> ExecTime(page, id) > target
  }

  /** An id whose answer is not empty is at or after the first execution. */
  lemma AfterBeginning(page: int -> seq<Exec>, firstId: int, id: int)
    requires Begins(page, firstId) && |page(id + 1)| > 0
    ensures id >= firstId
  {
  }

  /** An execution not after `target` is a witness against `AllAfter`. */
  lemma NotAllAfter(page: int -> seq<Exec>, target: int, id: int)
    requires |page(id + 1)| > 0 && ExecTime(page, id) <= target
    ensures !AllAfter(page, target)
  {
  }

  /** Every id from `firstId` on has an execution: the answer to any
      `before` above it is not empty. */
  ghost predicate Answered(page: int -> seq<Exec>, firstId: int)
  {
    forall b :: b > firstId ==> |page(b)| > 0
  }

  /** The id `j` steps of `countId` back from `start`. */
  function StepBack(start: int, j: nat, countId: int): int
  {
    start - j * countId
  }

  /** Stepping back from `start` reaches, at or after the first execution,
      an id whose time is not after `target`. */
  ghost predicate Reachable(page: int -> seq<Exec>, firstId: int, start: int, countId: int, target: int)
  {
    exists j: nat :: && StepBack(start, j, countId) >= firstId
                     && |page(StepBack(start, j, countId) + 1)| > 0
                     && ExecTime(page, StepBack(start, j, countId)) <= target
  }

  /** More steps back give a smaller id. */
  lemma StepBackMono(start: int, i: nat, j: nat, countId: int)
    requires countId > 0
    ensures i <= j ==> StepBack(start, j, countId) <= StepBack(start, i, countId)
  {
    if i <= j {
      assert j * countId - i * countId == (j - i) * countId;
    }
  }

  /** The first guess of `bf_search_id`: `newest_id - hours * count_id`. */
  function Guess(newest: seq<Exec>, nowMicros: int, target: int, countId: int): int
    requires |newest| > 0
  {
    newest[0].id - HoursBack(nowMicros, target) * countId
  }

  /** The step-back loop of `bf_search_id`: from the first guess, step back
      by `count_id` until the id's time is not after the target. An empty
      answer raises `IndexError`; so does stepping back past the exchange's
      first execution `firstId` when every execution is after the target.
      That history has a beginning is what makes the loop end. Conversely,
      when every id from the first execution on is answered and stepping back
      reaches an execution not after the target, the loop finds one. */
  method StepBackFrom(page: int -> seq<Exec>, guess: int, target: int, countId: int, ghost firstId: int)
    returns (r: Result<int>)
    requires countId > 0
    requires Begins(page, firstId)
    ensures r.Ok? ==> r.value >= firstId && |page(r.value + 1)| > 0 && ExecTime(page, r.value) <= target
    ensures AllAfter(page, target) ==> r.Raised?
    ensures Answered(page, firstId) && Reachable(page, firstId, guess, countId, target) ==> r.Ok?
  {
    ghost var reach := Answered(page, firstId) && Reachable(page, firstId, guess, countId, target);
    ghost var j: nat := 0;
    if reach {
      j :| && StepBack(guess, j, countId) >= firstId
           && |page(StepBack(guess, j, countId) + 1)| > 0
           && ExecTime(page, StepBack(guess, j, countId)) <= target;
    }
    ghost var k: nat := 0;
    StepBackMono(guess, 0, j, countId);
    var startId := guess;
    if |page(startId + 1)| == 0 {
      return Raised("IndexError: list index out of range");
    }
    AfterBeginning(page, firstId, startId);
    while ExecTime(page, startId) > target
      invariant |page(startId + 1)| > 0
      invariant startId >= firstId
      invariant startId == StepBack(guess, k, countId)
      invariant reach ==> k <= j
      decreases startId - firstId
    {
      startId := startId - countId;
      k := k + 1;
      StepBackMono(guess, k, j, countId);
      if |page(startId + 1)| == 0 {
        return Raised("IndexError: list index out of range");
      }
      AfterBeginning(page, firstId, startId);
    }
    NotAllAfter(page, target, startId);
    return Ok(startId);
  }

  /** The halving loop of `bf_search_id`: while the range spans more than 500
      ids, look at the middle id (truncating division), keep the lower end not
      after the target and move the upper end only to ids whose time is not
      before it. An empty answer raises `IndexError`; it cannot happen when
      every id from the first execution on is answered. */
  method Narrow(page: int -> seq<Exec>, startId: int, endId: int, target: int, ghost firstId: int)
    returns (r: Result<(int, int)>)
    requires |page(startId + 1)| > 0 && ExecTime(page, startId) <= target
    ensures r.Ok? ==> |page(r.value.0 + 1)| > 0 && ExecTime(page, r.value.0) <= target
    ensures r.Ok? ==> r.value.1 - r.value.0 <= 500
    ensures r.Ok? ==> r.value.1 == endId || (|page(r.value.1 + 1)| > 0 && ExecTime(page, r.value.1) >= target)
    ensures startId >= firstId && Answered(page, firstId) ==> r.Ok?
  {
    var lo, hi := startId, endId;
    while hi - lo > 500
      invariant |page(lo + 1)| > 0 && ExecTime(page, lo) <= target
      invariant startId >= firstId ==> lo >= firstId
      invariant hi == endId || (|page(hi + 1)| > 0 && ExecTime(page, hi) >= target)
      decreases hi - lo
    {
      var mid := TruncDiv(lo + hi, 2);
      assert lo <= mid;
      if |page(mid + 1)| == 0 {
        return Raised("IndexError: list index out of range");
      }
      if ExecTime(page, mid) < target {
        lo := mid;
      } else {
        hi := mid;
      }
    }
    return Ok((lo, hi));
  }

  /** `bf_search_id(target, count_id)` against the newest executions `newest`
      and the `before` oracle: first guess `newest_id - hours * count_id`,
      the step-back loop, the halving loop, then a scan of the final page
      oldest first for the first execution strictly after the target. No
      newest execution raises `IndexError`, as does every execution being
      after the target. Conversely, when every id from the first execution on
      is answered and stepping back from the first guess reaches an execution
      not after the target, the search succeeds. */
  method SearchId(page: int -> seq<Exec>, newest: seq<Exec>, nowMicros: int, target: int, countId: int,
                  ghost firstId: int)
    returns (r: Result<Search>)
    requires Chronological(page)
    requires countId > 0
    requires Begins(page, firstId)
    ensures |newest| == 0 ==> r.Raised?
    ensures AllAfter(page, target) ==> r.Raised?
    ensures && |newest| > 0 && Answered(page, firstId)
            && Reachable(page, firstId, Guess(newest, nowMicros, target, countId), countId, target)
            ==> r.Ok?
    ensures r.Ok? ==> |page(r.value.startId + 1)| > 0 && ExecTime(page, r.value.startId) <= target
    ensures r.Ok? ==> r.value.endId - r.value.startId <= 500
    ensures r.Ok? ==> r.value.endId == newest[0].id
                      || (|page(r.value.endId + 1)| > 0 && ExecTime(page, r.value.endId) >= target)
    ensures r.Ok? ==> r.value.found == FirstAfter(Reverse(page(r.value.endId + 1)), target)
  {
    if |newest| == 0 {
      return Raised("IndexError: list index out of range");
    }
    var start := StepBackFrom(page, Guess(newest, nowMicros, target, countId), target, countId, firstId);
    if start.Raised? {
      return Raised(start.message);
    }
    var range := Narrow(page, start.value, newest[0].id, target, firstId);
    if range.Raised? {
      return Raised(range.message);
    }
    var (startId, endId) := range.value;
    var execs := Reverse(page(endId + 1));
    return Ok(Search(startId, endId, FirstAfter(execs, target)));
  }

  /** The paging loop of `bf_get_trades`: while `start_id <= end_id`, fetch
      `before=end_id`, move `end_id` to the oldest id of the answer and append
      the answer to `rows`. An empty answer raises `IndexError`. */
  function PageDown(page: int -> seq<Exec>, startId: int, endId: int, rows: seq<Exec>): (r: Result<seq<Exec>>)
    requires Paged(page)
    decreases endId - startId
  {
    if startId > endId then Ok(rows)
    else
      var temp := page(endId);
      if |temp| == 0 then Raised("IndexError: list index out of range")
      else
        assert temp[|temp| - 1].id < endId;
        PageDown(page, startId, temp[|temp| - 1].id, rows + temp)
  }

  /** `bf_get_trades` as written, from the two ids `bf_search_id` returned:
      the first answer (`before=end_id`, or the newest page `latest` when
      `end_id` is `None`) seeds the rows and the loop starts from its NEWEST
      id, then the rows are written oldest first. A `None` start id fails
      the comparison `start_id <= end_id`. */
  function GetTradesAsWritten(page: int -> seq<Exec>, latest: seq<Exec>, startId: Option<int>, endId: Option<int>)
    : Result<seq<Exec>>
    requires Paged(page)
  {
    var response := if endId.Some? then page(endId.value) else latest;
    if |response| == 0 then Raised("IndexError: list index out of range")
    else if startId.None? then Raised("TypeError: '<=' not supported between 'NoneType' and 'int'")
    else
      match PageDown(page, startId.value, response[0].id, response)
      case Ok(rows) => Ok(Reverse(rows))
      case Raised(m) => Raised(m)
  }

  /** `bf_get_trades` with the loop started from the OLDEST id of the first
      answer, so that the next request continues where the first stopped. */
  function GetTrades(page: int -> seq<Exec>, latest: seq<Exec>, startId: Option<int>, endId: Option<int>)
    : Result<seq<Exec>>
    requires Paged(page)
  {
    var response := if endId.Some? then page(endId.value) else latest;
    if |response| == 0 then Raised("IndexError: list index out of range")
    else if startId.None? then Raised("TypeError: '<=' not supported between 'NoneType' and 'int'")
    else
      match PageDown(page, startId.value, response[|response| - 1].id, response)
      case Ok(rows) => Ok(Reverse(rows))
      case Raised(m) => Raised(m)
  }

  /** Appending a page whose ids all lie below the last row keeps the rows
      newest first. */
  lemma AppendDescending(rows: seq<Exec>, temp: seq<Exec>, bound: int)
    requires Descending(rows) && BelowDescending(temp, bound)
    requires |rows| > 0 ==> rows[|rows| - 1].id >= bound
    ensures Descending(rows + temp)
  {
    forall i, j | 0 <= i < j < |rows + temp| ensures (rows + temp)[i].id > (rows + temp)[j].id {
      if j >= |rows| && i < |rows| {
        assert rows[i].id >= rows[|rows| - 1].id;
      }
    }
  }

  /** The loop only appends; every row it adds is newest first after the
      ones before it as long as the seed ends at the id it starts from; and
      once it has added anything, its oldest row lies below `startId`. */
  lemma {:induction false} PageDownFacts(page: int -> seq<Exec>, startId: int, endId: int, rows: seq<Exec>)
    requires Paged(page)
    requires Descending(rows)
    requires |rows| > 0 ==> rows[|rows| - 1].id >= endId
    ensures PageDown(page, startId, endId, rows).Ok? ==>
              var out := PageDown(page, startId, endId, rows).value;
              && Descending(out)
              && rows <= out
              && (|out| == |rows| <==> startId > endId)
              && (|out| > |rows| ==> out[|out| - 1].id < startId)
    decreases endId - startId
  {
    if startId <= endId {
      var temp := page(endId);
      if |temp| > 0 {
        assert BelowDescending(temp, endId);
        AppendDescending(rows, temp, endId);
        var next := temp[|temp| - 1].id;
        assert (rows + temp)[|rows + temp| - 1].id == next;
        PageDownFacts(page, startId, next, rows + temp);
        if PageDown(page, startId, next, rows + temp).Ok? {
          var out := PageDown(page, startId, next, rows + temp).value;
          assert rows <= rows + temp <= out;
        }
      }
    }
  }

  /** Reversing a newest-first sequence gives an oldest-first one. */
  lemma ReverseAscending(p: seq<Exec>)
    requires Descending(p)
    ensures Ascending(Reverse(p))
  {
  }

  /** The corrected download writes every execution at most once, oldest
      first, and when it paged at all it reached back below the start id. */
  lemma GetTradesUnique(page: int -> seq<Exec>, latest: seq<Exec>, startId: Option<int>, endId: Option<int>)
    requires Paged(page)
    requires Descending(latest)
    ensures GetTrades(page, latest, startId, endId).Ok? ==>
              var out := GetTrades(page, latest, startId, endId).value;
              var response := if endId.Some? then page(endId.value) else latest;
              && Ascending(out)
              && |out| >= |response| > 0
              && (|out| > |response| ==> out[0].id < startId.value)
  {
    var response := if endId.Some? then page(endId.value) else latest;
    if endId.Some? {
      assert BelowDescending(page(endId.value), endId.value);
    }
    DownloadOnce(page, latest, startId, endId, response);
  }

  /** What `GetTradesUnique` promises of the rows written from a first answer. */
  predicate WrittenOnce(out: seq<Exec>, response: seq<Exec>, startId: Option<int>)
  {
    && Ascending(out)
    && |out| >= |response| > 0
    && (|out| > |response| ==> startId.Some? && out[0].id < startId.value)
  }

  lemma DownloadOnce(page: int -> seq<Exec>, latest: seq<Exec>, startId: Option<int>, endId: Option<int>,
                     response: seq<Exec>)
    requires Paged(page)
    requires response == if endId.Some? then page(endId.value) else latest
    requires Descending(response)
    ensures GetTrades(page, latest, startId, endId).Ok? ==>
              WrittenOnce(GetTrades(page, latest, startId, endId).value, response, startId)
  {
    if |response| > 0 && startId.Some? {
      SeededPaging(page, startId.value, response);
    }
  }

  /** Paging down from the oldest id of a newest-first seed gives rows that,
      reversed, are oldest first and reach below `startId` once they grew. */
  lemma SeededPaging(page: int -> seq<Exec>, startId: int, seed: seq<Exec>)
    requires Paged(page)
    requires Descending(seed) && |seed| > 0
    ensures var pd := PageDown(page, startId, seed[|seed| - 1].id, seed);
            pd.Ok? ==> && Ascending(Reverse(pd.value))
                       && |pd.value| >= |seed|
                       && (|pd.value| > |seed| ==> Reverse(pd.value)[0].id < startId)
  {
    PageDownFacts(page, startId, seed[|seed| - 1].id, seed);
    var pd := PageDown(page, startId, seed[|seed| - 1].id, seed);
    if pd.Ok? {
      ReverseAscending(pd.value);
    }
  }

  /** A dense exchange: every id is an execution, two per page. */
  function Dense(b: int): seq<Exec>
  {
    [Exec(b - 1, 0), Exec(b - 2, 0)]
  }

  lemma DensePaged()
    ensures Paged(Dense)
  {
    forall b ensures BelowDescending(Dense(b), b) { }
  }

  /** As written, the first answer and the second overlap in all but one
      execution: from ids 7..10 the file holds execution 8 twice. */
  lemma GetTradesAsWrittenDuplicates()
    ensures Paged(Dense)
    ensures GetTradesAsWritten(Dense, [], Some(7), Some(10)) == Ok([Exec(5, 0), Exec(6, 0), Exec(7, 0), Exec(8, 0), Exec(8, 0), Exec(9, 0)])
    ensures GetTrades(Dense, [], Some(7), Some(10)) == Ok([Exec(6, 0), Exec(7, 0), Exec(8, 0), Exec(9, 0)])
  {
    DensePaged();
    var first := Dense(10);
    assert first[0].id == 9 && first[|first| - 1].id == 8;
    var asWritten := [Exec(9, 0), Exec(8, 0), Exec(8, 0), Exec(7, 0), Exec(6, 0), Exec(5, 0)];
    assert first + Dense(9) + Dense(7) == asWritten;
    assert PageDown(Dense, 7, 5, asWritten) == Ok(asWritten);
    assert PageDown(Dense, 7, 7, first + Dense(9)) == Ok(asWritten);
    assert PageDown(Dense, 7, 9, first) == Ok(asWritten);
    assert Reverse(asWritten) == [Exec(5, 0), Exec(6, 0), Exec(7, 0), Exec(8, 0), Exec(8, 0), Exec(9, 0)];
    var corrected := [Exec(9, 0), Exec(8, 0), Exec(7, 0), Exec(6, 0)];
    assert first + Dense(8) == corrected;
    assert PageDown(Dense, 7, 6, corrected) == Ok(corrected);
    assert PageDown(Dense, 7, 8, first) == Ok(corrected);
    assert Reverse(corrected) == [Exec(6, 0), Exec(7, 0), Exec(8, 0), Exec(9, 0)];
  }

  /** `./bitflyer/{symbol}/trades`, the directory used when none is given. */
  function DefaultOutputDir(symbol: string): string
  {
    "./bitflyer/" + symbol + "/trades"
  }

  /** At most the first `n` characters (`s[:n]`). */
  function Prefix(s: string, n: nat): string
  {
    if |s| <= n then s else s[..n]
  }

  /** `{st_date[:10]}_{end_date[:10]}.csv`, with the dates' `/` already
      replaced by `-`. */
  function TradesFileName(stDate: string, endDate: string): string
  {
    Prefix(Text.Replace(stDate, "/", "-"), 10) + "_" + Prefix(Text.Replace(endDate, "/", "-"), 10) + ".csv"
  }

  /** The CSV path `bf_get_trades` writes: `{output_dir}/{name}` with every
      `//` collapsed to `/`. */
  function OutputPath(outputDir: Option<string>, symbol: string, stDate: string, endDate: string): string
  {
    Text.Replace(outputDir.GetOr(DefaultOutputDir(symbol)) + "/" + TradesFileName(stDate, endDate), "//", "/")
  }

  /** The file name never holds a `/`, whatever the dates. */
  lemma FileNameFlat(stDate: string, endDate: string)
    ensures '/' !in TradesFileName(stDate, endDate)
  {
    Text.ReplaceRemovesChar(stDate, '/', "-");
    Text.ReplaceRemovesChar(endDate, '/', "-");
    var a := Text.Replace(stDate, "/", "-");
    var b := Text.Replace(endDate, "/", "-");
    assert forall c :: c in Prefix(a, 10) ==> c in a;
    assert forall c :: c in Prefix(b, 10) ==> c in b;
  }

  /** `"/" + name` for a name without `/` has no `//` to collapse. */
  lemma SlashNameUnchanged(name: string)
    requires '/' !in name
    ensures Text.Replace("/" + name, "//", "/") == "/" + name
  {
    Text.NoCharNoOccurrence(name, "//", '/');
    Text.ReplaceAbsent(name, "//", "/");
    if |name| > 0 {
      assert ("/" + name)[..2] != "//" by { assert ("/" + name)[..2][1] == name[0]; }
      assert ("/" + name)[1..] == name;
    }
  }

  /** Joining a directory without `//` and without a trailing `/` to a name
      without `/` leaves nothing to collapse. */
  lemma JoinPlain(dir: string, name: string)
    requires !Text.Occurs(dir, "//")
    requires |dir| > 0 ==> dir[|dir| - 1] != '/'
    requires '/' !in name
    ensures Text.Replace(dir + "/" + name, "//", "/") == dir + "/" + name
  {
    assert dir + "/" + name == dir + ("/" + name);
    Text.ReplaceAppend(dir, "/" + name, "//", "/");
    Text.ReplaceAbsent(dir, "//", "/");
    SlashNameUnchanged(name);
  }

  /** With one trailing `/` on such a directory the doubled slash is
      collapsed. */
  lemma JoinTrailingSlash(dir: string, name: string)
    requires !Text.Occurs(dir, "//")
    requires |dir| > 0 && dir[|dir| - 1] != '/'
    requires '/' !in name
    ensures Text.Replace(dir + "/" + "/" + name, "//", "/") == dir + "/" + name
  {
    var whole := dir + "/" + "/" + name;
    assert whole == dir + ("//" + name) by {
      Regroup(dir + "/", "/", name);
      Regroup(dir, "/", "/" + name);
      assert "/" + ("/" + name) == "//" + name;
    }
    DoubleSlashName(name);
    JoinParts(dir, "//" + name, "/" + name);
    Regroup(dir, "/", name);
  }

  lemma Regroup(a: string, b: string, c: string)
    ensures a + b + c == a + (b + c)
  {
  }

  /** Collapsing a directory without `//` and a tail that collapses to
      `rest` gives the directory followed by `rest`. */
  lemma JoinParts(dir: string, tail: string, rest: string)
    requires !Text.Occurs(dir, "//")
    requires |dir| > 0 && dir[|dir| - 1] != '/'
    requires Text.Replace(tail, "//", "/") == rest
    ensures Text.Replace(dir + tail, "//", "/") == dir + rest
  {
    Text.ReplaceAppend(dir, tail, "//", "/");
    Text.ReplaceAbsent(dir, "//", "/");
  }

  /** `"//" + name` for a name without `/` collapses to `"/" + name`. */
  lemma DoubleSlashName(name: string)
    requires '/' !in name
    ensures Text.Replace("//" + name, "//", "/") == "/" + name
  {
    var s := "//" + name;
    assert s[..2] == "//";
    assert s[2..] == name;
    Text.NoCharNoOccurrence(name, "//", '/');
    Text.ReplaceAbsent(name, "//", "/");
  }

  /** A directory without `//` and without a trailing `/` gets the file
      directly inside it, exactly as joined. */
  lemma OutputPathPlain(dir: string, symbol: string, stDate: string, endDate: string)
    requires !Text.Occurs(dir, "//")
    requires |dir| > 0 ==> dir[|dir| - 1] != '/'
    ensures OutputPath(Some(dir), symbol, stDate, endDate) == dir + "/" + TradesFileName(stDate, endDate)
  {
    FileNameFlat(stDate, endDate);
    JoinPlain(dir, TradesFileName(stDate, endDate));
  }

  /** A directory given with one trailing `/` gives the same path as without
      it: the doubled slash is collapsed. */
  lemma OutputPathTrailingSlash(dir: string, symbol: string, stDate: string, endDate: string)
    requires |dir| > 0 && dir[|dir| - 1] != '/' && !Text.Occurs(dir, "//")
    ensures OutputPath(Some(dir + "/"), symbol, stDate, endDate) == OutputPath(Some(dir), symbol, stDate, endDate)
  {
    FileNameFlat(stDate, endDate);
    JoinTrailingSlash(dir, TradesFileName(stDate, endDate));
    OutputPathPlain(dir, symbol, stDate, endDate);
  }

  /** The default directory holds no `//` when the symbol holds no `/`. */
  lemma DefaultDirFlat(symbol: string)
    requires |symbol| > 0 && '/' !in symbol
    ensures !Text.Occurs(DefaultOutputDir(symbol), "//")
  {
    var dir := DefaultOutputDir(symbol);
    forall i | 0 <= i < |dir| - 1 ensures !(dir[i] == '/' && dir[i + 1] == '/') {
      if i < 10 {
        assert dir[..11] == "./bitflyer/";
      } else if i < 10 + |symbol| {
        assert dir[i + 1] == symbol[i + 1 - 11];
      } else {
        assert dir[11 + |symbol|..] == "/trades";
      }
    }
    Text.NoDoubledChar(dir, '/');
  }

  /** The default directory ends in `/trades/` followed by the file name
      whenever the symbol is non-empty and holds no `/`. */
  lemma DefaultOutputPath(symbol: string, stDate: string, endDate: string)
    requires |symbol| > 0 && '/' !in symbol
    ensures OutputPath(None, symbol, stDate, endDate) == "./bitflyer/" + symbol + "/trades/" + TradesFileName(stDate, endDate)
  {
    DefaultDirFlat(symbol);
    OutputPathPlain(DefaultOutputDir(symbol), symbol, stDate, endDate);
  }
}

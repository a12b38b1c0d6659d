/** Order payloads and the retry policy of the two exchange wrappers:
    GMO's `replace_order` and FTX's `create_order` decide the endpoint and
    the fields of an order request; every private call is retried until the
    exchange reports success, at most 60 times; `historical` makes a single
    attempt. Requests and replies are values: the HTTP client is left out. */
module Orders {
  import opened Wrappers

  /** A field value of a request body. `Shown(x)` is Python's `str(x)` of a
      number or of `None`; `Number(x)` is the number itself (`float(x)`). */
  datatype Value =
    | Text(s: string)
    | Number(n: int)
    | Shown(x: Option<int>)
    | Null
    | SettlePosition(positionId: Option<int>, size: Value)

  /** The endpoint (`None` when no branch set one) and the body. */
  datatype Request = Request(url: Option<string>, data: map<string, Value>)

  // ---------------------------------------------------------------- GMO

  const GmoOrder := "/private/v1/order"
  const GmoCloseOrder := "/private/v1/closeOrder"
  const GmoCloseBulkOrder := "/private/v1/closeBulkOrder"

  /** The three fields every GMO order carries. */
  function GmoBase(symbol: string, side: string, executionType: string): map<string, Value>
  {
    map["symbol" := Text(symbol), "side" := Text(side), "executionType" := Text(executionType)]
  }

  /** `price` as a string for the order types that take one. */
  function WithGmoPrice(data: map<string, Value>, executionType: string, price: Option<int>): map<string, Value>
  {
    if executionType == "LIMIT" || executionType == "STOP" then data["price" := Shown(price)] else data
  }

  /** `replace_order` as written. `createOrder` is Python's `True`, `False`
      or `None`; the first test is its truthiness and the second its
      falsiness, so together they cover every value and the
      `closeBulkOrder` branch after them is never taken. */
  function GmoReplaceOrder(symbol: string, side: string, size: int, executionType: string, price: Option<int>,
                           createOrder: Option<bool>, positionId: Option<int>): (r: Request)
    ensures "symbol" in r.data && "side" in r.data && "executionType" in r.data
    ensures r.data["symbol"] == Text(symbol) && r.data["side"] == Text(side)
    ensures r.data["executionType"] == Text(executionType)
    ensures createOrder == Some(true) ==> r.url == Some(GmoOrder) && "size" in r.data && r.data["size"] == Shown(Some(size))
    ensures createOrder != Some(true) ==>
              && r.url == Some(GmoCloseOrder)
              && "settlePosition" in r.data
              && r.data["settlePosition"] == SettlePosition(positionId, Shown(Some(size)))
    ensures r.url != Some(GmoCloseBulkOrder)
    ensures "price" in r.data <==> executionType == "LIMIT" || executionType == "STOP"
    ensures "price" in r.data ==> r.data["price"] == Shown(price)
  {
    var base := GmoBase(symbol, side, executionType);
    var truthy := createOrder == Some(true);
    var routed :=
      if truthy then Request(Some(GmoOrder), base["size" := Shown(Some(size))])
      else if !truthy then Request(Some(GmoCloseOrder), base["settlePosition" := SettlePosition(positionId, Shown(Some(size)))])
      else Request(Some(GmoCloseBulkOrder), base["size" := Shown(Some(size))]);
    routed.(data := WithGmoPrice(routed.data, executionType, price))
  }

  /** `replace_order` as its three branches evidently intend: `True` opens
      a position, `False` settles the one named, and `None` (no argument)
      settles every position in bulk. */
  function GmoReplaceOrderIntended(symbol: string, side: string, size: int, executionType: string, price: Option<int>,
                                   createOrder: Option<bool>, positionId: Option<int>): (r: Request)
    ensures "symbol" in r.data && "side" in r.data && "executionType" in r.data
    ensures r.url == Some(GmoOrder) <==> createOrder == Some(true)
    ensures r.url == Some(GmoCloseOrder) <==> createOrder == Some(false)
    ensures r.url == Some(GmoCloseBulkOrder) <==> createOrder == None
    ensures createOrder == None ==> "size" in r.data && "settlePosition" !in r.data
    ensures "price" in r.data <==> executionType == "LIMIT" || executionType == "STOP"
  {
    var base := GmoBase(symbol, side, executionType);
    var routed :=
      match createOrder
      case Some(true) => Request(Some(GmoOrder), base["size" := Shown(Some(size))])
      case Some(false) => Request(Some(GmoCloseOrder), base["settlePosition" := SettlePosition(positionId, Shown(Some(size)))])
      case None => Request(Some(GmoCloseBulkOrder), base["size" := Shown(Some(size))]);
    routed.(data := WithGmoPrice(routed.data, executionType, price))
  }

  /** The callers of `replace_order` and the arguments they pass. */
  datatype GmoCall =
    | OrderMarket(side: string, size: int)
    | OrderLimit(side: string, size: int, price: int)
    | SettleMarket(side: string, size: int, positionId: int)
    | SettleLimit(side: string, size: int, price: int, positionId: int)
    | CollectiveMarket(side: string, size: int)
    | CollectiveLimit(side: string, size: int, price: int)
  {
    predicate Collective() { CollectiveMarket? || CollectiveLimit? }

    function ExecutionType(): string
    {
      if OrderMarket? || SettleMarket? || CollectiveMarket? then "MARKET" else "LIMIT"
    }

    function Price(): Option<int>
    {
      if OrderLimit? || SettleLimit? || CollectiveLimit? then Some(price) else None
    }

    function CreateOrder(): Option<bool>
    {
      if OrderMarket? || OrderLimit? then Some(true)
      else if SettleMarket? || SettleLimit? then Some(false)
      else None
    }

    function PositionId(): Option<int>
    {
      if SettleMarket? || SettleLimit? then Some(positionId) else None
    }
  }

  /** The request a caller sends, with the intended routing. */
  function GmoCallRequest(symbol: string, call: GmoCall): Request
  {
    GmoReplaceOrderIntended(symbol, call.side, call.size, call.ExecutionType(), call.Price(), call.CreateOrder(),
                            call.PositionId())
  }

  /** Opening and settling one position route the same either way; only
      the collective settlements differ, and those go to the bulk endpoint. */
  lemma GmoCallRouting(symbol: string, call: GmoCall)
    ensures !call.Collective() ==>
              GmoCallRequest(symbol, call)
              == GmoReplaceOrder(symbol, call.side, call.size, call.ExecutionType(), call.Price(), call.CreateOrder(),
                                 call.PositionId())
    ensures call.Collective() <==> GmoCallRequest(symbol, call).url == Some(GmoCloseBulkOrder)
    ensures "price" in GmoCallRequest(symbol, call).data <==> call.ExecutionType() == "LIMIT"
  {
  }

  /** As written, the collective settlements reach `closeOrder` with a
      `positionId` of `None`. */
  lemma CollectiveSettlementAsWritten(symbol: string, side: string, size: int)
    ensures var r := GmoReplaceOrder(symbol, side, size, "MARKET", None, None, None);
            && r.url == Some(GmoCloseOrder)
            && "settlePosition" in r.data
            && r.data["settlePosition"].positionId == None
            && GmoCallRequest(symbol, CollectiveMarket(side, size)).url == Some(GmoCloseBulkOrder)
  {
  }

  // ---------------------------------------------------------------- FTX

  const FtxOrders := "/orders"
  const FtxConditional := "/conditional_orders"

  /** `create_order`. `float(None)` raises, so a limit or trailing-stop
      order without a price, or a stop without a stop price, fails before
      any request. An unknown order type leaves the endpoint unset. */
  function FtxCreateOrder(market: string, side: string, size: int, orderType: string, price: Option<int>,
                          stopPrice: Option<int>): (r: Result<Request>)
    ensures r.Raised? <==> (orderType in {"limit", "trailingStop"} && price.None?)
                           || (orderType in {"stop", "takeProfit"} && stopPrice.None?)
    ensures r.Ok? ==> && "market" in r.value.data && "side" in r.value.data
                      && "type" in r.value.data && "size" in r.value.data
                      && r.value.data["size"] == Number(size)
    ensures r.Ok? ==> (r.value.url == Some(FtxOrders) <==> orderType in {"limit", "market"})
    ensures r.Ok? ==> (r.value.url == Some(FtxConditional) <==> orderType in {"stop", "takeProfit", "trailingStop"})
    ensures r.Ok? && orderType == "limit" ==> "price" in r.value.data && r.value.data["price"] == Number(price.value)
    ensures r.Ok? && orderType == "market" ==> "price" in r.value.data && r.value.data["price"] == Null
    ensures r.Ok? && orderType in {"stop", "takeProfit"} ==>
              && "triggerPrice" in r.value.data
              && r.value.data["triggerPrice"] == Number(stopPrice.value)
              && ("orderPrice" in r.value.data <==> price.Some?)
    ensures r.Ok? && orderType == "trailingStop" ==> "trailValue" in r.value.data && r.value.data["trailValue"] == Number(price.value)
    ensures r.Ok? && orderType !in {"limit", "market", "stop", "takeProfit", "trailingStop"} ==>
              r.value.url == None && r.value.data.Keys == {"market", "side", "type", "size"}
  {
    var data := map["market" := Text(market), "side" := Text(side), "type" := Text(orderType), "size" := Number(size)];
    if orderType == "limit" then
      if price.None? then Raised("TypeError: float() argument must be a string or a number, not 'NoneType'")
      else Ok(Request(Some(FtxOrders), data["price" := Number(price.value)]))
    else if orderType == "market" then
      Ok(Request(Some(FtxOrders), data["price" := Null]))
    else if orderType == "stop" || orderType == "takeProfit" then
      if stopPrice.None? then Raised("TypeError: float() argument must be a string or a number, not 'NoneType'")
      else
        var withTrigger := data["triggerPrice" := Number(stopPrice.value)];
        Ok(Request(Some(FtxConditional), if price.Some? then withTrigger["orderPrice" := Number(price.value)] else withTrigger))
    else if orderType == "trailingStop" then
      if price.None? then Raised("TypeError: float() argument must be a string or a number, not 'NoneType'")
      else Ok(Request(Some(FtxConditional), data["trailValue" := Number(price.value)]))
    else
      Ok(Request(None, data))
  }

  // -------------------------------------------------------------- retries

  /** The number of failed attempts after which a wrapper gives up. */
  const MaxAttempts := 60

  /** One reply: GMO's `status == 0` or FTX's `success`, the payload, and
      `str(req)` as it would be sent in a notification. */
  datatype Reply<T> = Reply(success: bool, data: T, shown: string)

  /** What one failed or successful attempt leads to. */
  datatype Step<T> = Return(data: T) | Continue(count: nat) | GiveUp

  /** One pass of the loop body: return the data on success; otherwise
      count the failure and give up when the count reaches 60. */
  function Attempt<T>(count: nat, reply: Reply<T>): Step<T>
  {
    if reply.success then Return(reply.data)
    else if count + 1 == MaxAttempts then GiveUp
    else Continue(count + 1)
  }

  /** A retry wrapper (`order_market`, `account`, `cancel_order`, … in both
      exchanges): `reply(k)` is the answer to attempt `k`. It returns the
      data of the first successful reply, or, after 60 failures in a row,
      sends two notifications (the message and the last reply) and raises. */
  method Retry<T>(reply: nat -> Reply<T>, message: string) returns (r: Result<T>, attempts: nat, notices: seq<string>)
    ensures 1 <= attempts <= MaxAttempts
    ensures forall k :: 0 <= k < attempts - 1 ==> !reply(k).success
    ensures r.Ok? <==> reply(attempts - 1).success
    ensures r.Ok? ==> r.value == reply(attempts - 1).data && notices == []
    ensures r.Raised? ==> attempts == MaxAttempts && r.message == message
                          && notices == [message, reply(MaxAttempts - 1).shown]
  {
    var count: nat := 0;
    while true
      invariant count < MaxAttempts
      invariant forall k :: 0 <= k < count ==> !reply(k).success
      decreases MaxAttempts - count
    {
      var step := Attempt(count, reply(count));
      match step
      case Return(d) =>
        return Ok(d), count + 1, [];
      case GiveUp =>
        return Raised(message), count + 1, [message, reply(count).shown];
      case Continue(c) =>
        count := c;
    }
  }

  /** `historical`: one request; a failure bumps the count to 1, which is
      not 60, so the method falls off its end and returns `None` without
      notifying. */
  function Historical<T>(first: Reply<T>): (r: Option<T>)
    ensures r.Some? <==> first.success
    ensures r.Some? ==> r.value == first.data
  {
    match Attempt(0, first)
    case Return(d) => Some(d)
    case Continue(_) => None
    case GiveUp => None
  }
}

/** The coin handlers of internal/controller/http/v1/operation.go: POST /sendCoin and
    GET /buy/:item. Each is a function from the request (and, when the service is called,
    its answer) to the reply, together with the service call it makes, if any. */
module OperationRoutes {
  import opened Wrappers
  import opened ServiceErrs

  const StatusOK := 200
  const StatusBadRequest := 400
  const StatusInternalServerError := 500

  /** The JSON body of /sendCoin, once decoded. */
  datatype SendCoinRequest = SendCoinRequest(toUser: string, amount: int)

  /** A reply's JSON body: none, a fixed message, or the validator's failing fields. */
  datatype Body = NoBody | Message(text: string) | Invalid(fields: seq<string>)

  datatype Reply = Reply(status: int, body: Body)

  /** The service call a handler makes. */
  datatype Call = TransferCall(sender: string, recipient: string, amount: int) | PurchaseCall(username: string, item: string)

  /** A handler's reply and the call it made on the way, if any. */
  datatype Handled = Handled(reply: Reply, call: Option<Call>)

  /** The struct tags `required` on toUser and `required,gt=0` on amount: the fields that
      fail, in declaration order. */
  function FailingFields(req: SendCoinRequest): (r: seq<string>)
    ensures r == [] <==> req.toUser != "" && req.amount > 0
    ensures "ToUser" in r <==> req.toUser == ""
    ensures "Amount" in r <==> req.amount <= 0
  {
    (if req.toUser == "" then ["ToUser"] else []) + (if req.amount <= 0 then ["Amount"] else [])
  }

  /** /sendCoin: the authenticated name must be present, the body must decode and pass
      validation, and the recipient must differ from the sender; only then is the service
      called, and its answer is mapped to a status. */
  function SendCoin(username: Option<string>, body: Option<SendCoinRequest>, outcome: Option<ServiceErr>): (r: Handled)
    ensures r.call.Some? <==>
      username.Some? && body.Some? && FailingFields(body.value) == [] && username.value != body.value.toUser
    ensures r.call.Some? ==> r.call.value == TransferCall(username.value, body.value.toUser, body.value.amount)
    ensures r.call.Some? ==> body.value.amount > 0 && body.value.toUser != "" && body.value.toUser != username.value
    ensures r.call.None? ==> r.reply.status == StatusBadRequest
    ensures r.reply.status == StatusOK <==> r.call.Some? && outcome.None?
    ensures r.reply.status == StatusInternalServerError <==>
      (r.call.Some? && outcome.Some? && outcome != Some(RecipientNotFound) && outcome != Some(InsufficientFunds))
    ensures r.reply.status in {StatusOK, StatusBadRequest, StatusInternalServerError}
  {
    if username.None? then Handled(Reply(StatusBadRequest, Message("invalid request body")), None)
    else if body.None? then Handled(Reply(StatusBadRequest, Message("invalid request body")), None)
    else if FailingFields(body.value) != [] then Handled(Reply(StatusBadRequest, Invalid(FailingFields(body.value))), None)
    else if username.value == body.value.toUser then
      Handled(Reply(StatusBadRequest, Message("you cannot sent coins to yourself")), None)
    else
      var call := Some(TransferCall(username.value, body.value.toUser, body.value.amount));
      match outcome
      case None => Handled(Reply(StatusOK, NoBody), call)
      case Some(RecipientNotFound) => Handled(Reply(StatusBadRequest, Message("recipient not found")), call)
      case Some(InsufficientFunds) => Handled(Reply(StatusBadRequest, Message("insufficient funds")), call)
      case Some(_) => Handled(Reply(StatusInternalServerError, Message("internal error")), call)
  }

  /** /buy/:item: the authenticated name must be present and the item non-empty; the
      service's answer is mapped to a status, CustomerNotFound being an internal error. */
  function BuyProduct(username: Option<string>, item: string, outcome: Option<ServiceErr>): (r: Handled)
    ensures r.call.Some? <==> username.Some? && item != ""
    ensures r.call.Some? ==> r.call.value == PurchaseCall(username.value, item)
    ensures r.call.None? ==> r.reply.status == StatusBadRequest
    ensures r.reply.status == StatusOK <==> r.call.Some? && outcome.None?
    ensures r.reply.status == StatusInternalServerError <==>
      (r.call.Some? && outcome.Some? && outcome != Some(ProductNotFound) && outcome != Some(InsufficientFunds))
    ensures r.reply.status in {StatusOK, StatusBadRequest, StatusInternalServerError}
  {
    if username.None? then Handled(Reply(StatusBadRequest, Message("invalid request body")), None)
    else if item == "" then Handled(Reply(StatusBadRequest, Message("Item is required")), None)
    else
      var call := Some(PurchaseCall(username.value, item));
      match outcome
      case None => Handled(Reply(StatusOK, NoBody), call)
      case Some(InsufficientFunds) => Handled(Reply(StatusBadRequest, Message("insufficient funds")), call)
      case Some(ProductNotFound) => Handled(Reply(StatusBadRequest, Message("product not found")), call)
      case Some(_) => Handled(Reply(StatusInternalServerError, Message("internal error")), call)
  }

  // ---------------------------------------------------------------- lemmas

  /** Sending coins to oneself is refused with 400 before the service, whatever it would say. */
  lemma SelfTransferRefused(username: string, amount: int, outcome: Option<ServiceErr>)
    ensures SendCoin(Some(username), Some(SendCoinRequest(username, amount)), outcome).call.None?
    ensures SendCoin(Some(username), Some(SendCoinRequest(username, amount)), outcome).reply.status == StatusBadRequest
  {
  }

  /** A customer the service cannot find is a 500 on /buy, unlike a missing product. */
  lemma MissingCustomerIsInternal(username: string, item: string)
    requires item != ""
    ensures BuyProduct(Some(username), item, Some(CustomerNotFound)).reply == Reply(StatusInternalServerError, Message("internal error"))
    ensures BuyProduct(Some(username), item, Some(ProductNotFound)).reply == Reply(StatusBadRequest, Message("product not found"))
  {
  }

  /** The handler's decision before the call does not depend on the service's answer. */
  lemma CallIndependentOfOutcome(username: Option<string>, body: Option<SendCoinRequest>, item: string, a: Option<ServiceErr>, b: Option<ServiceErr>)
    ensures SendCoin(username, body, a).call == SendCoin(username, body, b).call
    ensures BuyProduct(username, item, a).call == BuyProduct(username, item, b).call
    ensures SendCoin(username, body, a).call.None? ==> SendCoin(username, body, a).reply == SendCoin(username, body, b).reply
    ensures BuyProduct(username, item, a).call.None? ==> BuyProduct(username, item, a).reply == BuyProduct(username, item, b).reply
  {
  }
}

/** A request served end to end: handler, service and repository together. */
module Endpoints {
  import opened Wrappers
  import opened DbCalls
  import opened ServiceErrs
  import opened Ledger
  import opened OperationRepository
  import opened UserService
  import opened OperationService
  import opened OperationRoutes

  /** POST /sendCoin against a store and a cache. */
  function ServeSendCoin(st: Store, cache: Cache, username: Option<string>, body: Option<SendCoinRequest>, faults: set<DbCall>, delFails: bool): (r: (Reply, Effect))
    ensures r.0.status != StatusOK ==> r.1.store == st
    ensures r.0.status == StatusOK <==>
      (SendCoin(username, body, None).call.Some? &&
       SaveTransfer(st, username.value, body.value.toUser, body.value.amount, faults).Ok?)
  {
    var probe := SendCoin(username, body, None);
    if probe.call.None? then (probe.reply, Effect(st, cache, None))
    else
      var effect := TransferFunds(st, cache, username.value, body.value.toUser, body.value.amount, faults, delFails);
      (SendCoin(username, body, effect.err).reply, effect)
  }

  /** GET /buy/:item over the purchase service as the source writes it. */
  function ServeBuyAsWritten(st: Store, cache: Cache, username: Option<string>, item: string, faults: set<DbCall>, delFails: bool): (r: (Reply, Effect))
    ensures r.0.status != StatusOK ==> r.1.store == st
  {
    var probe := BuyProduct(username, item, None);
    if probe.call.None? then (probe.reply, Effect(st, cache, None))
    else
      var effect := PurchaseProductAsWritten(st, cache, username.value, item, faults, delFails);
      (BuyProduct(username, item, effect.err).reply, effect)
  }

  /** GET /buy/:item over the intended purchase service. */
  function ServeBuy(st: Store, cache: Cache, username: Option<string>, item: string, faults: set<DbCall>, delFails: bool): (r: (Reply, Effect))
    ensures r.0.status != StatusOK ==> r.1.store == st
    ensures r.0.status == StatusOK <==> username.Some? && item != "" && SavePurchase(st, username.value, item, faults).Ok?
  {
    var probe := BuyProduct(username, item, None);
    if probe.call.None? then (probe.reply, Effect(st, cache, None))
    else
      var effect := PurchaseProduct(st, cache, username.value, item, faults, delFails);
      (BuyProduct(username, item, effect.err).reply, effect)
  }

  /** A 200 from /sendCoin means the sender paid exactly the amount to the recipient. */
  lemma SendCoinOkMovesCoins(st: Store, cache: Cache, username: string, body: SendCoinRequest, faults: set<DbCall>, delFails: bool)
    requires UniqueUsers(st.users)
    requires ServeSendCoin(st, cache, Some(username), Some(body), faults, delFails).0.status == StatusOK
    ensures var after := ServeSendCoin(st, cache, Some(username), Some(body), faults, delFails).1.store.users;
      BalanceOf(after, username) == Some(BalanceOf(st.users, username).value - body.amount) &&
      BalanceOf(after, body.toUser) == Some(BalanceOf(st.users, body.toUser).value + body.amount)
  {
    TransferMovesAmount(st, username, body.toUser, body.amount, faults, username);
  }

  /** As written, /buy answers 200 for a purchase the database never committed. */
  lemma BuyAnswersOkWithoutPurchase(st: Store, cache: Cache, username: string, item: string)
    requires item != ""
    ensures ServeBuyAsWritten(st, cache, Some(username), item, {Begin}, false).0 == Reply(StatusOK, NoBody)
    ensures ServeBuyAsWritten(st, cache, Some(username), item, {Begin}, false).1.store == st
    ensures ServeBuy(st, cache, Some(username), item, {Begin}, false).0 == Reply(StatusInternalServerError, Message("internal error"))
  {
  }
}

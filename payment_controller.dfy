/** `PaymentController.doPayment`: run the service's steps in order, stop at the first
    failure, settle only when the amount check answers true, and turn the outcome
    into a status and a body. */
module PaymentController {
  import opened Results
  import opened Decimal
  import opened UserAccounts
  import opened PaymentRequests
  import opened AccountStores
  import opened SameBankPaymentService

  datatype HttpStatus = HttpOk | PreconditionFailed | BadRequest

  function Code(s: HttpStatus): int {
    match s
    case HttpOk => 200
    case PreconditionFailed => 412
    case BadRequest => 400
  }

  datatype Response = Response(status: HttpStatus, body: string)

  const SuccessBody := "Transaction Successful!!"
  const InsufficientBalanceBody := "Insufficient account balance"

  /** The response for the amount check's answer; a failure's message is passed
      through unchanged. */
  function Respond(check: Result<bool>): (resp: Response)
    ensures check == Ok(true) <==> resp == Response(HttpOk, SuccessBody)
    ensures check == Ok(false) <==> resp == Response(PreconditionFailed, InsufficientBalanceBody)
    ensures check.Err? <==> resp.status == BadRequest
    ensures check.Err? ==> resp.body == check.message
    ensures Code(resp.status) == 200 <==> check == Ok(true)
    ensures Code(resp.status) == 412 <==> check == Ok(false)
    ensures Code(resp.status) == 400 <==> check.Err?
  {
    match check
    case Err(m) => Response(BadRequest, m)
    case Ok(enough) =>
      if enough then Response(HttpOk, SuccessBody)
      else Response(PreconditionFailed, InsufficientBalanceBody)
  }

  /** The request never reaches one of the unchecked Java exceptions, which the
      controller does not catch: a null transaction type or amount, a pay id shared
      by several rows, a null balance that gets compared or updated. Each condition
      matters only once the steps before it have succeeded. */
  ghost predicate DeclaredFailuresOnly(store: AccountStore, req: PaymentRequest)
    reads store, store.rows`accountNo, store.rows`payId, store.rows`accountBalance
  {
    var sender := FetchAndValidateSenderAccount(store, req);
    sender.Ok? ==>
      req.transactionType.Some? && ReceiverLookupDefined(store, req) &&
      (FetchAndValidateReceiverAccount(store, req).Ok? ==>
        req.transactionAmount.Some? &&
        (PositiveAmount(req.transactionAmount.value) ==> sender.value.accountBalance.Some?) &&
        (CheckIfAmountValid(req, sender.value) == Ok(true) ==>
          FetchAndValidateReceiverAccount(store, req).value.accountBalance.Some?))
  }

  /** The response `doPayment` gives for a request against the store's current state. */
  ghost function Outcome(store: AccountStore, req: PaymentRequest): (resp: Response)
    reads store, store.rows`accountNo, store.rows`payId, store.rows`accountBalance
    requires DeclaredFailuresOnly(store, req)
    ensures FetchAndValidateSenderAccount(store, req).Err? ==>
      resp == Response(BadRequest, FetchAndValidateSenderAccount(store, req).message)
    ensures FetchAndValidateSenderAccount(store, req).Ok? && FetchAndValidateReceiverAccount(store, req).Err? ==>
      resp == Response(BadRequest, FetchAndValidateReceiverAccount(store, req).message)
    ensures resp.status == HttpOk <==>
      FetchAndValidateSenderAccount(store, req).Ok? && FetchAndValidateReceiverAccount(store, req).Ok? &&
      PositiveAmount(req.transactionAmount.value) &&
      ParseDecimal(req.transactionAmount.value).value <= FetchAndValidateSenderAccount(store, req).value.accountBalance.value
    ensures resp.status == PreconditionFailed <==>
      FetchAndValidateSenderAccount(store, req).Ok? && FetchAndValidateReceiverAccount(store, req).Ok? &&
      PositiveAmount(req.transactionAmount.value) &&
      ParseDecimal(req.transactionAmount.value).value > FetchAndValidateSenderAccount(store, req).value.accountBalance.value
    ensures (FetchAndValidateSenderAccount(store, req).Ok? && FetchAndValidateReceiverAccount(store, req).Ok? &&
      !PositiveAmount(req.transactionAmount.value)) ==> resp == Response(BadRequest, InvalidAmountMessage)
    ensures resp.status == HttpOk ==> resp.body == SuccessBody
    ensures resp.status == PreconditionFailed ==> resp.body == InsufficientBalanceBody
  {
    match FetchAndValidateSenderAccount(store, req)
    case Err(m) => Response(BadRequest, m)
    case Ok(sender) =>
      match FetchAndValidateReceiverAccount(store, req)
      case Err(m) => Response(BadRequest, m)
      case Ok(_) => Respond(CheckIfAmountValid(req, sender))
  }

  /** `doPayment`. Settlement runs only on the success path; every other outcome
      leaves every balance and the save log as they were. Money is conserved across
      the store, and a successful transfer never leaves the sender negative. */
  method DoPayment(store: AccountStore, req: PaymentRequest) returns (resp: Response)
    requires store.Valid()
    requires DeclaredFailuresOnly(store, req)
    modifies store, store.rows`accountBalance
    ensures store.Valid() && store.rows == old(store.rows)
    ensures resp == old(Outcome(store, req))
    ensures resp.status != HttpOk ==>
      store.saves == old(store.saves) && Balances(store.rows) == old(Balances(store.rows))
    ensures resp.status == HttpOk ==>
      var sender := old(FetchAndValidateSenderAccount(store, req));
      var receiver := old(FetchAndValidateReceiverAccount(store, req));
      sender.Ok? && receiver.Ok? &&
      req.transactionAmount.Some? && ParseDecimal(req.transactionAmount.value).Some? &&
      var amount := ParseDecimal(req.transactionAmount.value).value;
      (sender.value != receiver.value ==>
        Debited(old(sender.value.accountBalance), sender.value.accountBalance, amount) &&
        Credited(old(receiver.value.accountBalance), receiver.value.accountBalance, amount)) &&
      (sender.value == receiver.value ==> sender.value.accountBalance == old(sender.value.accountBalance)) &&
      sender.value.accountBalance.Some? && sender.value.accountBalance.value >= 0.0 &&
      sender.value.accountNo.Some? && receiver.value.accountNo.Some? && old(sender.value.accountBalance).Some? &&
      store.saves == old(store.saves) + [
        SavedRow(sender.value.accountNo.value, Some(old(sender.value.accountBalance).value - amount)),
        SavedRow(receiver.value.accountNo.value, receiver.value.accountBalance)] &&
      forall k :: 0 <= k < |store.rows| && store.rows[k] != sender.value && store.rows[k] != receiver.value ==>
        store.rows[k].accountBalance == old(store.rows[k].accountBalance)
    ensures store.Total() == old(store.Total())
  {
    var sender := FetchAndValidateSenderAccount(store, req);
    if sender.Err? {
      return Response(BadRequest, sender.message);
    }
    var receiver := FetchAndValidateReceiverAccount(store, req);
    if receiver.Err? {
      return Response(BadRequest, receiver.message);
    }
    var check := CheckIfAmountValid(req, sender.value);
    if check.Err? {
      return Response(BadRequest, check.message);
    }
    if check.value {
      var from, to := sender.value, receiver.value;
      ghost var amount := ParseDecimal(req.transactionAmount.value).value;
      assert from == old(FetchAndValidateSenderAccount(store, req)).value;
      assert to == old(FetchAndValidateReceiverAccount(store, req)).value;
      ghost var fromBefore, toBefore := from.accountBalance.value, to.accountBalance.value;
      ProcessTransaction(store, req, from, to);
      assert from != to ==> Debited(Some(fromBefore), from.accountBalance, amount);
      assert from != to ==> Credited(Some(toBefore), to.accountBalance, amount);
      resp := Response(HttpOk, SuccessBody);
    } else {
      resp := Response(PreconditionFailed, InsufficientBalanceBody);
    }
  }
}

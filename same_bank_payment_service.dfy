/** The transfer logic of `SameBankPaymentService`: resolve the sender, resolve the
    receiver, check the amount, settle. Each failure is an Err carrying the fixed
    message the service throws. The store is passed in explicitly. */
module SameBankPaymentService {
  import opened Results
  import opened Decimal
  import opened TransactionTypes
  import opened UserAccounts
  import opened PaymentRequests
  import opened AccountStores

  const InvalidSenderMessage := "Invalid sender account information"
  const SenderNotRegisteredMessage := "Sender account not registered with bank"
  const InvalidReceiverMessage := "Invalid receiver account information"
  const InvalidAmountMessage := "Amount to be transferred is invalid"

  function ReceiverNotRegisteredMessage(t: TransactionType): string {
    "Receiver " + Name(t) + " not registered with bank"
  }

  /** `fetchAndValidateSenderAccount`: an empty or null account number is refused
      before the store is consulted; otherwise the account must be registered. */
  function FetchAndValidateSenderAccount(store: AccountStore, req: PaymentRequest): (r: Result<UserAccount>)
    reads store, store.rows`accountNo, store.rows`payId
    ensures IsEmpty(req.senderAccountNo) ==> r == Err(InvalidSenderMessage)
    ensures !IsEmpty(req.senderAccountNo) ==>
      (r.Ok? <==> store.Has(AccountNoKey(req.senderAccountNo.value)))
    ensures !IsEmpty(req.senderAccountNo) && r.Err? ==> r.message == SenderNotRegisteredMessage
    ensures r.Ok? ==> r.value in store.rows && r.value.accountNo == req.senderAccountNo
  {
    if IsEmpty(req.senderAccountNo) then
      Err(InvalidSenderMessage)
    else
      match store.FindByAccountNo(req.senderAccountNo.value)
      case None => Err(SenderNotRegisteredMessage)
      case Some(account) => Ok(account)
  }

  /** `getReceiverAccount`: the transaction type chooses the lookup. */
  function GetReceiverAccount(store: AccountStore, t: TransactionType, info: string): (r: Option<UserAccount>)
    reads store, store.rows`accountNo, store.rows`payId
    requires t == PayId ==> store.Unambiguous(PayIdKey(info))
    ensures t == BankAccount ==> (r.Some? <==> store.Has(AccountNoKey(info)))
    ensures t == PayId ==> (r.Some? <==> store.Has(PayIdKey(info)))
    ensures r.Some? ==> r.value in store.rows
    ensures r.Some? && t == BankAccount ==> r.value.accountNo == Some(info)
    ensures r.Some? && t == PayId ==> r.value.payId == Some(info)
  {
    match t
    case BankAccount => store.FindByAccountNo(info)
    case PayId => store.FindByPayId(info)
  }

  /** The pay-id lookup the request leads to, if any, finds at most one row. */
  ghost predicate ReceiverLookupDefined(store: AccountStore, req: PaymentRequest)
    reads store, store.rows`accountNo, store.rows`payId
    requires req.transactionType.Some?
  {
    (ParseTransactionType(req.transactionType.value) == Ok(PayId) && !IsEmpty(req.receiverAccountInfo)) ==>
      store.Unambiguous(PayIdKey(req.receiverAccountInfo.value))
  }

  /** `fetchAndValidateReceiverAccount`: the type is parsed first, then the receiver
      information must be non-empty, then the chosen lookup must find a row. */
  function FetchAndValidateReceiverAccount(store: AccountStore, req: PaymentRequest): (r: Result<UserAccount>)
    reads store, store.rows`accountNo, store.rows`payId
    requires req.transactionType.Some?
    requires ReceiverLookupDefined(store, req)
    ensures ParseTransactionType(req.transactionType.value).Err? ==>
      r == Err(UnknownTypeMessage(req.transactionType.value))
    ensures ParseTransactionType(req.transactionType.value).Ok? && IsEmpty(req.receiverAccountInfo) ==>
      r == Err(InvalidReceiverMessage)
    ensures ParseTransactionType(req.transactionType.value) == Ok(BankAccount) && !IsEmpty(req.receiverAccountInfo) ==>
      (r.Ok? <==> store.Has(AccountNoKey(req.receiverAccountInfo.value)))
    ensures ParseTransactionType(req.transactionType.value) == Ok(PayId) && !IsEmpty(req.receiverAccountInfo) ==>
      (r.Ok? <==> store.Has(PayIdKey(req.receiverAccountInfo.value)))
    ensures ParseTransactionType(req.transactionType.value).Ok? && !IsEmpty(req.receiverAccountInfo) && r.Err? ==>
      r.message == ReceiverNotRegisteredMessage(ParseTransactionType(req.transactionType.value).value)
    ensures r.Ok? ==> r.value in store.rows
    ensures r.Ok? && req.transactionType == Some("BANK_ACCOUNT") ==> r.value.accountNo == req.receiverAccountInfo
    ensures r.Ok? && req.transactionType == Some("PAY_ID") ==> r.value.payId == req.receiverAccountInfo
  {
    match ParseTransactionType(req.transactionType.value)
    case Err(m) => Err(m)
    case Ok(t) =>
      if IsEmpty(req.receiverAccountInfo) then
        Err(InvalidReceiverMessage)
      else
        match GetReceiverAccount(store, t, req.receiverAccountInfo.value)
        case None => Err(ReceiverNotRegisteredMessage(t))
        case Some(account) => Ok(account)
  }

  /** The amount text is a decimal literal with a strictly positive value. */
  predicate PositiveAmount(text: string) {
    ParseDecimal(text).Some? && ParseDecimal(text).value > 0.0
  }

  /** `hasEnoughBalance`: the debit would leave the balance non-negative. */
  function HasEnoughBalance(balance: real, amount: real): (r: bool)
    ensures r <==> balance - amount >= 0.0
  {
    balance >= amount
  }

  /** `checkIfAmountValid`: an unparseable, zero or negative amount is an error, and
      the balance is read only after that; otherwise the answer is whether the
      balance covers the amount, equality included. */
  function CheckIfAmountValid(req: PaymentRequest, sender: UserAccount): (r: Result<bool>)
    reads sender`accountBalance
    requires req.transactionAmount.Some?
    requires PositiveAmount(req.transactionAmount.value) ==> sender.accountBalance.Some?
    ensures r.Err? <==> ParseDecimal(req.transactionAmount.value).None? || ParseDecimal(req.transactionAmount.value).value <= 0.0
    ensures r.Err? ==> r.message == InvalidAmountMessage
    ensures r.Ok? ==> (r.value <==> ParseDecimal(req.transactionAmount.value).value <= sender.accountBalance.value)
  {
    match ParseDecimal(req.transactionAmount.value)
    case None => Err(InvalidAmountMessage)
    case Some(amount) =>
      if amount <= 0.0 then Err(InvalidAmountMessage)
      else Ok(HasEnoughBalance(sender.accountBalance.value, amount))
  }

  /** Text, a negative and a zero amount are refused with the amount message, on an
      account whose balance was never set: the balance is not read for them. */
  lemma InvalidAmountsBeforeBalance(req: PaymentRequest, acc: UserAccount)
    requires req.transactionAmount == Some("INVALID_AMOUNT") || req.transactionAmount == Some("-1") ||
      req.transactionAmount == Some("0")
    requires acc.accountBalance.None?
    ensures !PositiveAmount(req.transactionAmount.value) &&
      CheckIfAmountValid(req, acc) == Err(InvalidAmountMessage)
  {
    NonNumericSamples();
    MinusOneSample();
    ZeroSample();
  }

  /** For the amount "10", a balance equal to it is enough and one unit less is not. */
  lemma BalanceBoundary(req: PaymentRequest, acc: UserAccount)
    requires req.transactionAmount == Some("10") && acc.accountBalance.Some?
    ensures PositiveAmount(req.transactionAmount.value)
    ensures acc.accountBalance == Some(10.0) ==> CheckIfAmountValid(req, acc) == Ok(true)
    ensures acc.accountBalance == Some(9.0) ==> CheckIfAmountValid(req, acc) == Ok(false)
  {
    TenSample();
  }

  /** `processTransaction`: re-parse the amount, debit and save the sender, then
      credit and save the receiver. Nothing is checked here. When sender and
      receiver are one object its balance ends where it started, after two saves. */
  method ProcessTransaction(store: AccountStore, req: PaymentRequest, sender: UserAccount, receiver: UserAccount)
    requires store.Valid()
    requires req.transactionAmount.Some? && ParseDecimal(req.transactionAmount.value).Some?
    requires sender.accountBalance.Some? && receiver.accountBalance.Some?
    requires sender.accountNo.Some? && receiver.accountNo.Some?
    modifies store, sender`accountBalance, receiver`accountBalance
    ensures store.Valid()
    ensures sender in old(store.rows) && receiver in old(store.rows) ==> store.rows == old(store.rows)
    ensures Transferred(sender == receiver, old(sender.accountBalance), sender.accountBalance,
      old(receiver.accountBalance), receiver.accountBalance, ParseDecimal(req.transactionAmount.value).value)
    ensures var a := ParseDecimal(req.transactionAmount.value).value;
      store.saves == old(store.saves) + [
        SavedRow(sender.accountNo.value, Some(old(sender.accountBalance.value) - a)),
        SavedRow(receiver.accountNo.value, receiver.accountBalance)]
    ensures sender in old(store.rows) && receiver in old(store.rows) ==>
      store.Total() == old(store.Total()) &&
      forall k :: 0 <= k < |store.rows| && store.rows[k] != sender && store.rows[k] != receiver ==>
        store.rows[k].accountBalance == old(store.rows[k].accountBalance)
  {
    var amount := ParseDecimal(req.transactionAmount.value).value;
    ghost var senderBefore, receiverBefore := sender.accountBalance.value, receiver.accountBalance.value;
    SetBalanceAndSave(store, sender, sender.accountBalance.value - amount);
    SetBalanceAndSave(store, receiver, receiver.accountBalance.value + amount);
    assert receiver == sender ==> sender.accountBalance == Some(senderBefore - amount + amount);
  }

  /** One half of `processTransaction`: set an account's balance, then save it.
      For a stored account, the store's total moves by the change in its balance. */
  method SetBalanceAndSave(store: AccountStore, acc: UserAccount, balance: real)
    requires store.Valid() && acc.accountNo.Some?
    modifies store, acc`accountBalance
    ensures store.Valid()
    ensures acc.accountBalance == Some(balance)
    ensures acc in old(store.rows) ==> store.rows == old(store.rows)
    ensures store.saves == old(store.saves) + [SavedRow(acc.accountNo.value, Some(balance))]
    ensures acc in old(store.rows) ==>
      store.Total() == old(store.Total()) - BalanceOf(old(acc.accountBalance)) + balance
  {
    ghost var stored := acc in store.rows;
    ghost var i: nat := 0;
    ghost var before := Balances(store.rows);
    if stored {
      i :| i < |store.rows| && store.rows[i] == acc;
      OthersDiffer(store.rows, i);
      forall k | 0 <= k < |store.rows| ensures before[k] == store.rows[k].accountBalance {
        BalanceAt(store.rows, k);
      }
    }
    acc.SetAccountBalance(Some(balance));
    store.Save(acc);
    if stored {
      BalanceChangeTotal(store.rows, before, i, Some(balance));
    }
  }
}

/** The closed set of ways a receiver can be named, and the strict parse of the
    request's transaction-type text (`TransactionType.valueOf`). */
module TransactionTypes {
  import opened Results

  datatype TransactionType = BankAccount | PayId

  /** The enum constant's name, which is also what `toString` prints. */
  function Name(t: TransactionType): string {
    match t
    case BankAccount => "BANK_ACCOUNT"
    case PayId => "PAY_ID"
  }

  function UnknownTypeMessage(raw: string): string {
    "Unknown transaction type: " + raw
  }

  /** Exact, case-sensitive match against the constant names; anything else is an
      error whose message repeats the raw text. */
  function ParseTransactionType(raw: string): (r: Result<TransactionType>)
    ensures r.Ok? ==> Name(r.value) == raw
    ensures r.Err? ==> r.message == UnknownTypeMessage(raw)
  {
    if raw == "BANK_ACCOUNT" then Ok(BankAccount)
    else if raw == "PAY_ID" then Ok(PayId)
    else Err(UnknownTypeMessage(raw))
  }

  /** Every constant's name parses back to that constant. */
  lemma NameRoundTrip(t: TransactionType)
    ensures ParseTransactionType(Name(t)) == Ok(t)
  {
  }

  /** The parse accepts exactly the constant names. */
  lemma {:induction false} ParseAcceptsOnlyNames(raw: string)
    ensures ParseTransactionType(raw).Ok? <==> exists t :: Name(t) == raw
  {
    if ParseTransactionType(raw).Err? {
      forall t ensures Name(t) != raw {
        NameRoundTrip(t);
      }
    } else {
      assert Name(ParseTransactionType(raw).value) == raw;
    }
  }

  /** Case matters: lower-case spellings are unknown types. */
  lemma LowerCaseRejected()
    ensures ParseTransactionType("bank_account") == Err("Unknown transaction type: bank_account")
    ensures ParseTransactionType("pay_id") == Err("Unknown transaction type: pay_id")
  {
  }
}

/** The transfer request (`PaymentRequest`): four nullable strings, set once by a
    constructor and only read afterwards. As a datatype it is a value, so nothing
    can change it between the amount check and the settlement. The datatype's own
    constructor is the four-argument constructor and its destructors are the getters;
    neither checks anything. */
module PaymentRequests {
  import opened Results

  datatype PaymentRequest = PaymentRequest(
    senderAccountNo: Option<string>,
    transactionType: Option<string>,
    receiverAccountInfo: Option<string>,
    transactionAmount: Option<string>)

  /** The no-argument constructor: every field null. */
  function NoArgRequest(): (r: PaymentRequest)
    ensures r.senderAccountNo.None? && r.transactionType.None?
    ensures r.receiverAccountInfo.None? && r.transactionAmount.None?
  {
    PaymentRequest(None, None, None, None)
  }
}

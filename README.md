# Same-bank payments: a Dafny model of the transfer core

The repository is a small Spring service that moves money between two accounts of
the same bank. A `POST /transfer` request carries four strings:
- the sender's account number;
- a transaction type, `BANK_ACCOUNT` or `PAY_ID`;
- the receiver's account number or pay id;
- an amount.

`PaymentController.doPayment` calls four steps of `SameBankPaymentService` in order:
1. resolve the sender by account number;
2. parse the type strictly, then resolve the receiver by the lookup the type chooses;
3. check that the amount is an exact positive decimal and that the sender's balance
   covers it, with equality counting as covered;
4. settle: debit the sender and save it, then credit the receiver and save it.

Every failure is a `TransactionProcessingException` with a fixed message, and it
becomes a 400 response with that message. An uncovered amount gives 412
"Insufficient account balance". Success gives 200 "Transaction Successful!!".

Modules, one per source concept:
- `Results`: `Option` stands for a nullable Java reference and `Result` for a value
  or the exception's message. `IsEmpty` is log4j's `Strings.isEmpty`.
- `Decimal`: `new BigDecimal(String)` for plain literals, as an exact `real`, with a
  renderer as its inverse.
- `TransactionTypes`: the `TransactionType` enum and its strict `valueOf`.
  `TransactionType.java` is not part of this model. Its two constants and their names
  are taken from their uses in `SameBankPaymentService.java` and its tests.
- `UserAccounts`: the mutable `UserAccount` entity, a class with four fields and a
  setter each.
- `PaymentRequests`: the immutable `PaymentRequest`, a datatype.
- `AccountStores`: `UserAccountRepository`, as a class holding the managed account
  objects. A lookup returns the stored object itself. `save` is an upsert keyed by
  account number, and a ghost log records what each save wrote, in order.
- `SameBankPaymentService`: the fetch and validate steps as functions over the store.
  Settlement is a method that mutates the two accounts and the store.
- `PaymentController`: `DoPayment`, a method with the controller's early exits. It is
  specified by the ghost function `Outcome`.

What is proved about `doPayment`:
- The response is exactly the one the four steps determine.
- Every response other than success leaves every balance and the save log as they were.
- On success:
  - the sender is debited and the receiver is credited by the parsed amount;
  - when sender and receiver are the same object, its balance ends unchanged;
  - exactly two saves happen: first the sender with its debited balance, then the
    receiver with its final balance;
  - the sender's balance is not negative;
  - every other account keeps its balance.
- The store's total balance is the same before and after every call.

The emptiness checks on the sender and receiver fields call `Strings.isEmpty`, which
is true only for null and the zero-length string. A field of spaces passes the
emptiness check and goes on to the store lookup.

## Model

| member | source | states |
|---|---|---|
| TransactionTypes.ParseTransactionType | payments/src/main/java/com/test/app/payments/service/SameBankPaymentService.java:57-63 | an accepted text is exactly the name of the constant returned; a rejected one fails with "Unknown transaction type: " followed by the raw text |
| TransactionTypes.NameRoundTrip | payments/src/main/java/com/test/app/payments/service/SameBankPaymentService.java:57-59 | parsing a constant's name gives back that constant |
| TransactionTypes.ParseAcceptsOnlyNames | payments/src/main/java/com/test/app/payments/service/SameBankPaymentService.java:57-63 | the parse succeeds if and only if the text is the name of some constant |
| TransactionTypes.LowerCaseRejected | payments/src/main/java/com/test/app/payments/service/SameBankPaymentService.java:59-61 | matching is case-sensitive: "bank_account" and "pay_id" are unknown types |
| Decimal.ParseDecimal | payments/src/main/java/com/test/app/payments/service/SameBankPaymentService.java:78 | an accepted literal is non-empty; which texts are accepted, and the value of each accepted form, are stated by the lemmas below |
| Decimal.RenderRoundTrip | payments/src/main/java/com/test/app/payments/service/SameBankPaymentService.java:78 | parsing the plain literal of units / 10^scale gives exactly that value, for negative amounts too |
| Decimal.IntegerLiteral | payments/src/main/java/com/test/app/payments/service/SameBankPaymentService.java:78 | a string of digits parses to the integer it denotes |
| Decimal.NegativeLiteral | payments/src/main/java/com/test/app/payments/service/SameBankPaymentService.java:78-79 | a leading '-' negates the value of the unsigned literal after it |
| Decimal.PlusLiteral | payments/src/main/java/com/test/app/payments/service/SameBankPaymentService.java:78 | a leading '+' leaves the value of the unsigned literal after it unchanged |
| Decimal.PointLiteral | payments/src/main/java/com/test/app/payments/service/SameBankPaymentService.java:78 | a literal with a point, digits on either side and at least one digit in all ("1.", ".5", "1.50"), denotes its digits divided by ten to the number of digits after the point |
| Decimal.LiteralCharacters | payments/src/main/java/com/test/app/payments/service/SameBankPaymentService.java:77-85 | an accepted literal consists of digits and points, plus an optional leading sign |
| Decimal.LiteralShape | payments/src/main/java/com/test/app/payments/service/SameBankPaymentService.java:77-85 | an accepted literal has at most one point and at least one digit |
| Decimal.TwoPointsRefused | payments/src/main/java/com/test/app/payments/service/SameBankPaymentService.java:77-85 | text with two points, such as "1.2.3", is refused |
| Decimal.NoDigitRefused | payments/src/main/java/com/test/app/payments/service/SameBankPaymentService.java:77-85 | text without a digit, such as ".", "-" or "+", is refused |
| Decimal.NonNumericSamples | payments/src/test/java/com/test/app/payments/service/SameBankPaymentServiceTest.java:130-138 | "INVALID_AMOUNT" and the empty string are not decimal literals |
| Decimal.ZeroSample | payments/src/main/java/com/test/app/payments/service/SameBankPaymentService.java:79 | "0" parses to zero |
| Decimal.MinusOneSample | payments/src/test/java/com/test/app/payments/service/SameBankPaymentServiceTest.java:140-149 | "-1" parses to minus one |
| Decimal.TenSample | payments/src/test/java/com/test/app/payments/service/SameBankPaymentServiceTest.java:29 | the tests' amount "10" parses to ten |
| UserAccounts.UserAccount.constructor | payments/src/main/java/com/test/app/payments/model/UserAccount.java:11-20 | a fresh account has every field unset, the balance included |
| UserAccounts.UserAccount.SetAccountNo | payments/src/main/java/com/test/app/payments/model/UserAccount.java:22-28 | the account number becomes the argument; the other three fields are unchanged |
| UserAccounts.UserAccount.SetUserName | payments/src/main/java/com/test/app/payments/model/UserAccount.java:30-36 | the user name becomes the argument; the other three fields are unchanged |
| UserAccounts.UserAccount.SetPayId | payments/src/main/java/com/test/app/payments/model/UserAccount.java:38-44 | the pay id becomes the argument; the other three fields are unchanged |
| UserAccounts.UserAccount.SetAccountBalance | payments/src/main/java/com/test/app/payments/model/UserAccount.java:46-52 | the balance becomes the argument; account number, user name and pay id are unchanged |
| PaymentRequests.NoArgRequest | payments/src/main/java/com/test/app/payments/model/PaymentRequest.java:13-14 | the no-argument request has all four fields null |
| AccountStores.IndexOf | payments/src/main/java/com/test/app/payments/repository/UserAccountRepository.java:13-15 | returns the first row matching the key, or none when no row matches |
| AccountStores.AccountStore.constructor | payments/src/main/java/com/test/app/payments/repository/UserAccountRepository.java:10-11 | an empty store has unique keys and an empty save log |
| AccountStores.AccountStore.FindByAccountNo | payments/src/main/java/com/test/app/payments/repository/UserAccountRepository.java:13 | finds a stored row if and only if one has that account number, and returns that stored object |
| AccountStores.AccountStore.FindByPayId | payments/src/main/java/com/test/app/payments/repository/UserAccountRepository.java:15 | finds a stored row if and only if one has that pay id, and returns that stored object |
| AccountStores.AccountStore.Save | payments/src/main/java/com/test/app/payments/repository/UserAccountRepository.java:11 | upsert by account number: replaces the row with the same number, or appends; a stored object leaves the rows as they were; keys stay unique; the save is logged with the balance written |
| AccountStores.StoredOnce | payments/src/main/java/com/test/app/payments/model/UserAccount.java:13-14 | with unique keys, an account object sits at one position only |
| AccountStores.SameKey | payments/src/main/java/com/test/app/payments/model/UserAccount.java:13-14 | with unique keys, an account number sits at one position only |
| AccountStores.ReplaceKeepsUnique | payments/src/main/java/com/test/app/payments/model/UserAccount.java:13-14 | replacing a row by an account with the same number keeps the keys unique |
| AccountStores.AppendKeepsUnique | payments/src/main/java/com/test/app/payments/model/UserAccount.java:13-14 | appending an account with a new number keeps the keys unique |
| AccountStores.OthersDiffer | payments/src/main/java/com/test/app/payments/model/UserAccount.java:13-14 | with unique keys, the objects at other positions are not the object at a given position |
| AccountStores.SumUpdate | payments/src/main/java/com/test/app/payments/service/PaymentService.java:39-41 | changing one balance changes the total by exactly the difference |
| AccountStores.BalanceAt | payments/src/main/java/com/test/app/payments/service/PaymentService.java:39-41 | position k of the balance list is the balance of the row at k |
| AccountStores.BalanceChangeTotal | payments/src/main/java/com/test/app/payments/service/PaymentService.java:39-41 | when one row's balance changes and the others keep theirs, the store total moves by that row's difference |
| SameBankPaymentService.FetchAndValidateSenderAccount | payments/src/main/java/com/test/app/payments/service/SameBankPaymentService.java:29-40 | a null or empty number fails with "Invalid sender account information"; otherwise succeeds if and only if the number is registered, returning that stored account, and fails with "Sender account not registered with bank" if not |
| SameBankPaymentService.GetReceiverAccount | payments/src/main/java/com/test/app/payments/service/SameBankPaymentService.java:65-72 | BANK_ACCOUNT finds by account number and PAY_ID finds by pay id; each finds something if and only if a matching row exists |
| SameBankPaymentService.FetchAndValidateReceiverAccount | payments/src/main/java/com/test/app/payments/service/SameBankPaymentService.java:42-55 | the type is checked before the receiver field; an empty field fails with "Invalid receiver account information"; otherwise succeeds if and only if the chosen lookup finds a row, else fails with "Receiver <TYPE> not registered with bank" |
| SameBankPaymentService.HasEnoughBalance | payments/src/main/java/com/test/app/payments/service/SameBankPaymentService.java:88-90 | true if and only if the debit would leave the balance non-negative |
| SameBankPaymentService.CheckIfAmountValid | payments/src/main/java/com/test/app/payments/service/SameBankPaymentService.java:74-86 | fails with "Amount to be transferred is invalid" if and only if the amount is not a literal or is not positive; otherwise true if and only if amount <= balance |
| SameBankPaymentService.InvalidAmountsBeforeBalance | payments/src/test/java/com/test/app/payments/service/SameBankPaymentServiceTest.java:129-149 | for every request whose amount is "INVALID_AMOUNT", "-1" or "0", the amount is refused with the amount message on an account whose balance was never set |
| SameBankPaymentService.BalanceBoundary | payments/src/main/java/com/test/app/payments/service/SameBankPaymentService.java:82-90 | for every request whose amount is "10", a balance of 10 is enough and a balance of 9 is not |
| SameBankPaymentService.ProcessTransaction | payments/src/main/java/com/test/app/payments/service/SameBankPaymentService.java:92-100 | the sender is debited and the receiver credited by the parsed amount, or the balance is unchanged when they are one object; two saves are logged, the debited sender first; for stored accounts, the rows, the store total and every other balance are unchanged |
| SameBankPaymentService.SetBalanceAndSave | payments/src/main/java/com/test/app/payments/service/SameBankPaymentService.java:96-99 | sets one balance and saves the account; for a stored account, the store total moves by exactly the change |
| PaymentController.Respond | payments/src/main/java/com/test/app/payments/controller/PaymentController.java:36-43 | true gives 200 "Transaction Successful!!"; false gives 412 "Insufficient account balance"; a failure gives 400 with its message unchanged; each numeric code is given if and only if its case holds |
| PaymentController.Outcome | payments/src/main/java/com/test/app/payments/controller/PaymentController.java:32-45 | the first failing step decides a 400 with its message: the sender's, then the receiver's, then "Amount to be transferred is invalid" for an amount that is not a positive literal; the response is 200 "Transaction Successful!!" if and only if both accounts resolve and the positive amount is at most the sender's balance, and 412 "Insufficient account balance" if and only if it exceeds it |
| PaymentController.DoPayment | payments/src/main/java/com/test/app/payments/controller/PaymentController.java:32-45 | returns Outcome of the state before the call; a response other than 200 changes no balance and saves nothing; on 200, sender debited and receiver credited (or unchanged when they are one object), sender left non-negative, two saves logged in order (the sender with its debited balance, then the receiver with its final balance), other balances unchanged; the store total is always conserved |

## Left out

- Spring wiring, HTTP routing, JSON binding and the `/healthCheck` endpoint: these
  are framework plumbing. `DoPayment` returns a status and a body. `Code` gives the
  numeric status.
- JPA persistence: the database, transactions and durability are out of scope, and so
  is the window between the two saves in which a crash would leave the sender debited
  and the receiver not credited. The store is the set of managed objects of one
  request. Lookups return the stored object, as JPA's persistence context does.
- Concurrency: there is no locking in the source, and interleaved transfers are not
  modelled.
- Unchecked Java exceptions are preconditions, not modelled errors:
  - a null transaction type or amount;
  - a pay id shared by several rows, which a single-result derived query rejects;
  - a null balance that is compared, subtracted or added.

  `DeclaredFailuresOnly` gathers them, each only for the step that reaches it.
  `processTransaction` re-parses the amount without handling failure, so
  `ProcessTransaction` requires a parseable amount.
- Decimal.ParseDecimal: the model covers plain literals only: an optional sign,
  digits, and an optional point with more digits. Exponent forms such as "1E3" and
  non-ASCII digits, which `BigDecimal` also accepts, are rejected by the model.
  Scale is not kept, so "1.0" and "1.00" are one value, as they are under
  `compareTo`. Its own contract states only that accepted text is non-empty. The
  value of each accepted form is stated by a lemma:
  - digits only: `IntegerLiteral`;
  - digits with a point, either side possibly empty: `PointLiteral`;
  - a '-' or '+' sign in front of either: `NegativeLiteral` and `PlusLiteral`.

  In the other direction, `LiteralCharacters` and `LiteralShape` together say that
  an accepted literal is an optional sign followed by digits with at most one point,
  and at least one digit. `TwoPointsRefused` and `NoDigitRefused` state the
  refusals. `RenderRoundTrip` states that the parse inverts rendering.
- Decimal.IntegerLiteral: states the unsigned form only. Signed forms follow from
  `NegativeLiteral` and `PlusLiteral`.
- TransactionTypes.ParseTransactionType: `TransactionType.java` is not part of this
  model, so two facts about it are assumptions rather than read from its code:
  - the enum has exactly the two constants `BANK_ACCOUNT` and `PAY_ID`;
  - its `toString` prints the constant's name, which the not-registered message uses.

  With a third constant, `getReceiverAccount` would return null for it. That would
  give "Receiver <TYPE> not registered with bank", not the unknown-type error.
- SameBankPaymentService.ProcessTransaction: the unchanged rows, the conserved total
  and the untouched other balances are stated only for accounts already in the store,
  which is the only way `doPayment` calls it.
- The getters of `UserAccount` and `PaymentRequest` are field reads and datatype
  destructors. The four-argument `PaymentRequest` constructor is the datatype's
  constructor and validates nothing.
- The `PaymentService` interface has no code. Its doc comment on settlement is cited
  for the conservation lemmas.
- `TransactionProcessingException` is the `Err` arm of `Result`, because it carries
  only its message.
- The test harnesses (JUnit, Mockito, MockMvc) and the seed data they load are out of
  scope. Only the literal values the tests use appear, in the sample lemmas.

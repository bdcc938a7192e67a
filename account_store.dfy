/** The account repository (`UserAccountRepository`), modelled as the set of managed
    account objects it hands out. A lookup returns the stored object itself, so two
    lookups of the same row return the same object, and `save` is an upsert keyed by
    account number. A ghost log records what each save wrote, in order. */
module AccountStores {
  import opened Results
  import opened UserAccounts

  /** The two ways the service looks an account up. */
  datatype Key = AccountNoKey(no: string) | PayIdKey(id: string)

  predicate Matches(a: UserAccount, k: Key)
    reads a`accountNo, a`payId
  {
    match k
    case AccountNoKey(no) => a.accountNo == Some(no)
    case PayIdKey(id) => a.payId == Some(id)
  }

  /** Index of the first row that matches k. */
  function IndexOf(rows: seq<UserAccount>, k: Key): (r: Option<nat>)
    reads rows`accountNo, rows`payId
    ensures r.Some? ==> r.value < |rows| && Matches(rows[r.value], k)
    ensures r.Some? ==> forall i :: 0 <= i < r.value ==> !Matches(rows[i], k)
    ensures r.None? ==> forall i :: 0 <= i < |rows| ==> !Matches(rows[i], k)
  {
    if |rows| == 0 then None
    else if Matches(rows[0], k) then Some(0)
    else
      match IndexOf(rows[1..], k)
      case None => None
      case Some(i) => Some(i + 1)
  }

  /** The account number of the row at position i. */
  ghost function KeyAt(rows: seq<UserAccount>, i: nat): Option<string>
    requires i < |rows|
    reads rows`accountNo
  {
    rows[i].accountNo
  }

  /** Every row has an account number and no two rows share one (the primary key).
      The pairwise half fires only on explicit `KeyAt` terms, which keeps it out of
      proofs that do not ask about it. */
  ghost predicate UniqueKeys(rows: seq<UserAccount>)
    reads rows`accountNo
  {
    (forall i :: 0 <= i < |rows| ==> rows[i].accountNo.Some?) &&
    (forall i, j {:trigger KeyAt(rows, i), KeyAt(rows, j)} :: 0 <= i < j < |rows| ==> KeyAt(rows, i) != KeyAt(rows, j))
  }

  /** In a store with unique keys, each object sits at one index only. */
  lemma StoredOnce(rows: seq<UserAccount>, i: int, j: int)
    requires UniqueKeys(rows)
    requires 0 <= i < |rows| && 0 <= j < |rows| && rows[i] == rows[j]
    ensures i == j
  {
    SameKey(rows, i, j);
  }

  /** In a store with unique keys, an account number sits at one index only. */
  lemma SameKey(rows: seq<UserAccount>, i: int, j: int)
    requires UniqueKeys(rows)
    requires 0 <= i < |rows| && 0 <= j < |rows| && rows[i].accountNo == rows[j].accountNo
    ensures i == j
  {
    assert KeyAt(rows, i) == KeyAt(rows, j);
  }

  /** Replacing a row by an account with the same number keeps the keys unique. */
  lemma ReplaceKeepsUnique(rows: seq<UserAccount>, k: nat, acc: UserAccount)
    requires UniqueKeys(rows) && k < |rows| && rows[k].accountNo == acc.accountNo
    ensures UniqueKeys(rows[k := acc])
  {
    var r := rows[k := acc];
    forall i, j | 0 <= i < j < |r| ensures KeyAt(r, i) != KeyAt(r, j) {
      assert KeyAt(r, i) == KeyAt(rows, i) && KeyAt(r, j) == KeyAt(rows, j);
    }
  }

  /** Appending an account whose number no row has keeps the keys unique. */
  lemma AppendKeepsUnique(rows: seq<UserAccount>, acc: UserAccount)
    requires UniqueKeys(rows) && acc.accountNo.Some?
    requires forall i :: 0 <= i < |rows| ==> rows[i].accountNo != acc.accountNo
    ensures UniqueKeys(rows + [acc])
  {
    var r := rows + [acc];
    forall i, j | 0 <= i < j < |r| ensures KeyAt(r, i) != KeyAt(r, j) {
      if j < |rows| {
        assert KeyAt(r, i) == KeyAt(rows, i) && KeyAt(r, j) == KeyAt(rows, j);
      } else {
        assert r[i] == rows[i] && r[j] == acc;
      }
    }
  }

  /** In a store with unique keys, the objects at other positions differ from the
      one at `i`. */
  lemma OthersDiffer(rows: seq<UserAccount>, i: nat)
    requires UniqueKeys(rows) && i < |rows|
    ensures forall k :: 0 <= k < |rows| && k != i ==> rows[k] != rows[i]
  {
    forall k | 0 <= k < |rows| && k != i ensures rows[k] != rows[i] {
      if rows[k] == rows[i] {
        StoredOnce(rows, k, i);
      }
    }
  }

  /** A balance counted in a total: an unset balance counts as nothing. */
  function BalanceOf(b: Option<real>): real {
    if b.Some? then b.value else 0.0
  }

  /** Total money in a list of balances. */
  function Sum(bs: seq<Option<real>>): real {
    if |bs| == 0 then 0.0 else Sum(bs[..|bs| - 1]) + BalanceOf(bs[|bs| - 1])
  }

  /** Replacing one balance changes the total by exactly the difference. */
  lemma {:induction false} SumUpdate(bs: seq<Option<real>>, i: nat, b: Option<real>)
    requires i < |bs|
    ensures Sum(bs[i := b]) == Sum(bs) - BalanceOf(bs[i]) + BalanceOf(b)
  {
    var bs' := bs[i := b];
    var n := |bs| - 1;
    if i < n {
      assert bs'[..n] == bs[..n][i := b];
      SumUpdate(bs[..n], i, b);
    } else {
      assert bs'[..n] == bs[..n];
    }
  }

  /** A balance that was set and went down by exactly `amount`. */
  predicate Debited(before: Option<real>, after: Option<real>, amount: real) {
    before.Some? && after == Some(before.value - amount)
  }

  /** A balance that was set and went up by exactly `amount`. */
  predicate Credited(before: Option<real>, after: Option<real>, amount: real) {
    before.Some? && after == Some(before.value + amount)
  }

  /** The balance effect of a transfer of `amount`: the sender debited and the
      receiver credited, or, when they are one account, its balance unchanged. */
  predicate Transferred(same: bool, senderBefore: Option<real>, senderAfter: Option<real>,
                        receiverBefore: Option<real>, receiverAfter: Option<real>, amount: real)
  {
    if same then senderAfter == senderBefore
    else Debited(senderBefore, senderAfter, amount) && Credited(receiverBefore, receiverAfter, amount)
  }

  /** One balance changed, every other balance as in `before`: the total moves by
      the difference at that one position. */
  lemma BalanceChangeTotal(rows: seq<UserAccount>, before: seq<Option<real>>, i: nat, b: Option<real>)
    requires |before| == |rows| && i < |rows|
    requires forall k :: 0 <= k < |rows| && k != i ==> rows[k].accountBalance == before[k]
    requires rows[i].accountBalance == b
    ensures Sum(Balances(rows)) == Sum(before) - BalanceOf(before[i]) + BalanceOf(b)
  {
    var after := Balances(rows);
    forall k | 0 <= k < |rows| ensures after[k] == before[i := b][k] {
      BalanceAt(rows, k);
    }
    assert after == before[i := b];
    SumUpdate(before, i, b);
  }

  /** The balances of the given accounts, in order. */
  function Balances(rows: seq<UserAccount>): (bs: seq<Option<real>>)
    reads rows`accountBalance
    ensures |bs| == |rows|
  {
    if |rows| == 0 then [] else Balances(rows[..|rows| - 1]) + [rows[|rows| - 1].accountBalance]
  }

  /** Position k of `Balances` is the balance of the row at k. */
  lemma {:induction false} BalanceAt(rows: seq<UserAccount>, k: nat)
    requires k < |rows|
    ensures Balances(rows)[k] == rows[k].accountBalance
  {
    if k < |rows| - 1 {
      BalanceAt(rows[..|rows| - 1], k);
    }
  }

  /** What one call of `save` wrote. */
  datatype SavedRow = SavedRow(accountNo: string, balance: Option<real>)

  class AccountStore {
    var rows: seq<UserAccount>
    ghost var saves: seq<SavedRow>

    ghost predicate Valid()
      reads this, rows`accountNo
    {
      UniqueKeys(rows)
    }

    /** The money held in the store: the sum of all balances, unset ones counting
        as nothing. */
    ghost function Total(): real
      reads this, rows`accountBalance
    {
      Sum(Balances(rows))
    }

    /** Whether some row matches k. */
    ghost predicate Has(k: Key)
      reads this, rows`accountNo, rows`payId
    {
      exists i :: 0 <= i < |rows| && Matches(rows[i], k)
    }

    /** At most one row matches k. A derived single-result query that finds several
        rows fails with an unchecked exception, so the callers require this. */
    ghost predicate Unambiguous(k: Key)
      reads this, rows`accountNo, rows`payId
    {
      forall i, j :: 0 <= i < |rows| && 0 <= j < |rows| && Matches(rows[i], k) && Matches(rows[j], k) ==> i == j
    }

    constructor ()
      ensures Valid() && rows == [] && saves == []
    {
      rows, saves := [], [];
    }

    /** `findUserByAccountNo`: the row with that account number, or None (null). */
    function FindByAccountNo(no: string): (r: Option<UserAccount>)
      reads this, rows`accountNo, rows`payId
      ensures r.Some? <==> Has(AccountNoKey(no))
      ensures r.Some? ==> r.value in rows && r.value.accountNo == Some(no)
    {
      match IndexOf(rows, AccountNoKey(no))
      case None => None
      case Some(i) => Some(rows[i])
    }

    /** `findUserByPayId`: the row with that pay id, or None (null). */
    function FindByPayId(id: string): (r: Option<UserAccount>)
      reads this, rows`accountNo, rows`payId
      requires Unambiguous(PayIdKey(id))
      ensures r.Some? <==> Has(PayIdKey(id))
      ensures r.Some? ==> r.value in rows && r.value.payId == Some(id)
    {
      match IndexOf(rows, PayIdKey(id))
      case None => None
      case Some(i) => Some(rows[i])
    }

    /** `save`: an upsert by account number that writes the account's current state.
        The row with the same account number is replaced by acc (which changes nothing
        when acc is that row already); without such a row, acc is appended. */
    method Save(acc: UserAccount)
      requires Valid() && acc.accountNo.Some?
      modifies this
      ensures Valid()
      ensures forall i :: 0 <= i < |old(rows)| && old(rows)[i].accountNo == acc.accountNo ==>
        rows == old(rows)[i := acc]
      ensures !old(Has(AccountNoKey(acc.accountNo.value))) ==> rows == old(rows) + [acc]
      ensures acc in old(rows) ==> rows == old(rows)
      ensures saves == old(saves) + [SavedRow(acc.accountNo.value, acc.accountBalance)]
    {
      var k := IndexOf(rows, AccountNoKey(acc.accountNo.value));
      if k.Some? {
        forall i | 0 <= i < |rows| && rows[i].accountNo == acc.accountNo
          ensures i == k.value
        {
          SameKey(rows, i, k.value);
        }
        ReplaceKeepsUnique(rows, k.value, acc);
        rows := rows[k.value := acc];
      } else {
        AppendKeepsUnique(rows, acc);
        rows := rows + [acc];
      }
      saves := saves + [SavedRow(acc.accountNo.value, acc.accountBalance)];
    }
  }
}

/** The persisted account record (`UserAccount`): four nullable fields, each with a
    getter and a setter. The getters are the field reads themselves. */
module UserAccounts {
  import opened Results

  class UserAccount {
    /** The entity identifier, the store's primary key. */
    var accountNo: Option<string>
    var userName: Option<string>
    var payId: Option<string>
    /** An exact decimal; None until it is set. */
    var accountBalance: Option<real>

    /** A fresh account has every field unset. */
    constructor ()
      ensures accountNo == None && userName == None && payId == None && accountBalance == None
    {
      accountNo, userName, payId, accountBalance := None, None, None, None;
    }

    method SetAccountNo(no: Option<string>)
      modifies this`accountNo
      ensures accountNo == no
      ensures userName == old(userName) && payId == old(payId) && accountBalance == old(accountBalance)
    {
      accountNo := no;
    }

    method SetUserName(name: Option<string>)
      modifies this`userName
      ensures userName == name
      ensures accountNo == old(accountNo) && payId == old(payId) && accountBalance == old(accountBalance)
    {
      userName := name;
    }

    method SetPayId(id: Option<string>)
      modifies this`payId
      ensures payId == id
      ensures accountNo == old(accountNo) && userName == old(userName) && accountBalance == old(accountBalance)
    {
      payId := id;
    }

    method SetAccountBalance(balance: Option<real>)
      modifies this`accountBalance
      ensures accountBalance == balance
      ensures accountNo == old(accountNo) && userName == old(userName) && payId == old(payId)
    {
      accountBalance := balance;
    }
  }
}

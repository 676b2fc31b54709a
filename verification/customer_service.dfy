/**
 * `CustomerService.create_customer_and_account`: open a CUSTOMER cash
 * account with a zero balance, then insert the customer pointing at it. The
 * two inserts commit separately and nothing undoes the first.
 */
module CustomerService {
  import opened Results
  import opened Schema
  import opened Balances
  import CashAccountTable
  import CustomerTable

  datatype CustomerServiceError = AccountFailed(reason: CashAccountTable.LedgerError) | CustomerFailed

  /** Write attempt 0 is the account row, attempt 1 the customer row. */
  function CreateCustomerAndAccount(db: Db, name: string, email: string, phone: string, customerType: string,
                                    faults: Faults): (r: Outcome<(), CustomerServiceError>)
    ensures r.result.Ok? <==> 0 !in faults && 1 !in faults
    ensures 0 in faults ==> r == Outcome(Err(AccountFailed(CashAccountTable.DatabaseError)), db)
    ensures 0 !in faults ==>
              && r.db.accounts == db.accounts + [CashAccount(db.nextAccountId, 0.0, CustomerAccount)]
              && r.db.nextAccountId == db.nextAccountId + 1
    ensures 0 !in faults && 1 in faults ==> r.result == Err(CustomerFailed) && r.db.customers == db.customers
    ensures r.result.Ok? ==>
              && r.db.customers == db.customers[db.nextCustomerId := Customer(db.nextAccountId, name, email, phone, customerType)]
              && r.db.journal == db.journal + [AccountInserted(db.nextAccountId), CustomerInserted(db.nextCustomerId)]
    ensures WellFormed(db) ==> WellFormed(r.db)
  {
    var account := CashAccountTable.CreateOfKind(db, 0.0, Some(CustomerAccount), CashAccountTable.ProbeCashAccounts,
                                                 0 !in faults);
    if account.result.Err? then Outcome(Err(AccountFailed(account.result.error)), account.db)
    else
      var customer := CustomerTable.Create(account.db, account.result.value, name, email, phone, customerType,
                                           1 !in faults);
      if customer.result.Err? then Outcome(Err(CustomerFailed), customer.db)
      else Outcome(Ok(()), customer.db)
  }

  /**
   * Opening a customer moves no money, and the customer points at an account
   * row that did not exist before and exists exactly once afterwards.
   */
  lemma NewCustomerOwnsFreshAccount(db: Db, name: string, email: string, phone: string, customerType: string,
                                    faults: Faults)
    requires WellFormed(db)
    ensures var r := CreateCustomerAndAccount(db, name, email, phone, customerType, faults);
            && Total(r.db.accounts) == Total(db.accounts)
            && (r.result.Ok? ==>
                  var c := r.db.customers[db.nextCustomerId];
                  && CountId(db.accounts, c.accountId) == 0
                  && CountId(r.db.accounts, c.accountId) == 1)
  {
    var r := CreateCustomerAndAccount(db, name, email, phone, customerType, faults);
    var row := CashAccount(db.nextAccountId, 0.0, CustomerAccount);
    if 0 !in faults {
      TotalAppend(db.accounts, row);
      CountIdAppend(db.accounts, row, db.nextAccountId);
      CountIdAbsentBelow(db.accounts, db.nextAccountId);
    }
  }

  lemma {:induction false} CountIdAppend(rows: seq<CashAccount>, a: CashAccount, id: int)
    ensures CountId(rows + [a], id) == CountId(rows, id) + (if a.id == id then 1 else 0)
    decreases |rows|
  {
    if rows == [] {
      assert rows + [a] == [a];
    } else {
      assert (rows + [a])[1..] == rows[1..] + [a];
      CountIdAppend(rows[1..], a, id);
    }
  }

  /** No row carries an id at or above the next identity value. */
  lemma {:induction false} CountIdAbsentBelow(rows: seq<CashAccount>, next: int)
    requires forall i :: 0 <= i < |rows| ==> rows[i].id < next
    ensures CountId(rows, next) == 0
    decreases |rows|
  {
    if rows != [] {
      CountIdAbsentBelow(rows[1..], next);
    }
  }
}

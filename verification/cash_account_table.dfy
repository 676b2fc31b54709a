/**
 * The `CashAccount` table gateway: the ledger primitives `create`, `update`,
 * `check_balance` and `transfer_to_system_account`.
 */
module CashAccountTable {
  import opened Results
  import opened Schema
  import opened Balances

  datatype LedgerError =
    | InvalidAccountType
    | NegativeBalance
    | SystemAccountExists
    | InvalidOperation
    | DatabaseError

  /** What the query for an existing SYSTEM account returns. */
  datatype ProbeResult = RowFound | NoRow | QueryFailed

  /**
   * Where `create` looks for an existing SYSTEM account. As written it queries
   * a table named `account`, which is not the `CASH_ACCOUNT` table it inserts
   * into and is not part of the modelled state, so its answer is a parameter;
   * the corrected probe looks at the `CASH_ACCOUNT` rows themselves.
   */
  datatype SystemProbe = ProbeAccountTable(result: ProbeResult) | ProbeCashAccounts

  /** `str.upper()` on ASCII letters. */
  function UpperChar(c: char): char
  {
    if 'a' <= c <= 'z' then (c as int - 32) as char else c
  }

  function Upper(s: string): (u: string)
    ensures |u| == |s|
    ensures forall i :: 0 <= i < |s| ==> u[i] == UpperChar(s[i])
  {
    if s == [] then [] else [UpperChar(s[0])] + Upper(s[1..])
  }

  /** The account type named by `account_type.upper()`, if it is one of the two accepted names. */
  function AccountTypeOf(name: string): Option<AccountType>
  {
    var u := Upper(name);
    if u == "CUSTOMER" then Some(CustomerAccount)
    else if u == "SYSTEM" then Some(SystemAccount)
    else None
  }

  /** Upper-casing twice is upper-casing once, so the stored type name reads back as the same type. */
  lemma AccountTypeOfUpper(name: string)
    ensures Upper(Upper(name)) == Upper(name)
    ensures AccountTypeOf(Upper(name)) == AccountTypeOf(name)
  {
    assert Upper(Upper(name)) == Upper(name);
  }

  /** The type check ignores ASCII case and accepts nothing but the two names. */
  lemma AccountTypeNames()
    ensures AccountTypeOf("system") == Some(SystemAccount)
    ensures AccountTypeOf("Customer") == Some(CustomerAccount)
    ensures AccountTypeOf("SYSTEM ") == None
    ensures AccountTypeOf("") == None
  {
    UpperOfSystem();
    UpperOfCustomer();
    assert Upper("SYSTEM ")[6] == ' ';
  }

  /** The names the gateway stores are accepted as they are. */
  lemma CanonicalNames()
    ensures AccountTypeOf("SYSTEM") == Some(SystemAccount)
    ensures AccountTypeOf("CUSTOMER") == Some(CustomerAccount)
  {
    UpperOfSystem();
    UpperOfCustomer();
    AccountTypeOfUpper("system");
    AccountTypeOfUpper("Customer");
  }

  lemma UpperOfSystem()
    ensures Upper("system") == "SYSTEM"
  {
    var u := Upper("system");
    assert u[0] == 'S' && u[1] == 'Y' && u[2] == 'S' && u[3] == 'T' && u[4] == 'E' && u[5] == 'M';
  }

  lemma UpperOfCustomer()
    ensures Upper("Customer") == "CUSTOMER"
  {
    var u := Upper("Customer");
    assert u[0] == 'C' && u[1] == 'U' && u[2] == 'S' && u[3] == 'T';
    assert u[4] == 'O' && u[5] == 'M' && u[6] == 'E' && u[7] == 'R';
  }

  predicate HasSystem(rows: seq<CashAccount>)
  {
    exists i :: 0 <= i < |rows| && rows[i].accountType == SystemAccount
  }

  /** The single-SYSTEM rule: no two rows are SYSTEM accounts. */
  ghost predicate AtMostOneSystem(rows: seq<CashAccount>)
  {
    forall i, j :: 0 <= i < |rows| && 0 <= j < |rows|
                   && rows[i].accountType == SystemAccount && rows[j].accountType == SystemAccount
                   ==> i == j
  }

  /** The error the SYSTEM probe raises, if any. */
  function ProbeError(db: Db, probe: SystemProbe): Option<LedgerError>
  {
    match probe
    case ProbeAccountTable(RowFound) => Some(SystemAccountExists)
    case ProbeAccountTable(QueryFailed) => Some(DatabaseError)
    case ProbeAccountTable(NoRow) => None
    case ProbeCashAccounts => if HasSystem(db.accounts) then Some(SystemAccountExists) else None
  }

  /**
   * `CashAccount.create(balance, account_type)`: checks the type name, then
   * the balance, then (for SYSTEM) that no SYSTEM account exists; inserts one
   * row with the upper-cased type and returns its new id.
   */
  function Create(db: Db, balance: real, accountType: string, probe: SystemProbe, ok: bool)
    : (r: Outcome<int, LedgerError>)
    ensures r.result.Ok? <==>
              && AccountTypeOf(accountType).Some?
              && balance >= 0.0
              && (AccountTypeOf(accountType) == Some(SystemAccount) ==> ProbeError(db, probe).None?)
              && ok
    ensures AccountTypeOf(accountType).None? ==> r.result == Err(InvalidAccountType)
    ensures AccountTypeOf(accountType).Some? && balance < 0.0 ==> r.result == Err(NegativeBalance)
    ensures AccountTypeOf(accountType) == Some(SystemAccount) && balance >= 0.0 && ProbeError(db, probe).Some?
            ==> r.result == Err(ProbeError(db, probe).value)
    ensures && AccountTypeOf(accountType).Some? && balance >= 0.0
            && (AccountTypeOf(accountType) == Some(SystemAccount) ==> ProbeError(db, probe).None?)
            && !ok
            ==> r.result == Err(DatabaseError)
    ensures r.result.Err? ==> r.db == db
    ensures r.result.Ok? ==>
              && r.result.value == db.nextAccountId
              && r.db.accounts == db.accounts + [CashAccount(db.nextAccountId, balance, AccountTypeOf(accountType).value)]
              && r.db.nextAccountId == db.nextAccountId + 1
  {
    CreateOfKind(db, balance, AccountTypeOf(accountType), probe, ok)
  }

  /** Creating under a stored type name is creating an account of that kind. */
  lemma CreateCanonical(db: Db, balance: real, probe: SystemProbe, ok: bool)
    ensures Create(db, balance, "CUSTOMER", probe, ok) == CreateOfKind(db, balance, Some(CustomerAccount), probe, ok)
    ensures Create(db, balance, "SYSTEM", probe, ok) == CreateOfKind(db, balance, Some(SystemAccount), probe, ok)
  {
    CanonicalNames();
  }

  /**
   * `create` once the type name has been read: `kind` is `None` when the
   * name is neither CUSTOMER nor SYSTEM.
   */
  function CreateOfKind(db: Db, balance: real, kind: Option<AccountType>, probe: SystemProbe, ok: bool)
    : (r: Outcome<int, LedgerError>)
    ensures r.result.Ok? <==>
              && kind.Some?
              && balance >= 0.0
              && (kind == Some(SystemAccount) ==> ProbeError(db, probe).None?)
              && ok
    ensures r.result.Err? ==> r.db == db
    ensures kind.None? ==> r.result == Err(InvalidAccountType)
    ensures kind.Some? && balance < 0.0 ==> r.result == Err(NegativeBalance)
    ensures kind == Some(SystemAccount) && balance >= 0.0 && ProbeError(db, probe).Some?
            ==> r.result == Err(ProbeError(db, probe).value)
    ensures kind.Some? && balance >= 0.0 && (kind == Some(SystemAccount) ==> ProbeError(db, probe).None?) && !ok
            ==> r.result == Err(DatabaseError)
    ensures r.result.Ok? ==>
              var id := r.result.value;
              && id == db.nextAccountId
              && r.db.accounts == db.accounts + [CashAccount(id, balance, kind.value)]
              && r.db == db.(accounts := r.db.accounts, nextAccountId := id + 1,
                             journal := db.journal + [AccountInserted(id)])
    ensures WellFormed(db) ==> WellFormed(r.db)
    ensures probe == ProbeCashAccounts && AtMostOneSystem(db.accounts) ==> AtMostOneSystem(r.db.accounts)
  {
    if kind.None? then Outcome(Err(InvalidAccountType), db)
    else if balance < 0.0 then Outcome(Err(NegativeBalance), db)
    else if kind.value == SystemAccount && ProbeError(db, probe).Some? then Outcome(Err(ProbeError(db, probe).value), db)
    else if !ok then Outcome(Err(DatabaseError), db)
    else
      var id := db.nextAccountId;
      var row := CashAccount(id, balance, kind.value);
      var db' := db.(accounts := db.accounts + [row], nextAccountId := id + 1,
                     journal := db.journal + [AccountInserted(id)]);
      assert WellFormed(db) ==> WellFormed(db') by {
        if WellFormed(db) {
          forall i | 0 <= i < |db.accounts| ensures db'.accounts[i].id != id {
            assert db'.accounts[i] == db.accounts[i];
          }
        }
      }
      Outcome(Ok(id), db')
  }

  /**
   * `CashAccount.update(balance, id, operation)`: `+` adds to and `-`
   * subtracts from the row with that id; any other operator raises. Nothing
   * keeps the balance non-negative.
   */
  function Update(db: Db, amount: real, id: int, operation: string, ok: bool): (r: Outcome<(), LedgerError>)
    ensures r.result.Ok? <==> (operation == "+" || operation == "-") && ok
    ensures operation != "+" && operation != "-" ==> r == Outcome(Err(InvalidOperation), db)
    ensures r.result.Err? ==> r.db == db
    ensures |r.db.accounts| == |db.accounts|
    ensures r.result.Ok? ==> forall i :: 0 <= i < |db.accounts| ==>
              r.db.accounts[i] == if db.accounts[i].id != id then db.accounts[i]
                                  else if operation == "+" then db.accounts[i].(balance := db.accounts[i].balance + amount)
                                  else db.accounts[i].(balance := db.accounts[i].balance - amount)
    ensures r.result.Ok? && DistinctIds(db.accounts) ==>
              Total(r.db.accounts) == Total(db.accounts)
                                      + (if !HasId(db.accounts, id) then 0.0
                                         else if operation == "+" then amount else -amount)
    ensures r.result.Ok? ==> r.db == db.(accounts := r.db.accounts, journal := db.journal + [AccountUpdated(id)])
  {
    if operation != "+" && operation != "-" then Outcome(Err(InvalidOperation), db)
    else if !ok then Outcome(Err(DatabaseError), db)
    else
      var delta := if operation == "+" then amount else -amount;
      TotalShift(db.accounts, id, delta);
      CountIdDistinct(db.accounts, id);
      Outcome(Ok(()), db.(accounts := Shift(db.accounts, id, delta), journal := db.journal + [AccountUpdated(id)]))
  }

  /** Number of rows with the id whose balance covers `amount`. */
  function CountFunded(rows: seq<CashAccount>, id: int, amount: real): nat
  {
    if rows == [] then 0
    else (if rows[0].id == id && rows[0].balance >= amount then 1 else 0) + CountFunded(rows[1..], id, amount)
  }

  lemma {:induction false} CountFundedBounds(rows: seq<CashAccount>, id: int, amount: real)
    ensures CountFunded(rows, id, amount) <= CountId(rows, id)
    ensures CountFunded(rows, id, amount) > 0
            <==> exists i :: 0 <= i < |rows| && rows[i].id == id && rows[i].balance >= amount
    decreases |rows|
  {
    if rows != [] {
      CountFundedBounds(rows[1..], id, amount);
      if exists i :: 0 <= i < |rows| && rows[i].id == id && rows[i].balance >= amount {
        var i :| 0 <= i < |rows| && rows[i].id == id && rows[i].balance >= amount;
        if i > 0 {
          assert rows[1..][i - 1] == rows[i];
        }
      }
      if exists i :: 0 <= i < |rows[1..]| && rows[1..][i].id == id && rows[1..][i].balance >= amount {
        var i :| 0 <= i < |rows[1..]| && rows[1..][i].id == id && rows[1..][i].balance >= amount;
        assert rows[i + 1] == rows[1..][i];
      }
    }
  }

  /**
   * `check_balance(id, amount)`: `SELECT COUNT(*) ... WHERE id = :id AND
   * balance >= :amount` compared with 1. In a table with distinct ids this is
   * true exactly when the account exists and covers the amount.
   */
  function CheckBalance(db: Db, id: int, amount: real): (funded: bool)
    ensures DistinctIds(db.accounts) ==>
              (funded <==> exists i :: 0 <= i < |db.accounts| && db.accounts[i].id == id
                                       && db.accounts[i].balance >= amount)
  {
    CountFundedBounds(db.accounts, id, amount);
    CountIdDistinct(db.accounts, id);
    CountFunded(db.accounts, id, amount) == 1
  }

  /**
   * `transfer_to_system_account(amount, id_from)`: debits `id_from` and
   * credits every SYSTEM row, committed together; on error neither persists.
   * There is no funds check.
   */
  function Transfer(db: Db, amount: real, fromId: int, ok: bool): (r: Outcome<(), LedgerError>)
    ensures r.result.Ok? <==> ok
    ensures !ok ==> r == Outcome(Err(DatabaseError), db)
    ensures |r.db.accounts| == |db.accounts|
    ensures forall i :: 0 <= i < |db.accounts| ==>
              && r.db.accounts[i].id == db.accounts[i].id
              && r.db.accounts[i].accountType == db.accounts[i].accountType
              && r.db.accounts[i].balance
                 == db.accounts[i].balance
                    - (if ok && db.accounts[i].id == fromId then amount else 0.0)
                    + (if ok && db.accounts[i].accountType == SystemAccount then amount else 0.0)
    ensures Total(r.db.accounts)
            == Total(db.accounts) + (if ok then Times(SystemCount(db.accounts), amount) - Times(CountId(db.accounts, fromId), amount)
                                     else 0.0)
    ensures ok ==> r.db == db.(accounts := r.db.accounts, journal := db.journal + [Transferred(fromId, amount)])
  {
    if !ok then Outcome(Err(DatabaseError), db)
    else
      var rows := CreditSystems(Shift(db.accounts, fromId, -amount), amount);
      TotalDebitCredit(db.accounts, fromId, amount);
      Outcome(Ok(()), db.(accounts := rows, journal := db.journal + [Transferred(fromId, amount)]))
  }

  /**
   * With exactly one SYSTEM account and an existing source account the
   * transfer conserves the sum of all balances.
   */
  lemma TransferConserves(db: Db, amount: real, fromId: int, ok: bool)
    requires DistinctIds(db.accounts)
    requires SystemCount(db.accounts) == 1
    requires HasId(db.accounts, fromId)
    ensures Total(Transfer(db, amount, fromId, ok).db.accounts) == Total(db.accounts)
  {
    CountIdDistinct(db.accounts, fromId);
  }

  /** From a missing account the transfer credits the SYSTEM account without debiting anyone. */
  lemma TransferFromMissingAccountCreatesMoney(db: Db, amount: real, fromId: int)
    requires SystemCount(db.accounts) == 1
    requires !HasId(db.accounts, fromId)
    ensures Total(Transfer(db, amount, fromId, true).db.accounts) == Total(db.accounts) + amount
  {
    CountIdAbsent(db.accounts, fromId);
  }

  lemma {:induction false} CountIdAbsent(rows: seq<CashAccount>, id: int)
    requires !HasId(rows, id)
    ensures CountId(rows, id) == 0
    decreases |rows|
  {
    if rows != [] {
      assert rows[0].id != id;
      assert !HasId(rows[1..], id) by {
        forall k | 0 <= k < |rows[1..]| ensures rows[1..][k].id != id {
          assert rows[1..][k] == rows[k + 1];
        }
      }
      CountIdAbsent(rows[1..], id);
    }
  }

  /** Every SYSTEM row beyond the first is paid once more by each transfer. */
  lemma TransferWithTwoSystemAccounts(db: Db, amount: real, fromId: int)
    requires DistinctIds(db.accounts)
    requires SystemCount(db.accounts) == 2
    requires HasId(db.accounts, fromId)
    ensures Total(Transfer(db, amount, fromId, true).db.accounts) == Total(db.accounts) + amount
  {
    CountIdDistinct(db.accounts, fromId);
  }

  /** The transfer does not check funds: it can leave the source account negative. */
  lemma TransferCanOverdraw()
    ensures var db := Db(map[], [], map[], 1, [], [], [],
                         [CashAccount(1, 5.0, CustomerAccount), CashAccount(2, 0.0, SystemAccount)],
                         3, map[], 1, []);
            Transfer(db, 10.0, 1, true).db.accounts[0].balance == -5.0
  {
  }

  /** A ledger holding one SYSTEM account, id 1. */
  const SingleSystemDb := Db(map[], [], map[], 0, [], [], [], [CashAccount(1, 0.0, SystemAccount)], 2, map[], 0, [])

  /**
   * The probe as written reads a table that `create` never writes, so when
   * that table has no SYSTEM row a second SYSTEM account is created next to
   * the existing one.
   */
  lemma AccountTableProbeAllowsSecondSystem()
    ensures AtMostOneSystem(SingleSystemDb.accounts)
    ensures var r := CreateOfKind(SingleSystemDb, 0.0, Some(SystemAccount), ProbeAccountTable(NoRow), true);
            r.result.Ok? && !AtMostOneSystem(r.db.accounts)
  {
    var r := CreateOfKind(SingleSystemDb, 0.0, Some(SystemAccount), ProbeAccountTable(NoRow), true);
    assert r.db.accounts[0].accountType == SystemAccount && r.db.accounts[1].accountType == SystemAccount;
  }

  /** Probing the `CASH_ACCOUNT` rows refuses the second SYSTEM account and writes nothing. */
  lemma CashAccountProbeRefusesSecondSystem()
    ensures CreateOfKind(SingleSystemDb, 0.0, Some(SystemAccount), ProbeCashAccounts, true)
            == Outcome(Err(SystemAccountExists), SingleSystemDb)
  {
    assert SingleSystemDb.accounts[0].accountType == SystemAccount;
  }
}

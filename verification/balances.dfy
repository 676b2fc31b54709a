/**
 * Sums of account balances, used to state how ledger operations move money.
 */
module Balances {
  import opened Schema

  /** Sum of the balances of all account rows. */
  function Total(rows: seq<CashAccount>): real
  {
    if rows == [] then 0.0 else rows[0].balance + Total(rows[1..])
  }

  /** Number of rows with the given id (0 or 1 in a well-formed table). */
  function CountId(rows: seq<CashAccount>, id: int): nat
  {
    if rows == [] then 0 else (if rows[0].id == id then 1 else 0) + CountId(rows[1..], id)
  }

  /** Number of SYSTEM account rows. */
  function SystemCount(rows: seq<CashAccount>): nat
  {
    if rows == [] then 0
    else (if rows[0].accountType == SystemAccount then 1 else 0) + SystemCount(rows[1..])
  }

  /** Some row has the id. */
  predicate HasId(rows: seq<CashAccount>, id: int)
  {
    exists i :: 0 <= i < |rows| && rows[i].id == id
  }

  /** `BALANCE = BALANCE + delta WHERE id = :id` applied to every row. */
  function Shift(rows: seq<CashAccount>, id: int, delta: real): (r: seq<CashAccount>)
    ensures |r| == |rows|
    ensures forall i :: 0 <= i < |rows| ==>
              r[i] == if rows[i].id == id then rows[i].(balance := rows[i].balance + delta) else rows[i]
  {
    if rows == [] then []
    else
      var head := if rows[0].id == id then rows[0].(balance := rows[0].balance + delta) else rows[0];
      [head] + Shift(rows[1..], id, delta)
  }

  /** `BALANCE = BALANCE + amount WHERE ACCOUNT_TYPE = 'SYSTEM'` applied to every row. */
  function CreditSystems(rows: seq<CashAccount>, amount: real): (r: seq<CashAccount>)
    ensures |r| == |rows|
    ensures forall i :: 0 <= i < |rows| ==>
              r[i] == if rows[i].accountType == SystemAccount
                      then rows[i].(balance := rows[i].balance + amount) else rows[i]
  {
    if rows == [] then []
    else
      var head := if rows[0].accountType == SystemAccount
                  then rows[0].(balance := rows[0].balance + amount) else rows[0];
      [head] + CreditSystems(rows[1..], amount)
  }

  /**
   * `n` copies of `a` added together, that is `n * a`; kept as a sum so that
   * the balance proofs stay within linear arithmetic.
   */
  function Times(n: nat, a: real): real
  {
    if n == 0 then 0.0 else a + Times(n - 1, a)
  }

  lemma {:induction false} TimesNegate(n: nat, a: real)
    ensures Times(n, -a) == -Times(n, a)
  {
    if n > 0 {
      TimesNegate(n - 1, a);
    }
  }

  /** Shifting the rows with one id moves the total by `delta` once per such row. */
  lemma {:induction false} TotalShift(rows: seq<CashAccount>, id: int, delta: real)
    ensures Total(Shift(rows, id, delta)) == Total(rows) + Times(CountId(rows, id), delta)
    decreases |rows|
  {
    if rows != [] {
      TotalShift(rows[1..], id, delta);
      assert Shift(rows, id, delta)[1..] == Shift(rows[1..], id, delta);
    }
  }

  /** Crediting the SYSTEM rows moves the total by `amount` once per SYSTEM row. */
  lemma {:induction false} TotalCreditSystems(rows: seq<CashAccount>, amount: real)
    ensures Total(CreditSystems(rows, amount)) == Total(rows) + Times(SystemCount(rows), amount)
    decreases |rows|
  {
    if rows != [] {
      TotalCreditSystems(rows[1..], amount);
      assert CreditSystems(rows, amount)[1..] == CreditSystems(rows[1..], amount);
    }
  }

  /** Appending a row adds its balance to the total. */
  lemma {:induction false} TotalAppend(rows: seq<CashAccount>, a: CashAccount)
    ensures Total(rows + [a]) == Total(rows) + a.balance
    decreases |rows|
  {
    if rows == [] {
      assert rows + [a] == [a];
    } else {
      assert (rows + [a])[1..] == rows[1..] + [a];
      TotalAppend(rows[1..], a);
    }
  }

  /** In a table with distinct ids, an id occurs once if present and not at all otherwise. */
  lemma {:induction false} CountIdDistinct(rows: seq<CashAccount>, id: int)
    ensures DistinctIds(rows) ==> CountId(rows, id) == if HasId(rows, id) then 1 else 0
    decreases |rows|
  {
    if rows != [] && DistinctIds(rows) {
      assert DistinctIds(rows[1..]) by {
        forall i, j | 0 <= i < |rows[1..]| && 0 <= j < |rows[1..]| && rows[1..][i].id == rows[1..][j].id
          ensures i == j
        {
          assert rows[i + 1].id == rows[j + 1].id;
        }
      }
      CountIdDistinct(rows[1..], id);
      if rows[0].id == id {
        forall k | 0 <= k < |rows[1..]|
          ensures rows[1..][k].id != id
        {
          assert rows[1..][k] == rows[k + 1];
          assert k + 1 != 0;
        }
      } else if HasId(rows, id) {
        var k :| 0 <= k < |rows| && rows[k].id == id;
        assert rows[1..][k - 1].id == id;
      }
    }
  }

  /** Shifting balances and crediting SYSTEM rows keep the ids, order and types of the rows. */
  lemma ShapePreserved(rows: seq<CashAccount>, id: int, delta: real, amount: real)
    ensures var r := CreditSystems(Shift(rows, id, delta), amount);
            && |r| == |rows|
            && forall i :: 0 <= i < |rows| ==> r[i].id == rows[i].id && r[i].accountType == rows[i].accountType
    ensures SystemCount(Shift(rows, id, delta)) == SystemCount(rows)
  {
    ShiftKeepsSystemCount(rows, id, delta);
  }

  lemma {:induction false} ShiftKeepsSystemCount(rows: seq<CashAccount>, id: int, delta: real)
    ensures SystemCount(Shift(rows, id, delta)) == SystemCount(rows)
    decreases |rows|
  {
    if rows != [] {
      assert Shift(rows, id, delta)[1..] == Shift(rows[1..], id, delta);
      ShiftKeepsSystemCount(rows[1..], id, delta);
    }
  }

  /** Debiting one id and crediting every SYSTEM row moves the total by the difference of their counts. */
  lemma TotalDebitCredit(rows: seq<CashAccount>, fromId: int, amount: real)
    ensures Total(CreditSystems(Shift(rows, fromId, -amount), amount))
            == Total(rows) + Times(SystemCount(rows), amount) - Times(CountId(rows, fromId), amount)
  {
    TotalShift(rows, fromId, -amount);
    TimesNegate(CountId(rows, fromId), amount);
    ShiftKeepsSystemCount(rows, fromId, -amount);
    TotalCreditSystems(Shift(rows, fromId, -amount), amount);
  }
}

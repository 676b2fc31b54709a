/**
 * The `Customer` table insert used by `create_customer_and_account`. The
 * gateway's own source is not part of this model; its insert either commits
 * one row under a new identity or raises `CustomerError`.
 */
module CustomerTable {
  import opened Results
  import opened Schema

  datatype CustomerError = DatabaseError

  function Create(db: Db, accountId: int, name: string, email: string, phone: string, customerType: string,
                  ok: bool): (r: Outcome<int, CustomerError>)
    ensures r.result.Ok? <==> ok
    ensures !ok ==> r.db == db
    ensures ok ==> var id := r.result.value;
                   && id == db.nextCustomerId
                   && (WellFormed(db) ==> id !in db.customers && WellFormed(r.db))
                   && r.db.customers == db.customers[id := Customer(accountId, name, email, phone, customerType)]
                   && r.db == db.(customers := r.db.customers, nextCustomerId := id + 1,
                                  journal := db.journal + [CustomerInserted(id)])
  {
    if !ok then Outcome(Err(DatabaseError), db)
    else
      var id := db.nextCustomerId;
      Outcome(Ok(id), db.(customers := db.customers[id := Customer(accountId, name, email, phone, customerType)],
                          nextCustomerId := id + 1,
                          journal := db.journal + [CustomerInserted(id)]))
  }
}

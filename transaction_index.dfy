/** The transaction manager's lookups (MySQLManagerImpl.go:413-444). Both read the store only. */
module TransactionIndex {
  import opened Base
  import opened Records
  import opened Storage
  import opened JournalLedger
  import opened JournalProperties

  /** IsTransactionIdExist (413-422). The store reports a missing transaction as an error, which
      is passed on, so the answer is never a plain `false`. */
  function IsTransactionIdExist(db: Db, id: string): (r: Result<bool, Error>)
    ensures r == Ok(true) <==> id in db.transactions
    ensures r != Ok(true) ==> r == Err(Store(RecordNotFound))
  {
    match db.GetTransaction(id)
    case Err(e) => Err(Store(e))
    case Ok(_) => Ok(true)
  }

  /** GetTransactionById (425-444): the stored row as a Transaction, its marker read back
      case-insensitively. */
  function GetTransactionById(db: Db, id: string): (r: Result<Transaction, Error>)
    ensures r.Ok? <==> id in db.transactions
    ensures r.Err? ==> r.error == Store(RecordNotFound)
    ensures r.Ok? ==>
      var rec := db.transactions[id];
      && r.value.transactionId == rec.transactionId
      && r.value.accountNumber == rec.accountNumber
      && r.value.journalId == rec.journalId
      && r.value.amount == rec.amount
      && r.value.accountBalance == rec.balance
      && (r.value.transactionType == Debit <==> IsDebitSpelling(rec.alignment))
  {
    match db.GetTransaction(id)
    case Err(e) => Err(Store(e))
    case Ok(rec) =>
      DecodeAlignmentCases(rec.alignment);
      Ok(DecodeTransaction(rec))
  }

  /** The two lookups agree on which IDs exist; in a valid store the loaded transaction carries
      the ID it was asked for and belongs to a stored journal. */
  lemma LookupsAgree(db: Db, id: string)
    requires db.Valid()
    ensures IsTransactionIdExist(db, id) == Ok(true) <==> GetTransactionById(db, id).Ok?
    ensures GetTransactionById(db, id).Ok? ==>
      GetTransactionById(db, id).value.transactionId == id &&
      GetTransactionById(db, id).value.journalId in db.journals
  {
  }

  /** Every posting of a journal PersistJournal has committed can be fetched by its ID, and
      reads back as the posting with the journal's ID and the balance it left. */
  lemma PersistThenGetTransaction(db: Db, j: Journal, uow: UnitOfWork, k: nat)
    requires db.Valid()
    requires PersistJournalSpec(db, Some(j), uow).db != db
    requires k < |j.transactions|
    ensures var d := PersistJournalSpec(db, Some(j), uow).db;
      && IsTransactionIdExist(d, j.transactions[k].transactionId) == Ok(true)
      && GetTransactionById(d, j.transactions[k].transactionId) ==
           Ok(AsPosted(db, j.journalId, j.transactions)[k])
  {
    PersistJournalEffect(db, Some(j), uow);
    var d := PersistJournalSpec(db, Some(j), uow).db;
    var t := j.transactions[k];
    assert PostingsWritten(db, j.journalId, j.transactions, d);
    DecodePostingRecord(t, j.journalId, NewBalance(db.accounts[t.accountNumber], t));
  }
}

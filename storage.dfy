/** The storage boundary, held in memory. `Db` is the store's contents as a value, with every
    repository call the managers make as a lookup or an update on it; `Store` is the mutable
    store the managers share, whose methods perform those updates in place.

    A missing journal or transaction is reported as a `RecordNotFound` error, while a missing
    account or currency is reported as an absent row with no error: under those two conventions
    the managers' own checks behave as their comments describe. Journals and transactions are
    listed in insertion order, which stands for the backend's ordering by time. */
module Storage {
  import opened Base
  import opened Records

  datatype Db = Db(
    accounts: map<string, AccountRecord>,
    journals: map<string, JournalRecord>,
    journalOrder: seq<string>,
    transactions: map<string, TransactionRecord>,
    transactionOrder: seq<string>,
    currencies: map<string, CurrencyRecord>)
  {
    /** Every row is filed under its own key, the listing orders cover exactly the stored
        journals and transactions, and every transaction belongs to a stored journal. */
    ghost predicate Valid()
    {
      && (forall id :: id in journalOrder <==> id in journals)
      && (forall id :: id in transactionOrder <==> id in transactions)
      && (forall id :: id in journals ==> journals[id].journalId == id)
      && (forall id :: id in transactions ==> transactions[id].transactionId == id)
      && AccountsKeyed()
      && CurrenciesKeyed()
      && (forall id :: id in transactions ==> transactions[id].journalId in journals)
    }

    /** Every account row is filed under its own account number. */
    ghost predicate AccountsKeyed()
    {
      forall id :: id in accounts ==> accounts[id].accountNumber == id
    }

    /** Every currency row is filed under its own code. */
    ghost predicate CurrenciesKeyed()
    {
      forall code :: code in currencies ==> currencies[code].code == code
    }

    // -------------------------------------------------------------------------
    // Lookups

    function GetJournal(id: string): Result<JournalRecord, StoreError>
    {
      if id in journals then Ok(journals[id]) else Err(RecordNotFound)
    }

    function GetTransaction(id: string): Result<TransactionRecord, StoreError>
    {
      if id in transactions then Ok(transactions[id]) else Err(RecordNotFound)
    }

    function GetAccount(id: string): Option<AccountRecord>
    {
      if id in accounts then Some(accounts[id]) else None
    }

    function GetCurrency(code: string): Option<CurrencyRecord>
    {
      if code in currencies then Some(currencies[code]) else None
    }

    /** The first journal, in listing order, that names `id` as the journal it reverses. */
    function GetJournalByReversalId(id: string): (r: Option<JournalRecord>)
      ensures r.Some? ==> r.value in journals.Values && r.value.reversedJournalId == id
      ensures r.None? <==>
        forall k :: 0 <= k < |journalOrder| && journalOrder[k] in journals ==>
          journals[journalOrder[k]].reversedJournalId != id
    {
      FirstReversing(journalOrder, journals, id)
    }

    /** One page of the journal listing: `LIMIT limit OFFSET offset`. */
    function ListJournal(offset: nat, limit: nat): seq<JournalRecord>
    {
      RowsOf(Window(journalOrder, offset, limit), journals)
    }

    /** The postings of one journal, in listing order. */
    function ListTransactionByJournalId(journalId: string): seq<TransactionRecord>
    {
      PostingsOf(transactionOrder, transactions, journalId)
    }

    // -------------------------------------------------------------------------
    // Updates

    function InsertJournal(rec: JournalRecord): Db
      requires rec.journalId !in journals
    {
      this.(journals := journals[rec.journalId := rec], journalOrder := journalOrder + [rec.journalId])
    }

    /** Fails on a key that is already stored, as a primary key does. */
    function InsertTransaction(rec: TransactionRecord): Result<Db, StoreError>
    {
      if rec.transactionId in transactions then Err(DuplicateKey)
      else Ok(this.(transactions := transactions[rec.transactionId := rec],
                    transactionOrder := transactionOrder + [rec.transactionId]))
    }

    /** Fails on a key that is already stored, as a primary key does. */
    function InsertAccount(rec: AccountRecord): Result<Db, StoreError>
    {
      if rec.accountNumber in accounts then Err(DuplicateKey)
      else Ok(this.(accounts := accounts[rec.accountNumber := rec]))
    }

    function UpdateAccount(rec: AccountRecord): Db
      requires rec.accountNumber in accounts
    {
      this.(accounts := accounts[rec.accountNumber := rec])
    }

    function InsertCurrency(rec: CurrencyRecord): Db
      requires rec.code !in currencies
    {
      this.(currencies := currencies[rec.code := rec])
    }

    function UpdateCurrency(rec: CurrencyRecord): Db
      requires rec.code in currencies
    {
      this.(currencies := currencies[rec.code := rec])
    }
  }

  const EmptyDb := Db(map[], map[], [], map[], [], map[])

  function FirstReversing(order: seq<string>, journals: map<string, JournalRecord>, id: string): (r: Option<JournalRecord>)
    ensures r.Some? ==> r.value in journals.Values && r.value.reversedJournalId == id
    ensures r.None? <==>
      forall k :: 0 <= k < |order| && order[k] in journals ==> journals[order[k]].reversedJournalId != id
  {
    if order == [] then None
    else if order[0] in journals && journals[order[0]].reversedJournalId == id then Some(journals[order[0]])
    else
      var r := FirstReversing(order[1..], journals, id);
      assert forall k :: 1 <= k < |order| ==> order[k] == order[1..][k - 1];
      r
  }

  /** The stored rows of the listed keys, in the listed order. */
  function RowsOf(ids: seq<string>, journals: map<string, JournalRecord>): (r: seq<JournalRecord>)
    ensures (forall k :: 0 <= k < |ids| ==> ids[k] in journals) ==>
      |r| == |ids| && forall k :: 0 <= k < |ids| ==> r[k] == journals[ids[k]]
  {
    if ids == [] then []
    else (if ids[0] in journals then [journals[ids[0]]] else []) + RowsOf(ids[1..], journals)
  }

  /** The stored postings, in listing order, that belong to `journalId`. */
  function PostingsOf(order: seq<string>, transactions: map<string, TransactionRecord>, journalId: string): (r: seq<TransactionRecord>)
    ensures forall k :: 0 <= k < |r| ==> r[k] in transactions.Values && r[k].journalId == journalId
  {
    if order == [] then []
    else
      var rest := PostingsOf(order[..|order| - 1], transactions, journalId);
      var id := order[|order| - 1];
      if id in transactions && transactions[id].journalId == journalId then rest + [transactions[id]] else rest
  }

  /** Outcomes of the backend's unit-of-work primitive (begin, commit, rollback); `None` is success. */
  datatype UnitOfWork = UnitOfWork(
    beginError: Option<StoreError>,
    commitError: Option<StoreError>,
    rollbackError: Option<StoreError>)

  /** What a state-changing call returns, with the store it leaves behind. */
  datatype Effect = Effect(outcome: Outcome<Error>, db: Db)

  /** The shared storage backend. */
  class Store {
    var accounts: map<string, AccountRecord>
    var journals: map<string, JournalRecord>
    var journalOrder: seq<string>
    var transactions: map<string, TransactionRecord>
    var transactionOrder: seq<string>
    var currencies: map<string, CurrencyRecord>

    constructor ()
      ensures Snapshot() == EmptyDb
    {
      accounts, journals, journalOrder := map[], map[], [];
      transactions, transactionOrder, currencies := map[], [], map[];
    }

    /** The store's current contents. */
    function Snapshot(): Db
      reads this
    {
      Db(accounts, journals, journalOrder, transactions, transactionOrder, currencies)
    }

    method InsertJournal(rec: JournalRecord)
      requires rec.journalId !in journals
      modifies this
      ensures Snapshot() == old(Snapshot()).InsertJournal(rec)
    {
      journals := journals[rec.journalId := rec];
      journalOrder := journalOrder + [rec.journalId];
    }

    method InsertTransaction(rec: TransactionRecord) returns (err: Option<StoreError>)
      modifies this
      ensures match old(Snapshot()).InsertTransaction(rec)
        case Ok(d) => err.None? && Snapshot() == d
        case Err(e) => err == Some(e) && Snapshot() == old(Snapshot())
    {
      if rec.transactionId in transactions {
        return Some(DuplicateKey);
      }
      transactions := transactions[rec.transactionId := rec];
      transactionOrder := transactionOrder + [rec.transactionId];
      err := None;
    }

    method InsertAccount(rec: AccountRecord) returns (err: Option<StoreError>)
      modifies this
      ensures match old(Snapshot()).InsertAccount(rec)
        case Ok(d) => err.None? && Snapshot() == d
        case Err(e) => err == Some(e) && Snapshot() == old(Snapshot())
    {
      if rec.accountNumber in accounts {
        return Some(DuplicateKey);
      }
      accounts := accounts[rec.accountNumber := rec];
      err := None;
    }

    method UpdateAccount(rec: AccountRecord)
      requires rec.accountNumber in accounts
      modifies this
      ensures Snapshot() == old(Snapshot()).UpdateAccount(rec)
    {
      accounts := accounts[rec.accountNumber := rec];
    }

    method InsertCurrency(rec: CurrencyRecord)
      requires rec.code !in currencies
      modifies this
      ensures Snapshot() == old(Snapshot()).InsertCurrency(rec)
    {
      currencies := currencies[rec.code := rec];
    }

    method UpdateCurrency(rec: CurrencyRecord)
      requires rec.code in currencies
      modifies this
      ensures Snapshot() == old(Snapshot()).UpdateCurrency(rec)
    {
      currencies := currencies[rec.code := rec];
    }

    /** Rolling back the unit of work. ASSUMPTION: the backend's rollback puts every table back
        as it was when the unit of work began; the managers write through the store rather than
        through the unit of work, so this is the backend's promise, not the managers'. */
    method Restore(saved: Db)
      modifies this
      ensures Snapshot() == saved
    {
      accounts, journals, journalOrder := saved.accounts, saved.journals, saved.journalOrder;
      transactions, transactionOrder, currencies := saved.transactions, saved.transactionOrder, saved.currencies;
    }
  }
}

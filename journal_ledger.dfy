/** The journal manager: the validation-and-persistence pipeline of PersistJournal, the
    existence probes, journal hydration and listing.

    The pipeline is specified by `PersistJournalSpec`, a function from the store before the call
    to the error returned and the store left behind; `JournalManager.PersistJournal` runs it step
    by step on the shared store and is proved to agree with it. */
module JournalLedger {
  import opened Base
  import opened Records
  import opened Storage

  // ===========================================================================
  // Validation, in the order the checks run (MySQLManagerImpl.go:44-149)

  /** Check 1: the journal is present and has an ID, postings and an author. */
  function RequiredJournalFields(c: Option<Journal>): Outcome<Error>
  {
    if c.None? then Fail(JournalNil)
    else if |c.value.journalId| == 0 then Fail(JournalMissingId)
    else if |c.value.transactions| == 0 then Fail(JournalNoTransaction)
    else if |c.value.createBy| == 0 then Fail(JournalMissingAuthor)
    else Pass
  }

  /** Check 3 fails: some posting has an empty transaction ID. */
  predicate MissingTransactionId(ps: seq<Transaction>)
  {
    exists k :: 0 <= k < |ps| && |ps[k].transactionId| == 0
  }

  /** Check 4 fails: the store already holds some posting's transaction ID. Postings of the
      journal itself are not compared with each other. */
  predicate TransactionIdPersisted(db: Db, ps: seq<Transaction>)
  {
    exists k :: 0 <= k < |ps| && db.GetTransaction(ps[k].transactionId).Ok?
  }

  /** Check 5's running sum of the amounts on one side, in int64 arithmetic. */
  function SideSum(ps: seq<Transaction>, side: Alignment): Int64
  {
    if ps == [] then 0
    else
      var rest := SideSum(ps[..|ps| - 1], side);
      var last := ps[|ps| - 1];
      if last.transactionType == side then Add64(rest, last.amount) else rest
  }

  /** The mathematical sum of the amounts on one side. */
  function ExactSideSum(ps: seq<Transaction>, side: Alignment): int
  {
    if ps == [] then 0
    else
      var last := ps[|ps| - 1];
      ExactSideSum(ps[..|ps| - 1], side) + (if last.transactionType == side then last.amount else 0)
  }

  /** Check 6 fails: two postings name the same account. */
  predicate RepeatedAccount(ps: seq<Transaction>)
  {
    exists i, j :: 0 <= i < j < |ps| && ps[i].accountNumber == ps[j].accountNumber
  }

  /** Check 7 fails: some posting names an account the store does not hold. */
  predicate UnknownAccount(db: Db, ps: seq<Transaction>)
  {
    exists k :: 0 <= k < |ps| && db.GetAccount(ps[k].accountNumber).None?
  }

  /** Every posting names a stored account. */
  ghost predicate AccountsPresent(db: Db, ps: seq<Transaction>)
  {
    forall k :: 0 <= k < |ps| ==> ps[k].accountNumber in db.accounts
  }

  /** Check 8: every posting's account has the currency of the first posting's account. The
      account is fetched again, and a missing one gives ErrAccountIdNotFound. */
  function CurrencyCheck(db: Db, ps: seq<Transaction>): Outcome<Error>
  {
    if ps == [] then Pass
    else
      match db.GetAccount(ps[0].accountNumber)
      case None => Fail(AccountIdNotFound)
      case Some(first) => CurrencyScan(db, ps[1..], first.currencyCode)
  }

  function CurrencyScan(db: Db, ps: seq<Transaction>, currency: string): Outcome<Error>
  {
    if ps == [] then Pass
    else
      match db.GetAccount(ps[0].accountNumber)
      case None => Fail(AccountIdNotFound)
      case Some(account) =>
        if account.currencyCode != currency then Fail(JournalTransactionMixCurrency)
        else CurrencyScan(db, ps[1..], currency)
  }

  /** IsJournalIdReversed: some stored journal names `id` as the journal it reverses. A lookup
      error reads as "not reversed". */
  function IsJournalIdReversed(db: Db, id: string): (r: bool)
    ensures db.Valid() ==> (r <==> exists k :: k in db.journals && db.journals[k].reversedJournalId == id)
  {
    var found := db.GetJournalByReversalId(id);
    if found.Some? then true
    else
      assert db.Valid() ==> forall k :: k in db.journals ==> exists i :: 0 <= i < |db.journalOrder| && db.journalOrder[i] == k;
      false
  }

  /** IsJournalIdExist: a journal with this ID is stored. A lookup error reads as "absent". */
  function IsJournalIdExist(db: Db, id: string): (r: bool)
    ensures r <==> id in db.journals
  {
    db.GetJournal(id).Ok?
  }

  /** The nine checks of PersistJournal, failing on the first that does not hold. Check 9 asks
      whether the NEW journal's own ID has been reversed, not the ID of the journal it reverses. */
  function Validate(db: Db, c: Option<Journal>): (r: Outcome<Error>)
    ensures r == Pass ==>
      c.Some? && c.value.journalId !in db.journals && AccountsPresent(db, c.value.transactions)
  {
    match RequiredJournalFields(c)
    case Fail(e) => Fail(e)
    case Pass =>
      var j := c.value;
      var ps := j.transactions;
      if db.GetJournal(j.journalId).Ok? then Fail(JournalAlreadyPersisted)
      else if MissingTransactionId(ps) then Fail(JournalTransactionMissingID)
      else if TransactionIdPersisted(db, ps) then Fail(JournalTransactionAlreadyPersisted)
      else if SideSum(ps, Credit) != SideSum(ps, Debit) then Fail(JournalNotBalance)
      else if RepeatedAccount(ps) then Fail(JournalTransactionAccountDuplicate)
      else if UnknownAccount(db, ps) then Fail(JournalTransactionAccountNotPersist)
      else if CurrencyCheck(db, ps).Fail? then CurrencyCheck(db, ps)
      else if j.reversedJournal.Some? && IsJournalIdReversed(db, j.journalId) then Fail(JournalCanNotDoubleReverse)
      else
        assert forall k :: 0 <= k < |ps| ==> db.GetAccount(ps[k].accountNumber).Some?;
        Pass
  }

  // ===========================================================================
  // Write phase (MySQLManagerImpl.go:153-262)

  /** The journal row written first (165-179): the total is the credit-side sum, and the reversal
      flag and target come from the reversed journal, if one is given. */
  function NewJournalRecord(j: Journal, totalAmount: Int64): JournalRecord
  {
    JournalRecord(
      j.journalId, j.description,
      j.reversedJournal.Some?,
      if j.reversedJournal.Some? then j.reversedJournal.value.journalId else "",
      totalAmount, j.createBy)
  }

  /** The balance after a posting (221-229): the amount is added when the posting's marker is
      exactly the account's stored marker, and subtracted otherwise. */
  function NewBalance(account: AccountRecord, t: Transaction): Int64
  {
    if EncodeAlignment(t.transactionType) == account.alignment then Add64(account.balance, t.amount)
    else Sub64(account.balance, t.amount)
  }

  /** The posting row (193-210), carrying the balance it leaves on its account. */
  function PostingRecord(t: Transaction, journalId: string, balance: Int64): TransactionRecord
  {
    TransactionRecord(t.transactionId, t.transactionTime, t.accountNumber, journalId,
                      t.description, EncodeAlignment(t.transactionType), t.amount, balance, t.createBy)
  }

  /** The account row written back after a posting (243-246). */
  function PostedAccount(account: AccountRecord, t: Transaction): AccountRecord
  {
    account.(balance := NewBalance(account, t), updatedBy := t.createBy)
  }

  /** The posting loop (192-255): for each posting in order, read its account, insert the
      posting row, write the account back. Only an insert can fail, on a duplicate key. */
  function WritePostings(db: Db, journalId: string, ps: seq<Transaction>): Result<Db, StoreError>
    requires AccountsPresent(db, ps) && db.AccountsKeyed()
    decreases |ps|
  {
    if ps == [] then Ok(db)
    else
      var t := ps[0];
      var account := db.accounts[t.accountNumber];
      match db.InsertTransaction(PostingRecord(t, journalId, NewBalance(account, t)))
      case Err(e) => Err(e)
      case Ok(inserted) =>
        var updated := inserted.UpdateAccount(PostedAccount(account, t));
        assert AccountsPresent(updated, ps[1..]) by {
          forall k | 0 <= k < |ps[1..]| ensures ps[1..][k].accountNumber in updated.accounts {
            assert ps[1..][k] == ps[k + 1];
          }
        }
        WritePostings(updated, journalId, ps[1..])
  }

  /** After a write-phase failure the code returns what the rollback returns, so a successful
      rollback reports success (184-188, 215-219, 234-238, 249-253). */
  function RollbackOutcome(uow: UnitOfWork): Outcome<Error>
  {
    if uow.rollbackError.Some? then Fail(Store(uow.rollbackError.value)) else Pass
  }

  /** PersistJournal (42-265): the error returned and the store left behind. A failed write phase
      or commit leaves the store as it was, under the rollback assumption of `Store.Restore`. */
  function PersistJournalSpec(db: Db, c: Option<Journal>, uow: UnitOfWork): Effect
    requires db.Valid()
  {
    match Validate(db, c)
    case Fail(e) => Effect(Fail(e), db)
    case Pass =>
      var j := c.value;
      if uow.beginError.Some? then Effect(Fail(Store(uow.beginError.value)), db)
      else
        var withJournal := db.InsertJournal(NewJournalRecord(j, SideSum(j.transactions, Credit)));
        match WritePostings(withJournal, j.journalId, j.transactions)
        case Err(_) => Effect(RollbackOutcome(uow), db)
        case Ok(written) =>
          if uow.commitError.Some? then Effect(Fail(Store(uow.commitError.value)), db)
          else Effect(Pass, written)
  }

  // ===========================================================================
  // Reading journals back (MySQLManagerImpl.go:308-371)

  function DecodeAll(recs: seq<TransactionRecord>): (r: seq<Transaction>)
    ensures |r| == |recs|
  {
    seq(|recs|, k requires 0 <= k < |recs| => DecodeTransaction(recs[k]))
  }

  /** GetJournalById (308-347). A reversal journal loads the journal it reverses first, and fails
      with ErrJournalLoadReversalInconsistent when that load fails; at most `fuel` reversal links
      are followed. */
  function GetJournalById(db: Db, id: string, fuel: nat): (r: Result<Journal, Error>)
    ensures id !in db.journals ==> r == Err(Store(RecordNotFound))
    ensures r.Err? && id in db.journals ==> db.journals[id].isReversal && r == Err(JournalLoadReversalInconsistent)
    ensures r.Ok? ==>
      && id in db.journals
      && r.value.reversal == db.journals[id].isReversal
      && (r.value.reversedJournal.Some? <==> r.value.reversal)
      && |r.value.transactions| == |db.ListTransactionByJournalId(id)|
    decreases fuel
  {
    match db.GetJournal(id)
    case Err(e) => Err(Store(e))
    case Ok(rec) =>
      var reversed: Result<Option<Journal>, Error> :=
        if !rec.isReversal then Ok(None)
        else if fuel == 0 then Err(JournalLoadReversalInconsistent)
        else match GetJournalById(db, rec.reversedJournalId, fuel - 1)
             case Ok(r) => Ok(Some(r))
             case Err(_) => Err(JournalLoadReversalInconsistent);
      match reversed
      case Err(e) => Err(e)
      case Ok(r) =>
        Ok(Journal(rec.journalId, rec.description, rec.isReversal, r, rec.totalAmount,
                   DecodeAll(db.ListTransactionByJournalId(id)), rec.createdBy))
  }

  /** The journals of a page that load, in page order (362-369); the others are skipped. */
  function Hydrate(db: Db, recs: seq<JournalRecord>, fuel: nat): seq<Journal>
  {
    if recs == [] then []
    else
      var rest := Hydrate(db, recs[..|recs| - 1], fuel);
      match GetJournalById(db, recs[|recs| - 1].journalId, fuel)
      case Ok(j) => rest + [j]
      case Err(_) => rest
  }

  lemma HydrateStep(db: Db, recs: seq<JournalRecord>, next: JournalRecord, fuel: nat)
    ensures var loaded := GetJournalById(db, next.journalId, fuel);
      Hydrate(db, recs + [next], fuel) ==
        if loaded.Ok? then Hydrate(db, recs, fuel) + [loaded.value] else Hydrate(db, recs, fuel)
  {
    assert (recs + [next])[..|recs|] == recs;
  }

  /** One more row of a page: its journal is appended when it loads. */
  lemma HydrateNext(db: Db, recs: seq<JournalRecord>, i: nat, fuel: nat)
    requires i < |recs|
    ensures var loaded := GetJournalById(db, recs[i].journalId, fuel);
      Hydrate(db, recs[..i + 1], fuel) ==
        if loaded.Ok? then Hydrate(db, recs[..i], fuel) + [loaded.value] else Hydrate(db, recs[..i], fuel)
  {
    HydrateStep(db, recs[..i], recs[i], fuel);
    assert recs[..i + 1] == recs[..i] + [recs[i]];
  }

  // ===========================================================================
  // The manager

  class JournalManager {
    const repo: Store

    constructor (repo: Store)
      ensures this.repo == repo
    {
      this.repo := repo;
    }

    /** PersistJournal (42-265). */
    method PersistJournal(candidate: Option<Journal>, uow: UnitOfWork) returns (err: Outcome<Error>)
      requires repo.Snapshot().Valid()
      modifies repo
      ensures Effect(err, repo.Snapshot()) == PersistJournalSpec(old(repo.Snapshot()), candidate, uow)
    {
      err := RequiredJournalFields(candidate);
      if err.Fail? {
        return;
      }
      var j := candidate.value;
      var ps := j.transactions;
      if repo.Snapshot().GetJournal(j.journalId).Ok? {
        return Fail(JournalAlreadyPersisted);
      }
      var missing := FindMissingTransactionId(ps);
      if missing {
        return Fail(JournalTransactionMissingID);
      }
      var persisted := FindPersistedTransactionId(ps);
      if persisted {
        return Fail(JournalTransactionAlreadyPersisted);
      }
      var debitSum, creditSum := SumSides(ps);
      if creditSum != debitSum {
        return Fail(JournalNotBalance);
      }
      var repeated := FindRepeatedAccount(ps);
      if repeated {
        return Fail(JournalTransactionAccountDuplicate);
      }
      var unknown := FindUnknownAccount(ps);
      if unknown {
        return Fail(JournalTransactionAccountNotPersist);
      }
      err := CheckCurrency(ps);
      if err.Fail? {
        return;
      }
      if j.reversedJournal.Some? && IsJournalIdReversed(repo.Snapshot(), j.journalId) {
        return Fail(JournalCanNotDoubleReverse);
      }

      // Write phase.
      if uow.beginError.Some? {
        return Fail(Store(uow.beginError.value));
      }
      var saved := repo.Snapshot();
      repo.InsertJournal(NewJournalRecord(j, creditSum));
      var writeError := WriteTransactions(j.journalId, ps);
      if writeError.Some? {
        repo.Restore(saved);
        return RollbackOutcome(uow);
      }
      if uow.commitError.Some? {
        repo.Restore(saved);
        return Fail(Store(uow.commitError.value));
      }
      err := Pass;
    }

    /** Check 3's loop (71-76). */
    method FindMissingTransactionId(ps: seq<Transaction>) returns (missing: bool)
      ensures missing == MissingTransactionId(ps)
    {
      var i := 0;
      while i < |ps|
        invariant 0 <= i <= |ps|
        invariant forall k :: 0 <= k < i ==> |ps[k].transactionId| > 0
      {
        if |ps[i].transactionId| == 0 {
          return true;
        }
        i := i + 1;
      }
      return false;
    }

    /** Check 4's loop (79-85). */
    method FindPersistedTransactionId(ps: seq<Transaction>) returns (persisted: bool)
      ensures persisted == TransactionIdPersisted(repo.Snapshot(), ps)
    {
      var i := 0;
      while i < |ps|
        invariant 0 <= i <= |ps|
        invariant forall k :: 0 <= k < i ==> repo.Snapshot().GetTransaction(ps[k].transactionId).Err?
      {
        if repo.Snapshot().GetTransaction(ps[i].transactionId).Ok? {
          return true;
        }
        i := i + 1;
      }
      return false;
    }

    /** Check 5's loop (88-96): both sums in one pass, in int64 arithmetic. */
    method SumSides(ps: seq<Transaction>) returns (debitSum: Int64, creditSum: Int64)
      ensures debitSum == SideSum(ps, Debit) && creditSum == SideSum(ps, Credit)
    {
      debitSum, creditSum := 0, 0;
      var i := 0;
      while i < |ps|
        invariant 0 <= i <= |ps|
        invariant debitSum == SideSum(ps[..i], Debit) && creditSum == SideSum(ps[..i], Credit)
      {
        assert ps[..i + 1][..i] == ps[..i];
        if ps[i].transactionType == Debit {
          debitSum := Add64(debitSum, ps[i].amount);
        }
        if ps[i].transactionType == Credit {
          creditSum := Add64(creditSum, ps[i].amount);
        }
        i := i + 1;
      }
      assert ps[..i] == ps;
    }

    /** Check 6's loop (103-110): the accounts seen so far are kept in a set. */
    method FindRepeatedAccount(ps: seq<Transaction>) returns (repeated: bool)
      ensures repeated == RepeatedAccount(ps)
    {
      var seen: set<string> := {};
      var i := 0;
      while i < |ps|
        invariant 0 <= i <= |ps|
        invariant forall a :: a in seen <==> exists k :: 0 <= k < i && ps[k].accountNumber == a
        invariant forall k, l :: 0 <= k < l < i ==> ps[k].accountNumber != ps[l].accountNumber
      {
        if ps[i].accountNumber in seen {
          return true;
        }
        seen := seen + {ps[i].accountNumber};
        i := i + 1;
      }
      return false;
    }

    /** Check 7's loop (113-119). */
    method FindUnknownAccount(ps: seq<Transaction>) returns (unknown: bool)
      ensures unknown == UnknownAccount(repo.Snapshot(), ps)
    {
      var i := 0;
      while i < |ps|
        invariant 0 <= i <= |ps|
        invariant forall k :: 0 <= k < i ==> repo.Snapshot().GetAccount(ps[k].accountNumber).Some?
      {
        if repo.Snapshot().GetAccount(ps[i].accountNumber).None? {
          return true;
        }
        i := i + 1;
      }
      return false;
    }

    /** Check 8's loop (122-137). */
    method CheckCurrency(ps: seq<Transaction>) returns (err: Outcome<Error>)
      ensures err == CurrencyCheck(repo.Snapshot(), ps)
    {
      var db := repo.Snapshot();
      var currency := "";
      var i := 0;
      while i < |ps|
        invariant 0 <= i <= |ps|
        invariant i > 0 ==> CurrencyCheck(db, ps) == CurrencyScan(db, ps[i..], currency)
      {
        var account := db.GetAccount(ps[i].accountNumber);
        if account.None? {
          return Fail(AccountIdNotFound);
        }
        if i == 0 {
          currency := account.value.currencyCode;
        } else if account.value.currencyCode != currency {
          return Fail(JournalTransactionMixCurrency);
        }
        assert ps[i..][1..] == ps[i + 1..];
        i := i + 1;
      }
      return Pass;
    }

    /** The posting loop of the write phase (192-255), up to the first failing write. */
    method WriteTransactions(journalId: string, ps: seq<Transaction>) returns (err: Option<StoreError>)
      requires AccountsPresent(repo.Snapshot(), ps) && repo.Snapshot().AccountsKeyed()
      modifies repo
      ensures match WritePostings(old(repo.Snapshot()), journalId, ps)
        case Ok(d) => err.None? && repo.Snapshot() == d
        case Err(e) => err == Some(e)
    {
      var i := 0;
      while i < |ps|
        invariant 0 <= i <= |ps|
        invariant AccountsPresent(repo.Snapshot(), ps[i..]) && repo.Snapshot().AccountsKeyed()
        invariant WritePostings(old(repo.Snapshot()), journalId, ps) == WritePostings(repo.Snapshot(), journalId, ps[i..])
      {
        var t := ps[i];
        assert ps[i..][0] == t && ps[i..][1..] == ps[i + 1..];
        var account := repo.accounts[t.accountNumber];
        var insertErr := repo.InsertTransaction(PostingRecord(t, journalId, NewBalance(account, t)));
        if insertErr.Some? {
          return insertErr;
        }
        repo.UpdateAccount(PostedAccount(account, t));
        i := i + 1;
      }
      return None;
    }

    /** CommitJournal (272-274): nothing to do, the write phase has committed already. */
    method CommitJournal(j: Journal) returns (err: Outcome<Error>)
      ensures err == Pass
    {
      return Pass;
    }

    /** CancelJournal (281-283): nothing to undo. */
    method CancelJournal(j: Journal) returns (err: Outcome<Error>)
      ensures err == Pass
    {
      return Pass;
    }

    /** ListJournals (351-371) over one page of the listing. `offset` and `pageSize` are the
        pagination library's window; the time range only reaches the count that feeds it. */
    method ListJournals(offset: nat, pageSize: nat, fuel: nat) returns (page: seq<Journal>)
      ensures page == Hydrate(repo.Snapshot(), repo.Snapshot().ListJournal(offset, pageSize), fuel)
    {
      var db := repo.Snapshot();
      var records := db.ListJournal(offset, pageSize);
      page := [];
      var i := 0;
      while i < |records|
        invariant 0 <= i <= |records|
        invariant page == Hydrate(db, records[..i], fuel)
      {
        var loaded := GetJournalById(db, records[i].journalId, fuel);
        HydrateNext(db, records, i, fuel);
        if loaded.Ok? {
          page := page + [loaded.value];
        }
        i := i + 1;
      }
      assert records[..i] == records;
    }
  }
}

/** What PersistJournal, GetJournalById and ListJournals guarantee, stated over the functions
    of JournalLedger. */
module JournalProperties {
  import opened Base
  import opened Records
  import opened Storage
  import opened JournalLedger

  // ===========================================================================
  // Check 5: int64 sums

  /** The running int64 sum is the mathematical sum wrapped to int64. */
  lemma {:induction false} SideSumWraps(ps: seq<Transaction>, side: Alignment)
    ensures SideSum(ps, side) == Wrap64(ExactSideSum(ps, side))
    decreases |ps|
  {
    if ps != [] {
      var prefix := ps[..|ps| - 1];
      var last := ps[|ps| - 1];
      SideSumWraps(prefix, side);
      if last.transactionType == side {
        WrapAdd(ExactSideSum(prefix, side), last.amount);
      } else {
        assert ExactSideSum(ps, side) == ExactSideSum(prefix, side);
      }
    }
  }

  /** The balance check compares debit and credit totals modulo 2^64 only. */
  lemma BalanceCheckIsModular(ps: seq<Transaction>)
    ensures SideSum(ps, Debit) == SideSum(ps, Credit) <==>
      (ExactSideSum(ps, Debit) - ExactSideSum(ps, Credit)) % TwoTo64 == 0
  {
    SideSumWraps(ps, Debit);
    SideSumWraps(ps, Credit);
    WrapAgreement(ExactSideSum(ps, Debit), ExactSideSum(ps, Credit));
  }

  // ===========================================================================
  // Check 8: one currency

  lemma {:induction false} CurrencyScanCases(db: Db, ps: seq<Transaction>, currency: string)
    requires AccountsPresent(db, ps)
    ensures CurrencyScan(db, ps, currency) == Pass <==>
      forall k :: 0 <= k < |ps| ==> db.accounts[ps[k].accountNumber].currencyCode == currency
    ensures CurrencyScan(db, ps, currency) != Pass ==>
      CurrencyScan(db, ps, currency) == Fail(JournalTransactionMixCurrency)
    decreases |ps|
  {
    if ps != [] {
      var rest := ps[1..];
      assert AccountsPresent(db, rest) by {
        forall k | 0 <= k < |rest| ensures rest[k].accountNumber in db.accounts {
          assert rest[k] == ps[k + 1];
        }
      }
      CurrencyScanCases(db, rest, currency);
      assert forall k :: 1 <= k < |ps| ==> ps[k] == rest[k - 1];
    }
  }

  /** When every account is stored, check 8 fails exactly when some posting's account has another
      currency than the first posting's account, and then with ErrJournalTransactionMixCurrency. */
  lemma CurrencyCheckCases(db: Db, ps: seq<Transaction>)
    requires AccountsPresent(db, ps) && |ps| > 0
    ensures CurrencyCheck(db, ps) == Pass <==>
      forall k :: 0 <= k < |ps| ==>
        db.accounts[ps[k].accountNumber].currencyCode == db.accounts[ps[0].accountNumber].currencyCode
    ensures CurrencyCheck(db, ps) != Pass ==> CurrencyCheck(db, ps) == Fail(JournalTransactionMixCurrency)
  {
    var rest := ps[1..];
    assert AccountsPresent(db, rest) by {
      forall k | 0 <= k < |rest| ensures rest[k].accountNumber in db.accounts {
        assert rest[k] == ps[k + 1];
      }
    }
    CurrencyScanCases(db, rest, db.accounts[ps[0].accountNumber].currencyCode);
    assert forall k :: 1 <= k < |ps| ==> ps[k] == rest[k - 1];
  }

  /** The ErrAccountIdNotFound branch of check 8 is only reached when an account is missing,
      which check 7 has already rejected. */
  lemma {:induction false} CurrencyCheckMissingAccount(db: Db, ps: seq<Transaction>)
    requires CurrencyCheck(db, ps) == Fail(AccountIdNotFound)
    ensures UnknownAccount(db, ps)
  {
    if db.GetAccount(ps[0].accountNumber).Some? {
      ScanMissingAccount(db, ps[1..], db.accounts[ps[0].accountNumber].currencyCode);
      var k :| 0 <= k < |ps[1..]| && db.GetAccount(ps[1..][k].accountNumber).None?;
      assert ps[k + 1] == ps[1..][k];
    }
  }

  lemma {:induction false} ScanMissingAccount(db: Db, ps: seq<Transaction>, currency: string)
    requires CurrencyScan(db, ps, currency) == Fail(AccountIdNotFound)
    ensures UnknownAccount(db, ps)
    decreases |ps|
  {
    if db.GetAccount(ps[0].accountNumber).Some? {
      ScanMissingAccount(db, ps[1..], currency);
      var k :| 0 <= k < |ps[1..]| && db.GetAccount(ps[1..][k].accountNumber).None?;
      assert ps[k + 1] == ps[1..][k];
    }
  }

  // ===========================================================================
  // The nine checks, stated declaratively

  /** What a journal must satisfy for PersistJournal to start writing it: all nine checks. */
  ghost predicate Acceptable(db: Db, j: Journal)
  {
    && CheckHolds(db, j, 1) && CheckHolds(db, j, 2) && CheckHolds(db, j, 3)
    && CheckHolds(db, j, 4) && CheckHolds(db, j, 5) && CheckHolds(db, j, 6)
    && CheckHolds(db, j, 7) && CheckHolds(db, j, 8) && CheckHolds(db, j, 9)
  }

  /** The nine checks pass exactly for an acceptable journal. */
  lemma ValidateAccepts(db: Db, j: Journal)
    requires db.Valid()
    ensures Validate(db, Some(j)) == Pass <==> Acceptable(db, j)
  {
    if Acceptable(db, j) {
      AcceptablePasses(db, j);
    }
    if Validate(db, Some(j)) == Pass {
      PassingIsAcceptable(db, j);
    }
  }

  lemma AcceptablePasses(db: Db, j: Journal)
    requires db.Valid() && Acceptable(db, j)
    ensures Validate(db, Some(j)) == Pass
  {
    var ps := j.transactions;
    assert CheckHolds(db, j, 7);
    assert !UnknownAccount(db, ps);
    CurrencyCheckCases(db, ps);
  }

  lemma PassingIsAcceptable(db: Db, j: Journal)
    requires db.Valid() && Validate(db, Some(j)) == Pass
    ensures Acceptable(db, j)
  {
    var ps := j.transactions;
    assert !UnknownAccount(db, ps);
    CurrencyCheckCases(db, ps);
  }

  /** Check `n` of PersistJournal, stated on its own (checks 1 to 9, 45-149). Check 8 is stated
      for the accounts that are stored; check 7 has already required all of them to be. */
  ghost predicate CheckHolds(db: Db, j: Journal, n: nat)
  {
    var ps := j.transactions;
    if n == 1 then |j.journalId| > 0 && |ps| > 0 && |j.createBy| > 0
    else if n == 2 then j.journalId !in db.journals
    else if n == 3 then forall k :: 0 <= k < |ps| ==> |ps[k].transactionId| > 0
    else if n == 4 then forall k :: 0 <= k < |ps| ==> ps[k].transactionId !in db.transactions
    else if n == 5 then SideSum(ps, Debit) == SideSum(ps, Credit)
    else if n == 6 then forall k, l :: 0 <= k < l < |ps| ==> ps[k].accountNumber != ps[l].accountNumber
    else if n == 7 then forall k :: 0 <= k < |ps| ==> ps[k].accountNumber in db.accounts
    else if n == 8 then
      forall k :: 0 <= k < |ps| && ps[0].accountNumber in db.accounts && ps[k].accountNumber in db.accounts ==>
        db.accounts[ps[k].accountNumber].currencyCode == db.accounts[ps[0].accountNumber].currencyCode
    else if n == 9 then
      j.reversedJournal.Some? ==> forall id :: id in db.journals ==> db.journals[id].reversedJournalId != j.journalId
    else true
  }

  /** The error each of checks 2 to 9 returns. */
  function CheckError(n: nat): Error
    requires 2 <= n <= 9
  {
    if n == 2 then JournalAlreadyPersisted
    else if n == 3 then JournalTransactionMissingID
    else if n == 4 then JournalTransactionAlreadyPersisted
    else if n == 5 then JournalNotBalance
    else if n == 6 then JournalTransactionAccountDuplicate
    else if n == 7 then JournalTransactionAccountNotPersist
    else if n == 8 then JournalTransactionMixCurrency
    else JournalCanNotDoubleReverse
  }

  /** An acceptable journal is one that passes all nine checks. */
  lemma AcceptableIsAllChecks(db: Db, j: Journal)
    ensures Acceptable(db, j) <==> forall n :: 1 <= n <= 9 ==> CheckHolds(db, j, n)
  {
    if forall n :: 1 <= n <= 9 ==> CheckHolds(db, j, n) {
      assert CheckHolds(db, j, 1) && CheckHolds(db, j, 7) && CheckHolds(db, j, 8);
      assert CheckHolds(db, j, 2) && CheckHolds(db, j, 3) && CheckHolds(db, j, 4);
      assert CheckHolds(db, j, 5) && CheckHolds(db, j, 6) && CheckHolds(db, j, 9);
    }
  }

  /** The checks run in order and the first that fails decides the result: when checks 1 to
      n - 1 hold and check n does not, PersistJournal returns check n's error and writes nothing. */
  lemma FirstFailingCheck(db: Db, j: Journal, uow: UnitOfWork, n: nat)
    requires db.Valid() && 2 <= n <= 9
    requires forall i :: 1 <= i < n ==> CheckHolds(db, j, i)
    requires !CheckHolds(db, j, n)
    ensures Validate(db, Some(j)) == Fail(CheckError(n))
    ensures PersistJournalSpec(db, Some(j), uow) == Effect(Fail(CheckError(n)), db)
  {
    ValidateFirstFailing(db, j, n);
  }

  lemma ValidateFirstFailing(db: Db, j: Journal, n: nat)
    requires db.Valid() && 2 <= n <= 9
    requires forall i :: 1 <= i < n ==> CheckHolds(db, j, i)
    requires !CheckHolds(db, j, n)
    ensures Validate(db, Some(j)) == Fail(CheckError(n))
  {
    assert CheckHolds(db, j, 1);
    if n <= 5 {
      ValidateFailsEarly(db, j, n);
    } else {
      assert CheckHolds(db, j, 2) && CheckHolds(db, j, 3) && CheckHolds(db, j, 4) && CheckHolds(db, j, 5);
      ValidateFailsLate(db, j, n);
    }
  }

  /** Checks 2 to 5, after the required fields. */
  lemma ValidateFailsEarly(db: Db, j: Journal, n: nat)
    requires 2 <= n <= 5 && CheckHolds(db, j, 1)
    requires forall i :: 2 <= i < n ==> CheckHolds(db, j, i)
    requires !CheckHolds(db, j, n)
    ensures Validate(db, Some(j)) == Fail(CheckError(n))
  {
    if n == 3 {
      assert CheckHolds(db, j, 2);
    } else if n == 4 {
      assert CheckHolds(db, j, 2) && CheckHolds(db, j, 3);
    } else if n == 5 {
      assert CheckHolds(db, j, 2) && CheckHolds(db, j, 3) && CheckHolds(db, j, 4);
    }
  }

  /** Checks 6 to 9, after the first five. */
  lemma ValidateFailsLate(db: Db, j: Journal, n: nat)
    requires db.Valid() && 6 <= n <= 9
    requires forall i :: 1 <= i <= 5 ==> CheckHolds(db, j, i)
    requires forall i :: 6 <= i < n ==> CheckHolds(db, j, i)
    requires !CheckHolds(db, j, n)
    ensures Validate(db, Some(j)) == Fail(CheckError(n))
  {
    assert CheckHolds(db, j, 1) && CheckHolds(db, j, 2) && CheckHolds(db, j, 3);
    assert CheckHolds(db, j, 4) && CheckHolds(db, j, 5);
    if n == 7 {
      assert CheckHolds(db, j, 6);
    } else if n >= 8 {
      assert CheckHolds(db, j, 6) && CheckHolds(db, j, 7);
      ValidateFailsLast(db, j, n);
    }
  }

  /** Checks 8 and 9, after the first seven. */
  lemma ValidateFailsLast(db: Db, j: Journal, n: nat)
    requires db.Valid() && 8 <= n <= 9
    requires forall i :: 1 <= i <= 7 ==> CheckHolds(db, j, i)
    requires n == 9 ==> CheckHolds(db, j, 8)
    requires !CheckHolds(db, j, n)
    ensures Validate(db, Some(j)) == Fail(CheckError(n))
  {
    var ps := j.transactions;
    assert CheckHolds(db, j, 1) && CheckHolds(db, j, 2) && CheckHolds(db, j, 3);
    assert CheckHolds(db, j, 4) && CheckHolds(db, j, 5) && CheckHolds(db, j, 6) && CheckHolds(db, j, 7);
    CurrencyCheckCases(db, ps);
  }

  /** The reversal check looks at the new journal's own ID: which journal is named as the one
      being reversed never changes the outcome of the checks. */
  lemma ReversalTargetIgnored(db: Db, j: Journal, other: Journal)
    requires j.reversedJournal.Some?
    ensures Validate(db, Some(j)) == Validate(db, Some(j.(reversedJournal := Some(other))))
  {
  }

  /** The required-field errors come first, in this order (45-59). */
  lemma RequiredFieldErrors(db: Db, c: Option<Journal>, uow: UnitOfWork)
    requires db.Valid()
    ensures c.None? ==> PersistJournalSpec(db, c, uow) == Effect(Fail(JournalNil), db)
    ensures c.Some? && |c.value.journalId| == 0 ==>
      PersistJournalSpec(db, c, uow) == Effect(Fail(JournalMissingId), db)
    ensures c.Some? && |c.value.journalId| > 0 && |c.value.transactions| == 0 ==>
      PersistJournalSpec(db, c, uow) == Effect(Fail(JournalNoTransaction), db)
    ensures c.Some? && |c.value.journalId| > 0 && |c.value.transactions| > 0 && |c.value.createBy| == 0 ==>
      PersistJournalSpec(db, c, uow) == Effect(Fail(JournalMissingAuthor), db)
  {
  }

  // ===========================================================================
  // The balance update (221-229)

  /** A posting is added to its account's balance when the account's stored marker is exactly the
      posting's own ("DEBIT" or "CREDIT", upper case) and subtracted otherwise, in int64. */
  lemma NewBalanceCases(account: AccountRecord, t: Transaction)
    ensures var same := (t.transactionType == Debit && account.alignment == "DEBIT")
                     || (t.transactionType == Credit && account.alignment == "CREDIT");
      && (same ==> (NewBalance(account, t) - (account.balance + t.amount)) % TwoTo64 == 0)
      && (!same ==> (NewBalance(account, t) - (account.balance - t.amount)) % TwoTo64 == 0)
      && (same && MinInt64 <= account.balance + t.amount <= MaxInt64 ==>
            NewBalance(account, t) == account.balance + t.amount)
      && (!same && MinInt64 <= account.balance - t.amount <= MaxInt64 ==>
            NewBalance(account, t) == account.balance - t.amount)
  {
  }

  // ===========================================================================
  // The posting loop

  predicate RepeatedTransactionId(ps: seq<Transaction>)
  {
    exists k, l :: 0 <= k < l < |ps| && ps[k].transactionId == ps[l].transactionId
  }

  /** Does some posting name account `a`? */
  ghost predicate Names(ps: seq<Transaction>, a: string)
  {
    exists k :: 0 <= k < |ps| && ps[k].accountNumber == a
  }

  function TransactionIds(ps: seq<Transaction>): (r: seq<string>)
    ensures |r| == |ps| && forall k :: 0 <= k < |ps| ==> r[k] == ps[k].transactionId
  {
    seq(|ps|, k requires 0 <= k < |ps| => ps[k].transactionId)
  }

  /** The store after the posting loop has written one posting whose ID is new. */
  function PostOne(db: Db, journalId: string, t: Transaction): Db
    requires t.accountNumber in db.accounts
  {
    var account := db.accounts[t.accountNumber];
    db.(transactions := db.transactions[t.transactionId := PostingRecord(t, journalId, NewBalance(account, t))],
        transactionOrder := db.transactionOrder + [t.transactionId],
        accounts := db.accounts[t.accountNumber := PostedAccount(account, t)])
  }

  /** One turn of the posting loop. */
  lemma WritePostingsUnfold(db: Db, journalId: string, ps: seq<Transaction>)
    requires AccountsPresent(db, ps) && db.AccountsKeyed() && ps != []
    ensures ps[0].transactionId in db.transactions ==> WritePostings(db, journalId, ps) == Err(DuplicateKey)
    ensures ps[0].transactionId !in db.transactions ==>
      var next := PostOne(db, journalId, ps[0]);
      && next.AccountsKeyed() && AccountsPresent(next, ps[1..])
      && WritePostings(db, journalId, ps) == WritePostings(next, journalId, ps[1..])
  {
    var next := PostOne(db, journalId, ps[0]);
    forall k | 0 <= k < |ps[1..]| ensures ps[1..][k].accountNumber in next.accounts {
      assert ps[1..][k] == ps[k + 1];
    }
  }

  /** After a posting with a new ID, a later posting clashes with the store exactly when it
      clashed with the store before or repeats that posting's ID. */
  lemma ClashesAfterPosting(db: Db, journalId: string, ps: seq<Transaction>)
    requires ps != [] && ps[0].accountNumber in db.accounts && ps[0].transactionId !in db.transactions
    ensures TransactionIdPersisted(PostOne(db, journalId, ps[0]), ps[1..]) || RepeatedTransactionId(ps[1..]) <==>
      TransactionIdPersisted(db, ps) || RepeatedTransactionId(ps)
  {
    var next := PostOne(db, journalId, ps[0]);
    assert next.transactions.Keys == db.transactions.Keys + {ps[0].transactionId};
    ClashesAfterInsert(db, next, ps);
  }

  /** The same, for any store `next` whose transaction keys are those of `db` plus the first
      posting's ID. */
  lemma ClashesAfterInsert(db: Db, next: Db, ps: seq<Transaction>)
    requires ps != [] && ps[0].transactionId !in db.transactions
    requires next.transactions.Keys == db.transactions.Keys + {ps[0].transactionId}
    ensures TransactionIdPersisted(next, ps[1..]) || RepeatedTransactionId(ps[1..]) <==>
      TransactionIdPersisted(db, ps) || RepeatedTransactionId(ps)
  {
    ClashesCarryBack(db, next, ps);
    ClashesCarryForward(db, next, ps);
  }

  lemma ClashesCarryBack(db: Db, next: Db, ps: seq<Transaction>)
    requires ps != []
    requires next.transactions.Keys == db.transactions.Keys + {ps[0].transactionId}
    ensures TransactionIdPersisted(next, ps[1..]) || RepeatedTransactionId(ps[1..]) ==>
      TransactionIdPersisted(db, ps) || RepeatedTransactionId(ps)
  {
    var t, rest := ps[0], ps[1..];
    if TransactionIdPersisted(next, rest) {
      var l :| 0 <= l < |rest| && next.GetTransaction(rest[l].transactionId).Ok?;
      assert rest[l] == ps[l + 1];
      if rest[l].transactionId == t.transactionId {
        assert RepeatedTransactionId(ps);
      } else {
        assert TransactionIdPersisted(db, ps);
      }
    }
    if RepeatedTransactionId(rest) {
      var k, l :| 0 <= k < l < |rest| && rest[k].transactionId == rest[l].transactionId;
      assert ps[k + 1] == rest[k] && ps[l + 1] == rest[l];
      assert RepeatedTransactionId(ps);
    }
  }

  lemma ClashesCarryForward(db: Db, next: Db, ps: seq<Transaction>)
    requires ps != [] && ps[0].transactionId !in db.transactions
    requires next.transactions.Keys == db.transactions.Keys + {ps[0].transactionId}
    ensures TransactionIdPersisted(db, ps) || RepeatedTransactionId(ps) ==>
      TransactionIdPersisted(next, ps[1..]) || RepeatedTransactionId(ps[1..])
  {
    var rest := ps[1..];
    if TransactionIdPersisted(db, ps) {
      var k :| 0 <= k < |ps| && db.GetTransaction(ps[k].transactionId).Ok?;
      assert k > 0 && rest[k - 1] == ps[k];
      assert next.GetTransaction(rest[k - 1].transactionId).Ok?;
    }
    if RepeatedTransactionId(ps) {
      var k, l :| 0 <= k < l < |ps| && ps[k].transactionId == ps[l].transactionId;
      assert rest[l - 1] == ps[l];
      if k == 0 {
        assert next.GetTransaction(rest[l - 1].transactionId).Ok?;
      } else {
        assert rest[k - 1] == ps[k];
      }
    }
  }

  /** The posting loop fails exactly when a posting's ID is already stored or two postings of the
      journal share an ID; check 4 rules out only the first. */
  lemma {:induction false} WritePostingsFails(db: Db, journalId: string, ps: seq<Transaction>)
    requires AccountsPresent(db, ps) && db.AccountsKeyed()
    ensures WritePostings(db, journalId, ps).Err? <==>
      TransactionIdPersisted(db, ps) || RepeatedTransactionId(ps)
    decreases |ps|
  {
    if ps != [] {
      WritePostingsUnfold(db, journalId, ps);
      if ps[0].transactionId !in db.transactions {
        WritePostingsFails(PostOne(db, journalId, ps[0]), journalId, ps[1..]);
        ClashesAfterPosting(db, journalId, ps);
      } else {
        assert db.GetTransaction(ps[0].transactionId).Ok?;
      }
    }
  }

  /** What a successful posting loop has written: each posting's row, carrying its account's
      balance after the posting and the journal's ID; each named account's new balance and
      updater; and nothing else. */
  ghost predicate PostingsWritten(db: Db, journalId: string, ps: seq<Transaction>, d: Db)
    requires AccountsPresent(db, ps)
  {
    && d.accounts.Keys == db.accounts.Keys
    && (forall k :: 0 <= k < |ps| ==>
          d.accounts[ps[k].accountNumber] == PostedAccount(db.accounts[ps[k].accountNumber], ps[k]))
    && (forall a :: a in db.accounts && !Names(ps, a) ==> d.accounts[a] == db.accounts[a])
    && (forall k :: 0 <= k < |ps| ==>
          ps[k].transactionId in d.transactions &&
          d.transactions[ps[k].transactionId] ==
            PostingRecord(ps[k], journalId, NewBalance(db.accounts[ps[k].accountNumber], ps[k])))
    && (forall id :: id in db.transactions ==> id in d.transactions && d.transactions[id] == db.transactions[id])
    && (forall id :: id in d.transactions ==> id in db.transactions || id in TransactionIds(ps))
    && d.transactionOrder == db.transactionOrder + TransactionIds(ps)
  }

  /** The account part of PostingsWritten carries over from the rest of the postings to all of
      them, since no other posting names the first posting's account. */
  lemma AccountsWrittenCons(db: Db, journalId: string, ps: seq<Transaction>, d: Db)
    requires ps != [] && AccountsPresent(db, ps)
    requires forall k, l :: 0 <= k < l < |ps| ==> ps[k].accountNumber != ps[l].accountNumber
    requires var next := PostOne(db, journalId, ps[0]);
      && AccountsPresent(next, ps[1..])
      && d.accounts.Keys == next.accounts.Keys
      && (forall k :: 0 <= k < |ps[1..]| ==>
            d.accounts[ps[1..][k].accountNumber] == PostedAccount(next.accounts[ps[1..][k].accountNumber], ps[1..][k]))
      && (forall a :: a in next.accounts && !Names(ps[1..], a) ==> d.accounts[a] == next.accounts[a])
    ensures d.accounts.Keys == db.accounts.Keys
    ensures forall k :: 0 <= k < |ps| ==>
      d.accounts[ps[k].accountNumber] == PostedAccount(db.accounts[ps[k].accountNumber], ps[k])
    ensures forall a :: a in db.accounts && !Names(ps, a) ==> d.accounts[a] == db.accounts[a]
  {
    var t, rest := ps[0], ps[1..];
    var next := PostOne(db, journalId, t);
    forall l | 0 <= l < |rest| ensures rest[l].accountNumber != t.accountNumber {
      assert rest[l] == ps[l + 1];
    }
    forall k | 0 <= k < |ps|
      ensures d.accounts[ps[k].accountNumber] == PostedAccount(db.accounts[ps[k].accountNumber], ps[k])
    {
      if k > 0 {
        assert ps[k] == rest[k - 1];
        assert ps[k].accountNumber != t.accountNumber;
      }
    }
    forall a | a in db.accounts && !Names(ps, a) ensures d.accounts[a] == db.accounts[a] {
      assert a != t.accountNumber;
      forall l | 0 <= l < |rest| ensures rest[l].accountNumber != a {
        assert rest[l] == ps[l + 1];
      }
    }
  }

  /** The posting rows of PostingsWritten carry over likewise: the first posting's account is
      untouched by the others. */
  lemma RowsWrittenCons(db: Db, journalId: string, ps: seq<Transaction>, d: Db)
    requires ps != [] && AccountsPresent(db, ps)
    requires forall k, l :: 0 <= k < l < |ps| ==> ps[k].accountNumber != ps[l].accountNumber
    requires var next := PostOne(db, journalId, ps[0]);
      && AccountsPresent(next, ps[1..])
      && ps[0].transactionId in d.transactions
      && d.transactions[ps[0].transactionId] == next.transactions[ps[0].transactionId]
      && (forall k :: 0 <= k < |ps[1..]| ==>
            ps[1..][k].transactionId in d.transactions &&
            d.transactions[ps[1..][k].transactionId] ==
              PostingRecord(ps[1..][k], journalId, NewBalance(next.accounts[ps[1..][k].accountNumber], ps[1..][k])))
    ensures forall k :: 0 <= k < |ps| ==>
      ps[k].transactionId in d.transactions &&
      d.transactions[ps[k].transactionId] ==
        PostingRecord(ps[k], journalId, NewBalance(db.accounts[ps[k].accountNumber], ps[k]))
  {
    var t, rest := ps[0], ps[1..];
    forall k | 0 <= k < |ps|
      ensures ps[k].transactionId in d.transactions
      ensures d.transactions[ps[k].transactionId] ==
        PostingRecord(ps[k], journalId, NewBalance(db.accounts[ps[k].accountNumber], ps[k]))
    {
      if k > 0 {
        assert ps[k] == rest[k - 1];
        assert ps[k].accountNumber != t.accountNumber;
      }
    }
  }

  /** The stored keys and the listing order of PostingsWritten carry over likewise: `before`,
      `next` and `after` are the transaction tables before the loop, after its first posting
      (`tid`, written as `row`) and after the rest (whose IDs are `rest`). */
  lemma KeysWrittenCons(before: map<string, TransactionRecord>, next: map<string, TransactionRecord>,
                        after: map<string, TransactionRecord>, tid: string, row: TransactionRecord,
                        rest: seq<string>)
    requires tid !in before && next == before[tid := row]
    requires forall id :: id in next ==> id in after && after[id] == next[id]
    requires forall id :: id in after ==> id in next || id in rest
    ensures forall id :: id in before ==> id in after && after[id] == before[id]
    ensures forall id :: id in after ==> id in before || id in [tid] + rest
  {
    forall id | id in before ensures id in after && after[id] == before[id] {
      assert next[id] == before[id];
    }
  }

  /** PostingsWritten for the postings after the first, from the store the first one left,
      gives PostingsWritten for all of them. */
  lemma PostingsWrittenCons(db: Db, journalId: string, ps: seq<Transaction>, d: Db)
    requires ps != [] && AccountsPresent(db, ps) && ps[0].transactionId !in db.transactions
    requires forall k, l :: 0 <= k < l < |ps| ==> ps[k].accountNumber != ps[l].accountNumber
    requires AccountsPresent(PostOne(db, journalId, ps[0]), ps[1..])
    requires PostingsWritten(PostOne(db, journalId, ps[0]), journalId, ps[1..], d)
    ensures PostingsWritten(db, journalId, ps, d)
  {
    AccountsWrittenCons(db, journalId, ps, d);
    RowsWrittenCons(db, journalId, ps, d);
    KeysPartCons(db, journalId, ps, d);
  }

  lemma KeysPartCons(db: Db, journalId: string, ps: seq<Transaction>, d: Db)
    requires ps != [] && ps[0].accountNumber in db.accounts && ps[0].transactionId !in db.transactions
    requires var next := PostOne(db, journalId, ps[0]);
      && (forall id :: id in next.transactions ==> id in d.transactions && d.transactions[id] == next.transactions[id])
      && (forall id :: id in d.transactions ==> id in next.transactions || id in TransactionIds(ps[1..]))
      && d.transactionOrder == next.transactionOrder + TransactionIds(ps[1..])
    ensures forall id :: id in db.transactions ==> id in d.transactions && d.transactions[id] == db.transactions[id]
    ensures forall id :: id in d.transactions ==> id in db.transactions || id in TransactionIds(ps)
    ensures d.transactionOrder == db.transactionOrder + TransactionIds(ps)
  {
    var tid, rest := ps[0].transactionId, TransactionIds(ps[1..]);
    var next := PostOne(db, journalId, ps[0]);
    KeysWrittenCons(db.transactions, next.transactions, d.transactions, tid,
                    PostingRecord(ps[0], journalId, NewBalance(db.accounts[ps[0].accountNumber], ps[0])), rest);
    TransactionIdsCons(ps);
    ConcatAssoc(db.transactionOrder, [tid], rest);
  }

  lemma TransactionIdsCons(ps: seq<Transaction>)
    requires ps != []
    ensures TransactionIds(ps) == [ps[0].transactionId] + TransactionIds(ps[1..])
  {
  }

  lemma ConcatAssoc(a: seq<string>, b: seq<string>, c: seq<string>)
    ensures a + b + c == a + (b + c)
  {
  }

  lemma {:induction false} WritePostingsEffect(db: Db, journalId: string, ps: seq<Transaction>)
    requires AccountsPresent(db, ps) && db.AccountsKeyed()
    requires forall k, l :: 0 <= k < l < |ps| ==> ps[k].accountNumber != ps[l].accountNumber
    requires WritePostings(db, journalId, ps).Ok?
    ensures var d := WritePostings(db, journalId, ps).value;
      && PostingsWritten(db, journalId, ps, d)
      && d.journals == db.journals && d.journalOrder == db.journalOrder && d.currencies == db.currencies
      && d.AccountsKeyed()
    decreases |ps|
  {
    if ps == [] {
      assert TransactionIds(ps) == [];
    } else {
      WritePostingsUnfold(db, journalId, ps);
      var rest := ps[1..];
      var next := PostOne(db, journalId, ps[0]);
      assert forall k, l :: 0 <= k < l < |rest| ==> rest[k].accountNumber != rest[l].accountNumber by {
        forall k, l | 0 <= k < l < |rest| ensures rest[k].accountNumber != rest[l].accountNumber {
          assert rest[k] == ps[k + 1] && rest[l] == ps[l + 1];
        }
      }
      WritePostingsEffect(next, journalId, rest);
      PostingsWrittenCons(db, journalId, ps, WritePostings(next, journalId, rest).value);
    }
  }

  // ===========================================================================
  // PersistJournal as a whole

  /** The store after a committed journal: the journal row, the posting rows and the account
      updates of the posting loop, and nothing else. */
  ghost predicate CommittedState(db: Db, j: Journal, d: Db)
    requires Acceptable(db, j)
  {
    var ps := j.transactions;
    && d.journals == db.journals[j.journalId := JournalRecord(
         j.journalId, j.description,
         j.reversedJournal.Some?,
         if j.reversedJournal.Some? then j.reversedJournal.value.journalId else "",
         SideSum(ps, Credit), j.createBy)]
    && d.journalOrder == db.journalOrder + [j.journalId]
    && d.currencies == db.currencies
    && PostingsWritten(db, j.journalId, ps, d)
  }

  /** PersistJournal either changes nothing, or its checks all held and it wrote exactly the
      journal's rows and balances. It never changes the store and reports an error. It commits
      whenever the checks hold, the unit of work begins and commits, and no two postings share
      a transaction ID. When the checks hold and the unit of work fails it reports the begin
      error, the commit error, or (after a posting insert fails on a shared ID) the rollback's
      own result. */
  lemma PersistJournalEffect(db: Db, c: Option<Journal>, uow: UnitOfWork)
    requires db.Valid()
    ensures var r := PersistJournalSpec(db, c, uow);
      && (r.outcome.Fail? ==> r.db == db)
      && (r.db != db ==>
            && r.outcome == Pass && c.Some? && Acceptable(db, c.value)
            && !RepeatedTransactionId(c.value.transactions) && CommittedState(db, c.value, r.db))
    ensures var r := PersistJournalSpec(db, c, uow);
      c.Some? && Acceptable(db, c.value) && uow.beginError.None? && uow.commitError.None? &&
      !RepeatedTransactionId(c.value.transactions) ==>
        r.outcome == Pass && CommittedState(db, c.value, r.db)
    ensures var r := PersistJournalSpec(db, c, uow);
      c.Some? && Acceptable(db, c.value) && uow.beginError.Some? ==>
        r == Effect(Fail(Store(uow.beginError.value)), db)
    ensures var r := PersistJournalSpec(db, c, uow);
      c.Some? && Acceptable(db, c.value) && uow.beginError.None? && uow.commitError.Some? &&
      !RepeatedTransactionId(c.value.transactions) ==>
        r == Effect(Fail(Store(uow.commitError.value)), db)
    ensures var r := PersistJournalSpec(db, c, uow);
      c.Some? && Acceptable(db, c.value) && uow.beginError.None? &&
      RepeatedTransactionId(c.value.transactions) ==>
        r == Effect(RollbackOutcome(uow), db)
  {
    if c.Some? {
      ValidateAccepts(db, c.value);
      if Validate(db, c) == Pass && uow.beginError.None? {
        WritePhaseEffect(db, c.value, uow);
      }
    }
  }

  /** The write phase of PersistJournal, once the checks have passed and the unit of work has
      begun. */
  lemma WritePhaseEffect(db: Db, j: Journal, uow: UnitOfWork)
    requires db.Valid() && Acceptable(db, j) && Validate(db, Some(j)) == Pass && uow.beginError.None?
    ensures var r := PersistJournalSpec(db, Some(j), uow);
      && (r.outcome.Fail? ==> r.db == db)
      && (r.db != db ==> r.outcome == Pass && !RepeatedTransactionId(j.transactions) && CommittedState(db, j, r.db))
      && (uow.commitError.None? && !RepeatedTransactionId(j.transactions) ==>
            r.outcome == Pass && CommittedState(db, j, r.db))
      && (uow.commitError.Some? && !RepeatedTransactionId(j.transactions) ==>
            r == Effect(Fail(Store(uow.commitError.value)), db))
      && (RepeatedTransactionId(j.transactions) ==> r == Effect(RollbackOutcome(uow), db))
  {
    var ps := j.transactions;
    var withJournal := db.InsertJournal(NewJournalRecord(j, SideSum(ps, Credit)));
    WritePostingsFails(withJournal, j.journalId, ps);
    if WritePostings(withJournal, j.journalId, ps).Ok? {
      WrittenIsCommitted(db, j);
    }
  }

  /** A posting loop that succeeds after the journal row is written leaves CommittedState. */
  lemma WrittenIsCommitted(db: Db, j: Journal)
    requires db.Valid() && Acceptable(db, j)
    requires var withJournal := db.InsertJournal(NewJournalRecord(j, SideSum(j.transactions, Credit)));
      WritePostings(withJournal, j.journalId, j.transactions).Ok?
    ensures var withJournal := db.InsertJournal(NewJournalRecord(j, SideSum(j.transactions, Credit)));
      CommittedState(db, j, WritePostings(withJournal, j.journalId, j.transactions).value)
  {
    var ps := j.transactions;
    var withJournal := db.InsertJournal(NewJournalRecord(j, SideSum(ps, Credit)));
    var written := WritePostings(withJournal, j.journalId, ps);
    WritePostingsEffect(withJournal, j.journalId, ps);
    PostingsWrittenIgnoresJournals(withJournal, db, j.journalId, ps, written.value);
  }

  lemma PostingsWrittenIgnoresJournals(db: Db, other: Db, journalId: string, ps: seq<Transaction>, d: Db)
    requires AccountsPresent(db, ps) && PostingsWritten(db, journalId, ps, d)
    requires other.accounts == db.accounts && other.transactions == db.transactions
    requires other.transactionOrder == db.transactionOrder
    ensures AccountsPresent(other, ps) && PostingsWritten(other, journalId, ps, d)
  {
  }

  /** Two postings sharing a transaction ID pass every check; the second insert fails, the
      unit of work rolls back, and PersistJournal reports success having stored nothing. */
  lemma DuplicateTransactionIdReportsSuccess(db: Db, j: Journal, uow: UnitOfWork)
    requires db.Valid() && Validate(db, Some(j)) == Pass
    requires uow.beginError.None? && uow.rollbackError.None?
    requires RepeatedTransactionId(j.transactions)
    ensures PersistJournalSpec(db, Some(j), uow) == Effect(Pass, db)
  {
    var withJournal := db.InsertJournal(NewJournalRecord(j, SideSum(j.transactions, Credit)));
    WritePostingsFails(withJournal, j.journalId, j.transactions);
  }

  /** PersistJournal keeps the store's invariant. */
  lemma PersistJournalKeepsValid(db: Db, c: Option<Journal>, uow: UnitOfWork)
    requires db.Valid()
    ensures PersistJournalSpec(db, c, uow).db.Valid()
  {
    PersistJournalEffect(db, c, uow);
    var d := PersistJournalSpec(db, c, uow).db;
    if d != db {
      CommittedStateValid(db, c.value, d);
    }
  }

  lemma CommittedStateValid(db: Db, j: Journal, d: Db)
    requires db.Valid() && Acceptable(db, j) && CommittedState(db, j, d)
    ensures d.Valid()
  {
    var ps := j.transactions;
    TransactionsStillKeyed(db, j.journalId, ps, d);
    TransactionOrderStillCovers(db, ps, d);
    AccountsStillKeyed(db, ps, d);
    JournalsStillKeyed(db, j, d);
  }

  lemma JournalsStillKeyed(db: Db, j: Journal, d: Db)
    requires db.Valid() && Acceptable(db, j) && CommittedState(db, j, d)
    ensures forall id :: id in d.journalOrder <==> id in d.journals
    ensures forall id :: id in d.journals ==> d.journals[id].journalId == id
    ensures d.CurrenciesKeyed()
  {
  }

  lemma TransactionsStillKeyed(db: Db, journalId: string, ps: seq<Transaction>, d: Db)
    requires AccountsPresent(db, ps)
    requires forall id :: id in db.transactions ==>
      db.transactions[id].transactionId == id && db.transactions[id].journalId in db.journals
    requires db.journals.Keys + {journalId} <= d.journals.Keys
    requires forall k :: 0 <= k < |ps| ==>
      ps[k].transactionId in d.transactions &&
      d.transactions[ps[k].transactionId] ==
        PostingRecord(ps[k], journalId, NewBalance(db.accounts[ps[k].accountNumber], ps[k]))
    requires forall id :: id in db.transactions ==> id in d.transactions && d.transactions[id] == db.transactions[id]
    requires forall id :: id in d.transactions ==> id in db.transactions || id in TransactionIds(ps)
    ensures forall id :: id in d.transactions ==>
      d.transactions[id].transactionId == id && d.transactions[id].journalId in d.journals
  {
    forall id | id in d.transactions
      ensures d.transactions[id].transactionId == id && d.transactions[id].journalId in d.journals
    {
      if id !in db.transactions {
        var k :| 0 <= k < |ps| && TransactionIds(ps)[k] == id;
      }
    }
  }

  lemma TransactionOrderStillCovers(db: Db, ps: seq<Transaction>, d: Db)
    requires forall id :: id in db.transactionOrder <==> id in db.transactions
    requires forall k :: 0 <= k < |ps| ==> ps[k].transactionId in d.transactions
    requires forall id :: id in db.transactions ==> id in d.transactions
    requires forall id :: id in d.transactions ==> id in db.transactions || id in TransactionIds(ps)
    requires d.transactionOrder == db.transactionOrder + TransactionIds(ps)
    ensures forall id :: id in d.transactionOrder <==> id in d.transactions
  {
    forall id ensures id in d.transactionOrder <==> id in d.transactions {
      if id in TransactionIds(ps) {
        var k :| 0 <= k < |ps| && TransactionIds(ps)[k] == id;
      }
    }
  }

  lemma AccountsStillKeyed(db: Db, ps: seq<Transaction>, d: Db)
    requires db.AccountsKeyed() && AccountsPresent(db, ps)
    requires d.accounts.Keys == db.accounts.Keys
    requires forall k :: 0 <= k < |ps| ==>
      d.accounts[ps[k].accountNumber] == PostedAccount(db.accounts[ps[k].accountNumber], ps[k])
    requires forall a :: a in db.accounts && !Names(ps, a) ==> d.accounts[a] == db.accounts[a]
    ensures d.AccountsKeyed()
  {
    forall a | a in d.accounts ensures d.accounts[a].accountNumber == a {
      if Names(ps, a) {
        var k :| 0 <= k < |ps| && ps[k].accountNumber == a;
      }
    }
  }

  // ===========================================================================
  // Reading journals back

  /** The failure cases of GetJournalById: the store's error for an unknown ID, and
      ErrJournalLoadReversalInconsistent when the reversed journal does not load. */
  lemma GetJournalByIdErrors(db: Db, id: string, fuel: nat)
    ensures id !in db.journals ==> GetJournalById(db, id, fuel) == Err(Store(RecordNotFound))
    ensures (&& id in db.journals && db.journals[id].isReversal
             && (fuel == 0 || GetJournalById(db, db.journals[id].reversedJournalId, fuel - 1).Err?)) ==>
      GetJournalById(db, id, fuel) == Err(JournalLoadReversalInconsistent)
  {
  }

  /** A loaded journal mirrors its row; a reversal carries the journal it reverses; every posting
      belongs to it and reads as DEBIT exactly when its stored marker spells "debit" in any case. */
  lemma {:induction false} LoadedJournal(db: Db, id: string, fuel: nat)
    requires db.Valid()
    requires GetJournalById(db, id, fuel).Ok?
    ensures id in db.journals
    ensures var j := GetJournalById(db, id, fuel).value;
      var rec := db.journals[id];
      var rows := db.ListTransactionByJournalId(id);
      && j.journalId == id
      && j.description == rec.description
      && j.reversal == rec.isReversal
      && j.amount == rec.totalAmount
      && j.createBy == rec.createdBy
      && (j.reversedJournal.Some? <==> j.reversal)
      && (j.reversedJournal.Some? ==> j.reversedJournal.value.journalId == rec.reversedJournalId)
      && |j.transactions| == |rows|
      && (forall k :: 0 <= k < |rows| ==>
            j.transactions[k].journalId == id &&
            j.transactions[k].transactionId == rows[k].transactionId &&
            (j.transactions[k].transactionType == Debit <==> IsDebitSpelling(rows[k].alignment)))
    decreases fuel
  {
    var rec := db.journals[id];
    if rec.isReversal {
      LoadedJournal(db, rec.reversedJournalId, fuel - 1);
    }
    var rows := db.ListTransactionByJournalId(id);
    forall k | 0 <= k < |rows| ensures DecodeAlignment(rows[k].alignment) == Debit <==> IsDebitSpelling(rows[k].alignment) {
      DecodeAlignmentCases(rows[k].alignment);
    }
  }

  /** The result (without cycles to follow) does not depend on how much fuel is given. */
  lemma {:induction false} LoadWithMoreFuel(db: Db, id: string, fuel: nat, more: nat)
    requires fuel <= more
    requires GetJournalById(db, id, fuel).Ok?
    ensures GetJournalById(db, id, more) == GetJournalById(db, id, fuel)
    decreases fuel
  {
    var rec := db.journals[id];
    if rec.isReversal {
      LoadWithMoreFuel(db, rec.reversedJournalId, fuel - 1, more - 1);
    }
  }

  /** A journal that names itself as the journal it reverses never loads. */
  lemma {:induction false} SelfReversalNeverLoads(db: Db, id: string, fuel: nat)
    requires id in db.journals && db.journals[id].isReversal && db.journals[id].reversedJournalId == id
    ensures GetJournalById(db, id, fuel) == Err(JournalLoadReversalInconsistent)
    decreases fuel
  {
    if fuel > 0 {
      SelfReversalNeverLoads(db, id, fuel - 1);
    }
  }

  /** Hydrating a page keeps its order: the journals of two consecutive runs of rows are those
      of the first run followed by those of the second. */
  lemma {:induction false} HydrateAppend(db: Db, a: seq<JournalRecord>, b: seq<JournalRecord>, fuel: nat)
    ensures Hydrate(db, a + b, fuel) == Hydrate(db, a, fuel) + Hydrate(db, b, fuel)
    decreases |b|
  {
    if b == [] {
      assert a + b == a;
    } else {
      var front := b[..|b| - 1];
      var last := b[|b| - 1];
      assert b == front + [last];
      assert a + b == (a + front) + [last];
      HydrateStep(db, a + front, last, fuel);
      HydrateStep(db, front, last, fuel);
      HydrateAppend(db, a, front, fuel);
      var pa, pf := Hydrate(db, a, fuel), Hydrate(db, front, fuel);
      var loaded := GetJournalById(db, last.journalId, fuel);
      if loaded.Ok? {
        assert Hydrate(db, a + b, fuel) == (pa + pf) + [loaded.value];
        assert Hydrate(db, b, fuel) == pf + [loaded.value];
        assert (pa + pf) + [loaded.value] == pa + (pf + [loaded.value]);
      }
    }
  }

  /** A page holds exactly the journals that load from its rows. */
  lemma {:induction false} HydrateMembers(db: Db, recs: seq<JournalRecord>, fuel: nat)
    ensures forall x :: x in Hydrate(db, recs, fuel) <==>
      exists k :: 0 <= k < |recs| && GetJournalById(db, recs[k].journalId, fuel) == Ok(x)
    decreases |recs|
  {
    if recs != [] {
      var front := recs[..|recs| - 1];
      HydrateMembers(db, front, fuel);
      assert forall k :: 0 <= k < |front| ==> front[k] == recs[k];
    }
  }

  /** Posting rows decode back to the posting they were written from, with the journal's ID and
      the balance the posting left. */
  lemma DecodePostingRecord(t: Transaction, journalId: string, balance: Int64)
    ensures DecodeTransaction(PostingRecord(t, journalId, balance)) ==
      t.(journalId := journalId, accountBalance := balance)
  {
    DecodeEncode(t.transactionType);
  }

  // ===========================================================================
  // Writing a journal and reading it back

  /** The postings as a committed journal holds them: tagged with the journal's ID and carrying
      the balance each left on its account. */
  function AsPosted(db: Db, journalId: string, ps: seq<Transaction>): (r: seq<Transaction>)
    requires AccountsPresent(db, ps)
    ensures |r| == |ps|
  {
    seq(|ps|, k requires 0 <= k < |ps| =>
      ps[k].(journalId := journalId, accountBalance := NewBalance(db.accounts[ps[k].accountNumber], ps[k])))
  }

  lemma {:induction false} PostingsOfAppend(a: seq<string>, b: seq<string>, txs: map<string, TransactionRecord>, journalId: string)
    ensures PostingsOf(a + b, txs, journalId) == PostingsOf(a, txs, journalId) + PostingsOf(b, txs, journalId)
    decreases |b|
  {
    if b == [] {
      assert a + b == a;
    } else {
      var front := b[..|b| - 1];
      assert (a + b)[..|a + b| - 1] == a + front;
      PostingsOfAppend(a, front, txs, journalId);
    }
  }

  lemma {:induction false} PostingsOfNone(order: seq<string>, txs: map<string, TransactionRecord>, journalId: string)
    requires forall k :: 0 <= k < |order| && order[k] in txs ==> txs[order[k]].journalId != journalId
    ensures PostingsOf(order, txs, journalId) == []
    decreases |order|
  {
    if order != [] {
      PostingsOfNone(order[..|order| - 1], txs, journalId);
    }
  }

  lemma {:induction false} PostingsOfAll(order: seq<string>, txs: map<string, TransactionRecord>, journalId: string)
    requires forall k :: 0 <= k < |order| ==> order[k] in txs && txs[order[k]].journalId == journalId
    ensures var r := PostingsOf(order, txs, journalId);
      |r| == |order| && forall k :: 0 <= k < |order| ==> r[k] == txs[order[k]]
    decreases |order|
  {
    if order != [] {
      PostingsOfAll(order[..|order| - 1], txs, journalId);
    }
  }

  /** The postings of a committed journal are read back as the journal's own postings, in the
      order given, with the journal's ID and the balances they left. */
  lemma CommittedPostingsLoad(db: Db, j: Journal, d: Db)
    requires db.Valid() && Acceptable(db, j) && CommittedState(db, j, d)
    ensures DecodeAll(d.ListTransactionByJournalId(j.journalId)) == AsPosted(db, j.journalId, j.transactions)
  {
    assert forall id :: id in db.transactions ==> db.transactions[id].journalId != j.journalId;
    assert PostingsWritten(db, j.journalId, j.transactions, d);
    PostingsLoad(db, j.journalId, j.transactions, d);
  }

  /** The postings read back for a journal no earlier row belonged to are those its postings
      wrote, decoded. */
  lemma PostingsLoad(db: Db, journalId: string, ps: seq<Transaction>, d: Db)
    requires AccountsPresent(db, ps)
    requires forall id :: id in db.transactionOrder ==> id in db.transactions
    requires forall id :: id in db.transactions ==> db.transactions[id].journalId != journalId
    requires forall k :: 0 <= k < |ps| ==>
      ps[k].transactionId in d.transactions &&
      d.transactions[ps[k].transactionId] ==
        PostingRecord(ps[k], journalId, NewBalance(db.accounts[ps[k].accountNumber], ps[k]))
    requires forall id :: id in db.transactions ==> id in d.transactions && d.transactions[id] == db.transactions[id]
    requires d.transactionOrder == db.transactionOrder + TransactionIds(ps)
    ensures DecodeAll(d.ListTransactionByJournalId(journalId)) == AsPosted(db, journalId, ps)
  {
    PostedRows(db, journalId, ps, d);
    var rows := d.ListTransactionByJournalId(journalId);
    forall k | 0 <= k < |ps|
      ensures DecodeAll(rows)[k] == AsPosted(db, journalId, ps)[k]
    {
      DecodePostingRecord(ps[k], journalId, NewBalance(db.accounts[ps[k].accountNumber], ps[k]));
    }
  }

  /** The rows listed for a journal no earlier row belonged to are the rows its postings wrote. */
  lemma PostedRows(db: Db, journalId: string, ps: seq<Transaction>, d: Db)
    requires AccountsPresent(db, ps)
    requires forall id :: id in db.transactionOrder ==> id in db.transactions
    requires forall id :: id in db.transactions ==> db.transactions[id].journalId != journalId
    requires forall k :: 0 <= k < |ps| ==>
      ps[k].transactionId in d.transactions &&
      d.transactions[ps[k].transactionId] ==
        PostingRecord(ps[k], journalId, NewBalance(db.accounts[ps[k].accountNumber], ps[k]))
    requires forall id :: id in db.transactions ==> id in d.transactions && d.transactions[id] == db.transactions[id]
    requires d.transactionOrder == db.transactionOrder + TransactionIds(ps)
    ensures var rows := d.ListTransactionByJournalId(journalId);
      |rows| == |ps| &&
      forall k :: 0 <= k < |ps| ==>
        rows[k] == PostingRecord(ps[k], journalId, NewBalance(db.accounts[ps[k].accountNumber], ps[k]))
  {
    var ids := TransactionIds(ps);
    PostingsOfAppend(db.transactionOrder, ids, d.transactions, journalId);
    forall k | 0 <= k < |db.transactionOrder| && db.transactionOrder[k] in d.transactions
      ensures d.transactions[db.transactionOrder[k]].journalId != journalId
    {
      assert db.transactionOrder[k] in db.transactions;
    }
    PostingsOfNone(db.transactionOrder, d.transactions, journalId);
    PostingsOfAll(ids, d.transactions, journalId);
    var mine := PostingsOf(ids, d.transactions, journalId);
    var rows := d.ListTransactionByJournalId(journalId);
    assert rows == [] + mine;
    forall k | 0 <= k < |ps|
      ensures rows[k] == PostingRecord(ps[k], journalId, NewBalance(db.accounts[ps[k].accountNumber], ps[k]))
    {
      assert mine[k] == d.transactions[ids[k]];
    }
  }

  /** A journal PersistJournal has committed loads back as written: its description and author,
      the credit total as its amount, its reversal flag, the journal it reverses when that one
      loads, and its postings as AsPosted gives them. */
  lemma PersistThenLoad(db: Db, j: Journal, uow: UnitOfWork, fuel: nat)
    requires db.Valid()
    requires PersistJournalSpec(db, Some(j), uow).db != db
    ensures var d := PersistJournalSpec(db, Some(j), uow).db;
      var ps := j.transactions;
      var posted := AsPosted(db, j.journalId, ps);
      && (j.reversedJournal.None? ==>
            GetJournalById(d, j.journalId, fuel) ==
              Ok(Journal(j.journalId, j.description, false, None, SideSum(ps, Credit), posted, j.createBy)))
      && (j.reversedJournal.Some? && fuel > 0 && GetJournalById(d, j.reversedJournal.value.journalId, fuel - 1).Ok? ==>
            GetJournalById(d, j.journalId, fuel) ==
              Ok(Journal(j.journalId, j.description, true,
                         Some(GetJournalById(d, j.reversedJournal.value.journalId, fuel - 1).value),
                         SideSum(ps, Credit), posted, j.createBy)))
  {
    PersistJournalEffect(db, Some(j), uow);
    CommittedLoad(db, j, PersistJournalSpec(db, Some(j), uow).db, fuel);
  }

  lemma CommittedLoad(db: Db, j: Journal, d: Db, fuel: nat)
    requires db.Valid() && Acceptable(db, j) && CommittedState(db, j, d)
    ensures var ps := j.transactions;
      var posted := AsPosted(db, j.journalId, ps);
      && (j.reversedJournal.None? ==>
            GetJournalById(d, j.journalId, fuel) ==
              Ok(Journal(j.journalId, j.description, false, None, SideSum(ps, Credit), posted, j.createBy)))
      && (j.reversedJournal.Some? && fuel > 0 && GetJournalById(d, j.reversedJournal.value.journalId, fuel - 1).Ok? ==>
            GetJournalById(d, j.journalId, fuel) ==
              Ok(Journal(j.journalId, j.description, true,
                         Some(GetJournalById(d, j.reversedJournal.value.journalId, fuel - 1).value),
                         SideSum(ps, Credit), posted, j.createBy)))
  {
    CommittedPostingsLoad(db, j, d);
    assert d.GetJournal(j.journalId) == Ok(NewJournalRecord(j, SideSum(j.transactions, Credit)));
  }
}

/** Concrete ledgers that exhibit the behaviour of PersistJournal, including where it differs from
    what its callers might expect. */
module Scenarios {
  import opened Base
  import opened Records
  import opened Storage
  import opened JournalLedger
  import opened JournalProperties
  import opened AccountRegistry

  const NoFailures := UnitOfWork(None, None, None)

  function UsdAccount(id: string, alignment: string, balance: Int64): AccountRecord
  {
    AccountRecord(id, id, "USD", id, alignment, balance, "1.1", "admin", "admin")
  }

  /** A1 is a DEBIT account holding 1000, A2 a CREDIT account holding 500, both in USD. */
  function TwoAccounts(): Db
  {
    EmptyDb.(
      accounts := map["A1" := UsdAccount("A1", "DEBIT", 1000), "A2" := UsdAccount("A2", "CREDIT", 500)],
      currencies := map["USD" := CurrencyRecord("USD", "Dollar", Float64One, "admin", "admin")])
  }

  function Posting(id: string, account: string, side: Alignment, amount: Int64): Transaction
  {
    Transaction(id, 0, account, "", "posting", side, amount, 0, "clerk")
  }

  function PlainJournal(id: string, ps: seq<Transaction>): Journal
  {
    Journal(id, "journal", false, None, 0, ps, "clerk")
  }

  /** What a posting adds to the total of one side. */
  function Part(t: Transaction, side: Alignment): int
  {
    if t.transactionType == side then t.amount else 0
  }

  lemma ExactSideSumSnoc(ps: seq<Transaction>, t: Transaction, side: Alignment)
    ensures ExactSideSum(ps + [t], side) == ExactSideSum(ps, side) + Part(t, side)
  {
    assert (ps + [t])[..|ps|] == ps;
  }

  /** The int64 total of one side of a two-posting journal whose amounts do not overflow. */
  lemma PairSideSum(p: Transaction, q: Transaction, side: Alignment)
    requires MinInt64 <= Part(p, side) + Part(q, side) <= MaxInt64
    ensures SideSum([p, q], side) == Part(p, side) + Part(q, side)
  {
    ExactSideSumSnoc([], p, side);
    ExactSideSumSnoc([p], q, side);
    assert [] + [p] == [p] && [p] + [q] == [p, q];
    SideSumWraps([p, q], side);
  }

  lemma TwoAccountsValid()
    ensures TwoAccounts().Valid()
  {
  }

  function J1Postings(): seq<Transaction>
  {
    [Posting("T1", "A1", Debit, 100), Posting("T2", "A2", Credit, 100)]
  }

  lemma J1Acceptable()
    ensures Acceptable(TwoAccounts(), PlainJournal("J1", J1Postings()))
    ensures !RepeatedTransactionId(J1Postings())
  {
    var ps := J1Postings();
    PairSideSum(ps[0], ps[1], Debit);
    PairSideSum(ps[0], ps[1], Credit);
  }

  /** Debiting the DEBIT account and crediting the CREDIT account raises both balances. */
  lemma BalancedJournalPostsBoth()
    ensures var r := PersistJournalSpec(TwoAccounts(), Some(PlainJournal("J1", J1Postings())), NoFailures);
      && r.outcome == Pass
      && r.db.accounts.Keys == {"A1", "A2"}
      && r.db.accounts["A1"].balance == 1100
      && r.db.accounts["A2"].balance == 600
      && r.db.journals.Keys == {"J1"} && r.db.journals["J1"].totalAmount == 100
      && r.db.transactionOrder == ["T1", "T2"]
  {
    var db := TwoAccounts();
    var j := PlainJournal("J1", J1Postings());
    TwoAccountsValid();
    J1Acceptable();
    PersistJournalEffect(db, Some(j), NoFailures);
    J1Committed(PersistJournalSpec(db, Some(j), NoFailures).db);
  }

  lemma J1Committed(d: Db)
    requires Acceptable(TwoAccounts(), PlainJournal("J1", J1Postings()))
    requires CommittedState(TwoAccounts(), PlainJournal("J1", J1Postings()), d)
    ensures d.accounts.Keys == {"A1", "A2"}
    ensures d.accounts["A1"].balance == 1100 && d.accounts["A2"].balance == 600
    ensures d.journals.Keys == {"J1"} && d.journals["J1"].totalAmount == 100
    ensures d.transactionOrder == ["T1", "T2"]
  {
    var ps := J1Postings();
    PairSideSum(ps[0], ps[1], Credit);
    J1Accounts(d);
    J1Order(d);
  }

  lemma J1Accounts(d: Db)
    requires PostingsWritten(TwoAccounts(), "J1", J1Postings(), d)
    ensures d.accounts.Keys == {"A1", "A2"}
    ensures d.accounts["A1"].balance == 1100 && d.accounts["A2"].balance == 600
  {
    var db := TwoAccounts();
    var ps := J1Postings();
    assert d.accounts[ps[0].accountNumber] == PostedAccount(db.accounts["A1"], ps[0]);
    assert d.accounts[ps[1].accountNumber] == PostedAccount(db.accounts["A2"], ps[1]);
  }

  lemma J1Order(d: Db)
    requires PostingsWritten(TwoAccounts(), "J1", J1Postings(), d)
    ensures d.transactionOrder == ["T1", "T2"]
  {
    assert TransactionIds(J1Postings()) == ["T1", "T2"];
  }

  /** A journal whose sides differ is refused and nothing is written. */
  lemma UnbalancedJournalRefused()
    ensures var db := TwoAccounts();
      var j := PlainJournal("J1", [Posting("T1", "A1", Debit, 100), Posting("T2", "A2", Credit, 90)]);
      PersistJournalSpec(db, Some(j), NoFailures) == Effect(Fail(JournalNotBalance), db)
  {
    var ps := [Posting("T1", "A1", Debit, 100), Posting("T2", "A2", Credit, 90)];
    TwoAccountsValid();
    PairSideSum(ps[0], ps[1], Debit);
    PairSideSum(ps[0], ps[1], Credit);
  }

  function SharedIdPostings(): seq<Transaction>
  {
    [Posting("T1", "A1", Debit, 100), Posting("T1", "A2", Credit, 100)]
  }

  lemma SharedIdAccepted()
    ensures Validate(TwoAccounts(), Some(PlainJournal("J1", SharedIdPostings()))) == Pass
    ensures RepeatedTransactionId(SharedIdPostings())
  {
    var ps := SharedIdPostings();
    TwoAccountsValid();
    PairSideSum(ps[0], ps[1], Debit);
    PairSideSum(ps[0], ps[1], Credit);
    assert Acceptable(TwoAccounts(), PlainJournal("J1", ps));
    ValidateAccepts(TwoAccounts(), PlainJournal("J1", ps));
    assert ps[0].transactionId == ps[1].transactionId;
  }

  /** Two postings with one transaction ID pass every check; the second insert fails and the
      call reports success with nothing stored. */
  lemma SharedTransactionIdLost()
    ensures PersistJournalSpec(TwoAccounts(), Some(PlainJournal("J1", SharedIdPostings())), NoFailures) ==
      Effect(Pass, TwoAccounts())
  {
    TwoAccountsValid();
    SharedIdAccepted();
    DuplicateTransactionIdReportsSuccess(TwoAccounts(), PlainJournal("J1", SharedIdPostings()), NoFailures);
  }

  /** J1 with J2 already reversing it. */
  function ReversedOnce(): Db
  {
    TwoAccounts().(
      journals := map["J1" := JournalRecord("J1", "journal", false, "", 100, "clerk"),
                      "J2" := JournalRecord("J2", "reverse J1", true, "J1", 100, "clerk")],
      journalOrder := ["J1", "J2"])
  }

  function SecondReversal(): Journal
  {
    Journal("J3", "reverse J1 again", true, Some(PlainJournal("J1", [])), 0,
            [Posting("T5", "A1", Credit, 100), Posting("T6", "A2", Debit, 100)], "clerk")
  }

  lemma ReversedOnceValid()
    ensures ReversedOnce().Valid()
  {
  }

  /** J2 already reverses J1, yet J3, reversing J1 again, passes every check: check 9 asks about
      J3's own ID. */
  lemma SecondReversalAccepted()
    ensures IsJournalIdReversed(ReversedOnce(), "J1")
    ensures Validate(ReversedOnce(), Some(SecondReversal())) == Pass
  {
    var db := ReversedOnce();
    ReversedOnceValid();
    assert db.journals["J2"].reversedJournalId == "J1";
    SecondReversalAcceptable();
    ValidateAccepts(db, SecondReversal());
  }

  lemma SecondReversalAcceptable()
    ensures Acceptable(ReversedOnce(), SecondReversal())
  {
    var db := ReversedOnce();
    var j := SecondReversal();
    var ps := j.transactions;
    PairSideSum(ps[0], ps[1], Debit);
    PairSideSum(ps[0], ps[1], Credit);
    assert CheckHolds(db, j, 5);
    assert CheckHolds(db, j, 9);
  }

  /** A journal may name itself as the journal it reverses: J3 reversing J3 passes every check.
      Committed, its row would name itself, and such a row never loads (SelfReversalNeverLoads). */
  lemma SelfReversalAccepted()
    ensures Validate(ReversedOnce(), Some(SecondReversal().(reversedJournal := Some(PlainJournal("J3", []))))) == Pass
  {
    SecondReversalAccepted();
    ReversalTargetIgnored(ReversedOnce(), SecondReversal(), PlainJournal("J3", []));
  }

  const TwoTo62: Int64 := 0x4000_0000_0000_0000

  /** Four debits of 2^62 against a credit of 0 pass the balance check: the debit total wraps
      to 0 in int64. */
  lemma OverflowingDebitsBalance()
    ensures var ps := [Posting("T1", "A1", Debit, TwoTo62), Posting("T2", "A2", Debit, TwoTo62),
                       Posting("T3", "A3", Debit, TwoTo62), Posting("T4", "A4", Debit, TwoTo62),
                       Posting("T5", "A5", Credit, 0)];
      && SideSum(ps, Debit) == SideSum(ps, Credit)
      && ExactSideSum(ps, Debit) - ExactSideSum(ps, Credit) == TwoTo64
  {
    var d := Posting("T1", "A1", Debit, TwoTo62);
    var ps := [d, d.(transactionId := "T2", accountNumber := "A2"), d.(transactionId := "T3", accountNumber := "A3"),
               d.(transactionId := "T4", accountNumber := "A4"), Posting("T5", "A5", Credit, 0)];
    forall side: Alignment ensures ExactSideSum(ps, side) == Part(ps[0], side) + Part(ps[1], side) +
      Part(ps[2], side) + Part(ps[3], side) + Part(ps[4], side)
    {
      ExactSideSumSnoc([], ps[0], side);
      ExactSideSumSnoc(ps[..1], ps[1], side);
      ExactSideSumSnoc(ps[..2], ps[2], side);
      ExactSideSumSnoc(ps[..3], ps[3], side);
      ExactSideSumSnoc(ps[..4], ps[4], side);
      assert [] + [ps[0]] == ps[..1];
      assert ps[..1] + [ps[1]] == ps[..2];
      assert ps[..2] + [ps[2]] == ps[..3];
      assert ps[..3] + [ps[3]] == ps[..4];
      assert ps[..4] + [ps[4]] == ps;
    }
    BalanceCheckIsModular(ps);
  }

  /** An account whose stored marker is "debit" in lower case reads back as a DEBIT account, but
      a DEBIT posting to it is subtracted, because the write path compares markers exactly. */
  lemma LowerCaseMarkerSubtracts()
    ensures var db := TwoAccounts().(accounts := map["A3" := UsdAccount("A3", "debit", 1000)]);
      && GetAccountById(db, "A3").baseTransactionType == Debit
      && NewBalance(db.accounts["A3"], Posting("T1", "A3", Debit, 100)) == 900
  {
    DecodeAlignmentCases("debit");
  }
}

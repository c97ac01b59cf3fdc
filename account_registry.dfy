/** The account manager (MySQLManagerImpl.go:510-651): creating, updating and reading accounts. */
module AccountRegistry {
  import opened Base
  import opened Records
  import opened Storage

  /** The four required fields, checked in this order (527-538 and 576-587). */
  function RequiredAccountFields(a: Account): (r: Outcome<Error>)
    ensures r == Pass <==>
      |a.accountNumber| > 0 && |a.name| > 0 && |a.description| > 0 && |a.createBy| > 0
    ensures r.Fail? ==> r.error in {AccountMissingID, AccountMissingName, AccountMissingDescription, AccountMissingCreator}
    ensures |a.accountNumber| == 0 ==> r == Fail(AccountMissingID)
    ensures |a.accountNumber| > 0 && |a.name| == 0 ==> r == Fail(AccountMissingName)
    ensures |a.accountNumber| > 0 && |a.name| > 0 && |a.description| == 0 ==> r == Fail(AccountMissingDescription)
    ensures |a.accountNumber| > 0 && |a.name| > 0 && |a.description| > 0 && |a.createBy| == 0 ==>
      r == Fail(AccountMissingCreator)
  {
    if |a.accountNumber| == 0 then Fail(AccountMissingID)
    else if |a.name| == 0 then Fail(AccountMissingName)
    else if |a.description| == 0 then Fail(AccountMissingDescription)
    else if |a.createBy| == 0 then Fail(AccountMissingCreator)
    else Pass
  }

  /** The row written for an account (549-566 and 598-615). */
  function EncodeAccount(a: Account): AccountRecord
  {
    AccountRecord(a.accountNumber, a.name, a.currency, a.description,
                  EncodeAlignment(a.baseTransactionType), a.balance, a.coa, a.createBy, a.updateBy)
  }

  /** A stored row read back into an Account (640-648). */
  function DecodeAccount(rec: AccountRecord): Account
  {
    Account(rec.accountNumber, rec.name, rec.description, rec.coa, rec.currencyCode,
            DecodeAlignment(rec.alignment), rec.balance, rec.createdBy, rec.updatedBy)
  }

  /** Every account the manager writes reads back unchanged. */
  lemma DecodeEncodeAccount(a: Account)
    ensures DecodeAccount(EncodeAccount(a)) == a
  {
    DecodeEncode(a.baseTransactionType);
  }

  /** IsAccountIdExist (622-631). */
  function IsAccountIdExist(db: Db, id: string): (r: bool)
    ensures r <==> id in db.accounts
  {
    db.GetAccount(id).Some?
  }

  /** GetAccountById (634-651). The code reads the row without checking it was found, so the
      account must exist. */
  function GetAccountById(db: Db, id: string): (r: Account)
    requires id in db.accounts
    ensures db.AccountsKeyed() ==> r.accountNumber == id
    ensures r.balance == db.accounts[id].balance && r.currency == db.accounts[id].currencyCode
    ensures r.baseTransactionType == Debit <==> IsDebitSpelling(db.accounts[id].alignment)
  {
    DecodeAlignmentCases(db.accounts[id].alignment);
    DecodeAccount(db.GetAccount(id).value)
  }

  /** PersistAccount (526-570): the required fields, then the account's currency must be stored,
      then the row is inserted, which fails on an account number already in use. */
  function PersistAccountSpec(db: Db, a: Account): Effect
  {
    match RequiredAccountFields(a)
    case Fail(e) => Effect(Fail(e), db)
    case Pass =>
      if db.GetCurrency(a.currency).None? then Effect(Fail(CurrencyNotFound), db)
      else
        match db.InsertAccount(EncodeAccount(a))
        case Err(e) => Effect(Fail(Store(e)), db)
        case Ok(d) => Effect(Pass, d)
  }

  /** UpdateAccount (574-619): the required fields, then the account must exist; the whole row is
      then overwritten, balance, currency and creator included. The currency is not checked. */
  function UpdateAccountSpec(db: Db, a: Account): Effect
  {
    match RequiredAccountFields(a)
    case Fail(e) => Effect(Fail(e), db)
    case Pass =>
      if !IsAccountIdExist(db, a.accountNumber) then Effect(Fail(AccountIsNotPersisted), db)
      else Effect(Pass, db.UpdateAccount(EncodeAccount(a)))
  }

  class AccountManager {
    const repo: Store

    constructor (repo: Store)
      ensures this.repo == repo
    {
      this.repo := repo;
    }

    /** PersistAccount (526-570). */
    method PersistAccount(a: Account) returns (err: Outcome<Error>)
      modifies repo
      ensures Effect(err, repo.Snapshot()) == PersistAccountSpec(old(repo.Snapshot()), a)
    {
      err := RequiredAccountFields(a);
      if err.Fail? {
        return;
      }
      if a.currency !in repo.currencies {
        return Fail(CurrencyNotFound);
      }
      var insertErr := repo.InsertAccount(EncodeAccount(a));
      if insertErr.Some? {
        return Fail(Store(insertErr.value));
      }
      err := Pass;
    }

    /** UpdateAccount (574-619). */
    method UpdateAccount(a: Account) returns (err: Outcome<Error>)
      modifies repo
      ensures Effect(err, repo.Snapshot()) == UpdateAccountSpec(old(repo.Snapshot()), a)
    {
      err := RequiredAccountFields(a);
      if err.Fail? {
        return;
      }
      if a.accountNumber !in repo.accounts {
        return Fail(AccountIsNotPersisted);
      }
      repo.UpdateAccount(EncodeAccount(a));
    }
  }

  // ===========================================================================
  // Properties

  /** PersistAccount succeeds exactly when the fields are present, the currency is stored and the
      account number is new; it then adds that one row, and otherwise changes nothing. A missing
      field gives the first field check's error. */
  lemma PersistAccountEffect(db: Db, a: Account)
    ensures var r := PersistAccountSpec(db, a);
      && (r.outcome == Pass <==>
            RequiredAccountFields(a) == Pass && a.currency in db.currencies && a.accountNumber !in db.accounts)
      && (r.outcome == Pass ==> r.db == db.(accounts := db.accounts[a.accountNumber := EncodeAccount(a)]))
      && (r.outcome.Fail? ==> r.db == db)
      && (RequiredAccountFields(a).Fail? ==> r.outcome == RequiredAccountFields(a))
      && (RequiredAccountFields(a) == Pass && a.currency !in db.currencies ==> r.outcome == Fail(CurrencyNotFound))
      && (RequiredAccountFields(a) == Pass && a.currency in db.currencies && a.accountNumber in db.accounts ==>
            r.outcome == Fail(Store(DuplicateKey)))
  {
  }

  /** UpdateAccount succeeds exactly when the fields are present and the account is stored; it
      then replaces that one row, and otherwise changes nothing. A missing field gives the first
      field check's error. */
  lemma UpdateAccountEffect(db: Db, a: Account)
    ensures var r := UpdateAccountSpec(db, a);
      && (r.outcome == Pass <==> RequiredAccountFields(a) == Pass && a.accountNumber in db.accounts)
      && (r.outcome == Pass ==> r.db == db.(accounts := db.accounts[a.accountNumber := EncodeAccount(a)]))
      && (r.outcome.Fail? ==> r.db == db)
      && (RequiredAccountFields(a).Fail? ==> r.outcome == RequiredAccountFields(a))
      && (RequiredAccountFields(a) == Pass && a.accountNumber !in db.accounts ==> r.outcome == Fail(AccountIsNotPersisted))
  {
  }

  /** A persisted account reads back as it was given. */
  lemma PersistThenGet(db: Db, a: Account)
    requires PersistAccountSpec(db, a).outcome == Pass
    ensures var d := PersistAccountSpec(db, a).db;
      IsAccountIdExist(d, a.accountNumber) && GetAccountById(d, a.accountNumber) == a
  {
    DecodeEncodeAccount(a);
  }

  /** An updated account reads back as it was given, whatever it held before. */
  lemma UpdateThenGet(db: Db, a: Account)
    requires UpdateAccountSpec(db, a).outcome == Pass
    ensures GetAccountById(UpdateAccountSpec(db, a).db, a.accountNumber) == a
  {
    DecodeEncodeAccount(a);
  }

  /** Updating leaves every other account as it was. */
  lemma UpdateLeavesOthers(db: Db, a: Account, id: string)
    requires id != a.accountNumber && id in db.accounts
    ensures var d := UpdateAccountSpec(db, a).db;
      id in d.accounts && GetAccountById(d, id) == GetAccountById(db, id)
  {
  }

  /** Both calls keep the store's invariant. */
  lemma AccountCallsKeepValid(db: Db, a: Account)
    requires db.Valid()
    ensures PersistAccountSpec(db, a).db.Valid()
    ensures UpdateAccountSpec(db, a).db.Valid()
  {
    PersistAccountKeepsValid(db, a);
    UpdateAccountKeepsValid(db, a);
  }

  lemma PersistAccountKeepsValid(db: Db, a: Account)
    requires db.Valid()
    ensures PersistAccountSpec(db, a).db.Valid()
  {
  }

  lemma UpdateAccountKeepsValid(db: Db, a: Account)
    requires db.Valid()
    ensures UpdateAccountSpec(db, a).db.Valid()
  {
  }
}

/** The exchange manager's currency table (MySQLManagerImpl.go:748-822). Exchange values are
    kept as float64 bit patterns and only stored and returned. */
module ExchangeTable {
  import opened Base
  import opened Records
  import opened Storage

  /** IsCurrencyExist (760-769). */
  function IsCurrencyExist(db: Db, code: string): (r: bool)
    ensures r <==> code in db.currencies
  {
    db.GetCurrency(code).Some?
  }

  /** GetExchangeValueOf (809-822): the stored value, or ErrCurrencyNotFound. */
  function GetExchangeValueOf(db: Db, code: string): (r: Result<Float64, Error>)
    ensures r.Ok? <==> code in db.currencies
    ensures r.Ok? ==> r.value == db.currencies[code].exchange
    ensures r.Err? ==> r.error == CurrencyNotFound
  {
    if IsCurrencyExist(db, code) then Ok(db.GetCurrency(code).value.exchange)
    else Err(CurrencyNotFound)
  }

  /** SetExchangeValueOf (782-805). A currency that is not stored yet is created, named by its
      code, with exchange value 0: the value given is dropped. A stored one gets the value and
      the author as its updater. */
  function SetExchangeValueOfSpec(db: Db, code: string, exchange: Float64, author: string): Db
    requires db.CurrenciesKeyed()
  {
    match db.GetCurrency(code)
    case None => db.InsertCurrency(CurrencyRecord(code, code, Float64Zero, author, author))
    case Some(rec) => db.UpdateCurrency(rec.(exchange := exchange, updatedBy := author))
  }

  class ExchangeManager {
    const repo: Store
    /** Used only by the exchange-rate arithmetic, which is not part of this model. */
    var commonDenominator: Float64

    /** NewMySQLExchangeManager (748-750): the common denominator starts at 1.0. */
    constructor (repo: Store)
      ensures this.repo == repo && commonDenominator == Float64One
    {
      this.repo := repo;
      commonDenominator := Float64One;
    }

    /** SetExchangeValueOf (782-805). Neither store write can fail here. */
    method SetExchangeValueOf(code: string, exchange: Float64, author: string) returns (err: Outcome<Error>)
      requires repo.Snapshot().CurrenciesKeyed()
      modifies repo
      ensures err == Pass
      ensures repo.Snapshot() == SetExchangeValueOfSpec(old(repo.Snapshot()), code, exchange, author)
    {
      if code !in repo.currencies {
        repo.InsertCurrency(CurrencyRecord(code, code, Float64Zero, author, author));
      } else {
        var rec := repo.currencies[code];
        repo.UpdateCurrency(rec.(exchange := exchange, updatedBy := author));
      }
      err := Pass;
    }
  }

  // ===========================================================================
  // Properties

  /** After a set the currency exists; it holds the value given when it already existed, and 0
      when the call created it. A created currency is named by its code and has the author as
      creator and updater; a stored one keeps every field but the value and the updater. */
  lemma SetThenGet(db: Db, code: string, exchange: Float64, author: string)
    requires db.CurrenciesKeyed()
    ensures var d := SetExchangeValueOfSpec(db, code, exchange, author);
      && IsCurrencyExist(d, code)
      && GetExchangeValueOf(d, code) == Ok(if code in db.currencies then exchange else Float64Zero)
      && d.currencies[code].updatedBy == author
    ensures var d := SetExchangeValueOfSpec(db, code, exchange, author);
      code !in db.currencies ==>
        && d.currencies[code].code == code && d.currencies[code].name == code
        && d.currencies[code].createdBy == author
    ensures var d := SetExchangeValueOfSpec(db, code, exchange, author);
      code in db.currencies ==>
        && d.currencies[code].code == db.currencies[code].code
        && d.currencies[code].name == db.currencies[code].name
        && d.currencies[code].createdBy == db.currencies[code].createdBy
  {
  }

  /** A set touches one currency record and nothing else: every other currency keeps its
      record, and the other tables and both listing orders are as before. */
  lemma SetLeavesOthers(db: Db, code: string, exchange: Float64, author: string, other: string)
    requires db.CurrenciesKeyed()
    requires other != code
    ensures var d := SetExchangeValueOfSpec(db, code, exchange, author);
      && GetExchangeValueOf(d, other) == GetExchangeValueOf(db, other)
      && (other in d.currencies <==> other in db.currencies)
      && (other in db.currencies ==> d.currencies[other] == db.currencies[other])
      && d == db.(currencies := d.currencies)
  {
  }

  /** The first set of a new currency only registers it; a second set stores the value. */
  lemma SetTwiceStoresValue(db: Db, code: string, exchange: Float64, author: string)
    requires db.CurrenciesKeyed()
    ensures var d := SetExchangeValueOfSpec(SetExchangeValueOfSpec(db, code, exchange, author), code, exchange, author);
      GetExchangeValueOf(d, code) == Ok(exchange)
  {
    SetThenGet(db, code, exchange, author);
    SetThenGet(SetExchangeValueOfSpec(db, code, exchange, author), code, exchange, author);
  }

  /** Setting a stored currency is idempotent. */
  lemma SetIdempotent(db: Db, code: string, exchange: Float64, author: string)
    requires db.CurrenciesKeyed()
    requires code in db.currencies
    ensures var once := SetExchangeValueOfSpec(db, code, exchange, author);
      SetExchangeValueOfSpec(once, code, exchange, author) == once
  {
  }

  lemma SetKeepsValid(db: Db, code: string, exchange: Float64, author: string)
    requires db.Valid()
    ensures SetExchangeValueOfSpec(db, code, exchange, author).Valid()
  {
  }
}

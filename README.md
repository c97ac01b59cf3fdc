# hyper-wallet accounting managers in Dafny

This project models the MySQL-backed managers of the hyper-wallet double-entry ledger
(`internal/accounting/MySQLManagerImpl.go`):

- the **journal manager**: persisting a journal with its postings, the nine checks that come first,
  the balance updates of the write phase, reading a journal back (with the journal it reverses),
  and listing a page of journals;
- the **transaction manager**'s lookups;
- the **account manager**: creating, updating and reading accounts;
- the **exchange manager**'s currency table.

Each manager's behaviour is a pure function over `Storage.Db`, a value that holds the store's tables:
accounts, journals, transactions and currencies, plus the listing order of journals and
transactions. The managers are classes sharing one `Storage.Store`, whose fields are those tables.
Each method that changes the store is proved equal to its function (`ensures Effect(err,
repo.Snapshot()) == PersistJournalSpec(old(repo.Snapshot()), …)`). The checks of PersistJournal
are `while` loops with invariants, and so are its posting loop and ListJournals' loop, as in the
source.

The model makes these choices at the storage boundary, which the code calls but which is not part
of this model:

- The store reports a missing journal or transaction as an error (`RecordNotFound`). It reports a
  missing account or currency as an absent row with no error. Under these two conventions the
  managers' own checks behave as their comments say. For example, `GetJournal(...)` must fail for a
  new journal ID, or check 2 would refuse every journal.
- Inserts of a transaction or account fail on a key that is already stored (`DuplicateKey`). The
  store's other writes cannot fail in a sequential in-memory store. Their callers meet that as a
  precondition.
- The unit of work's begin, commit and rollback outcomes are a parameter (`UnitOfWork`).
- ASSUMPTION: a rollback puts the store back as it was when the unit of work began
  (`Store.Restore`), also when the rollback itself reports an error. A failed commit is taken to
  leave the store the same way.
- int64 arithmetic wraps around as Go's does (`Base.Wrap64`). Debit and credit totals and account
  balances are computed with it.
- Go's `strings.ToUpper` is modelled for every character whose upper case is an ASCII letter.
  So "the upper case is DEBIT" is exact (`Records.IsDebitSpelling`).
- Exchange values are float64 bit patterns that are stored and returned, never computed with.

Behaviour modelled as the code has it, and exhibited by lemmas:

- Check 9 asks whether the *new* journal's own ID has been reversed, not the ID of the journal it
  reverses. So a journal can be reversed twice (`Scenarios.SecondReversalAccepted`).
- After a write-phase failure the code returns the rollback's result. So when the rollback
  succeeds, the call reports success having stored nothing.
  - This is reachable: two postings of one journal with the same transaction ID pass every check.
    Check 4 only looks at the store. The second insert then fails
    (`JournalProperties.DuplicateTransactionIdReportsSuccess`, `Scenarios.SharedTransactionIdLost`).
- The balance check compares int64 totals. Totals that differ by a multiple of 2^64 pass it
  (`Scenarios.OverflowingDebitsBalance`).
- A posting is added to its account's balance when the posting's marker equals the account's
  stored marker exactly, and subtracted otherwise. Reading a marker back is case-insensitive. So an
  account stored with the marker "debit" reads as a DEBIT account, yet DEBIT postings are
  subtracted from it (`Scenarios.LowerCaseMarkerSubtracts`).
- ListJournals takes one page of the whole journal listing. The time range only feeds the count,
  which the page arithmetic uses and which is not part of this model.

## Model

| member | source | states |
|---|---|---|
| Base.Wrap64 | internal/accounting/MySQLManagerImpl.go:88-96 | the int64 Go computes for a mathematical value: congruent to it modulo 2^64, and equal to it when it is in range |
| Base.WrapAdd | internal/accounting/MySQLManagerImpl.go:89-96 | wrapping the running sum at each step gives the wrapped total |
| Base.Window | internal/accounting/MySQLManagerImpl.go:357 | a `LIMIT/OFFSET` page: the listing's rows from `offset` on, in order; `limit` of them when that many follow, all that follow otherwise, none past the end |
| Records.DecodeAlignmentCases | internal/accounting/MySQLManagerImpl.go:337-341 | a stored marker reads as DEBIT exactly when it spells "debit" in any mix of cases, and as CREDIT otherwise |
| Records.DecodeEncode | internal/accounting/MySQLManagerImpl.go:206-210 | every marker the managers write reads back as the side it was written for |
| Storage.GetJournalByReversalId | internal/accounting/MySQLManagerImpl.go:291 | a found journal is stored and names the ID as its reversal target; nothing is found exactly when no listed journal does |
| Storage.Store.InsertTransaction | internal/accounting/MySQLManagerImpl.go:231 | the transaction row is added, or the store is unchanged and `DuplicateKey` reported when the ID is stored |
| Storage.Store.InsertJournal | internal/accounting/MySQLManagerImpl.go:181 | the journal row is added and the journal listed last |
| Storage.Store.InsertAccount | internal/accounting/MySQLManagerImpl.go:568 | the account row is added, or the store is unchanged and `DuplicateKey` reported when the number is stored |
| Storage.Store.UpdateAccount | internal/accounting/MySQLManagerImpl.go:246 | the stored account row is replaced and nothing else changes |
| Storage.Store.InsertCurrency | internal/accounting/MySQLManagerImpl.go:797 | the currency row is added and nothing else changes |
| Storage.Store.UpdateCurrency | internal/accounting/MySQLManagerImpl.go:804 | the stored currency row is replaced and nothing else changes |
| Storage.Store.Restore | internal/accounting/MySQLManagerImpl.go:184 | rollback: the store is back to the saved contents |
| JournalLedger.IsJournalIdReversed | internal/accounting/MySQLManagerImpl.go:286-295 | true exactly when some stored journal names the ID as the journal it reverses |
| JournalLedger.IsJournalIdExist | internal/accounting/MySQLManagerImpl.go:298-304 | true exactly when a journal with the ID is stored |
| JournalLedger.Validate | internal/accounting/MySQLManagerImpl.go:42-149 | passing the checks implies a journal was given, its ID is new and every posting's account is stored |
| JournalLedger.GetJournalById | internal/accounting/MySQLManagerImpl.go:308-347 | an unknown ID gives the store's not-found error; a stored journal fails to load only when it is a reversal, with ErrJournalLoadReversalInconsistent; a loaded journal carries a reversed journal exactly when its row is a reversal, and one posting per row listed for it |
| JournalLedger.JournalManager.constructor | internal/accounting/MySQLManagerImpl.go:18-20 | the manager works on the store it is given |
| JournalLedger.JournalManager.PersistJournal | internal/accounting/MySQLManagerImpl.go:42-265 | the error returned and the store left are those of `PersistJournalSpec` on the store before the call |
| JournalLedger.JournalManager.FindMissingTransactionId | internal/accounting/MySQLManagerImpl.go:71-76 | check 3's loop finds a posting without an ID exactly when there is one |
| JournalLedger.JournalManager.FindPersistedTransactionId | internal/accounting/MySQLManagerImpl.go:79-85 | check 4's loop finds a posting whose ID is stored exactly when there is one |
| JournalLedger.JournalManager.SumSides | internal/accounting/MySQLManagerImpl.go:88-96 | check 5's loop yields the int64 debit and credit totals |
| JournalLedger.JournalManager.FindRepeatedAccount | internal/accounting/MySQLManagerImpl.go:103-110 | check 6's loop, with its set of accounts seen, finds two postings on one account exactly when there are two |
| JournalLedger.JournalManager.FindUnknownAccount | internal/accounting/MySQLManagerImpl.go:113-119 | check 7's loop finds a posting on an account that is not stored exactly when there is one |
| JournalLedger.JournalManager.CheckCurrency | internal/accounting/MySQLManagerImpl.go:122-137 | check 8's loop returns what the currency check gives, including its own missing-account error |
| JournalLedger.JournalManager.WriteTransactions | internal/accounting/MySQLManagerImpl.go:192-255 | the posting loop leaves the store `WritePostings` gives, or reports the first failing insert |
| JournalLedger.JournalManager.CommitJournal | internal/accounting/MySQLManagerImpl.go:272-274 | returns nil and changes nothing |
| JournalLedger.JournalManager.CancelJournal | internal/accounting/MySQLManagerImpl.go:281-283 | returns nil and changes nothing |
| JournalLedger.JournalManager.ListJournals | internal/accounting/MySQLManagerImpl.go:351-371 | the page holds the journals of the listed page that load, in listing order; the others are skipped |
| JournalProperties.SideSumWraps | internal/accounting/MySQLManagerImpl.go:88-96 | the int64 running total of a side is the exact total wrapped to int64 |
| JournalProperties.BalanceCheckIsModular | internal/accounting/MySQLManagerImpl.go:97-100 | the balance check passes exactly when the exact debit and credit totals agree modulo 2^64 |
| JournalProperties.CurrencyScanCases | internal/accounting/MySQLManagerImpl.go:122-137 | with every account stored, the scan passes exactly when every posting's account has the given currency, and otherwise fails with ErrJournalTransactionMixCurrency |
| JournalProperties.CurrencyCheckCases | internal/accounting/MySQLManagerImpl.go:122-137 | with every account stored, check 8 passes exactly when all posting accounts share the first one's currency, and otherwise fails with ErrJournalTransactionMixCurrency |
| JournalProperties.CurrencyCheckMissingAccount | internal/accounting/MySQLManagerImpl.go:124-127 | check 8's ErrAccountIdNotFound arises only when some account is missing, which check 7 has already refused |
| JournalProperties.ValidateAccepts | internal/accounting/MySQLManagerImpl.go:42-149 | the nine checks pass exactly for an `Acceptable` journal: fields present, new journal and transaction IDs, balanced int64 totals, distinct stored accounts of one currency, and for a reversal no stored journal naming its own ID |
| JournalProperties.AcceptableIsAllChecks | internal/accounting/MySQLManagerImpl.go:42-149 | `Acceptable` is the nine checks of `CheckHolds`, one per check of the source; it holds exactly when every check n from 1 to 9 holds |
| JournalProperties.ValidateFirstFailing | internal/accounting/MySQLManagerImpl.go:60-149 | when checks 1 to n-1 hold and check n (2 to 9) does not, the checks return check n's error: ErrJournalAlreadyPersisted, ErrJournalTransactionMissingID, ErrJournalTransactionAlreadyPersisted, ErrJournalNotBalance, ErrJournalTransactionAccountDuplicate, ErrJournalTransactionAccountNotPersist, ErrJournalTransactionMixCurrency, ErrJournalCanNotDoubleReverse |
| JournalProperties.FirstFailingCheck | internal/accounting/MySQLManagerImpl.go:60-149 | in that case PersistJournal returns check n's error and writes nothing |
| JournalProperties.ReversalTargetIgnored | internal/accounting/MySQLManagerImpl.go:140-149 | which journal a reversal names never changes the outcome of the checks |
| JournalProperties.RequiredFieldErrors | internal/accounting/MySQLManagerImpl.go:45-59 | a nil journal, a missing ID, no postings and a missing author give their errors in that order, with the store unchanged |
| JournalProperties.NewBalanceCases | internal/accounting/MySQLManagerImpl.go:221-229 | a posting is added to the balance when the account's stored marker is exactly the posting's own upper-case marker, subtracted otherwise, wrapping as int64 and exact when in range |
| JournalProperties.WritePostingsFails | internal/accounting/MySQLManagerImpl.go:231-239 | the posting loop fails exactly when a posting's ID is stored or two postings share an ID |
| JournalProperties.WritePostingsEffect | internal/accounting/MySQLManagerImpl.go:192-255 | a successful loop writes each posting's row with the balance it leaves and the journal's ID, updates each named account's balance and updater, appends the IDs in order, and changes nothing else |
| JournalProperties.PersistJournalEffect | internal/accounting/MySQLManagerImpl.go:151-264 | an error leaves the store unchanged; a changed store means nil was returned, the journal was acceptable with distinct posting IDs, and exactly its rows and balances were written; an acceptable journal with distinct posting IDs commits when begin and commit succeed; for an acceptable journal a begin error is returned as is (159-162), a commit error is returned with nothing stored (258-262), and two postings sharing an ID return the rollback's own result, its error included (231-238) |
| JournalProperties.DuplicateTransactionIdReportsSuccess | internal/accounting/MySQLManagerImpl.go:231-238 | a journal passing the checks with two postings sharing an ID returns nil after a successful rollback and leaves the store unchanged |
| JournalProperties.PersistJournalKeepsValid | internal/accounting/MySQLManagerImpl.go:42-265 | PersistJournal keeps every row keyed by its own ID, the listings in step with the tables, and every posting attached to a stored journal |
| JournalProperties.GetJournalByIdErrors | internal/accounting/MySQLManagerImpl.go:309-322 | an unknown ID gives the store's error; a reversal whose reversed journal does not load gives ErrJournalLoadReversalInconsistent |
| JournalProperties.LoadedJournal | internal/accounting/MySQLManagerImpl.go:308-347 | a loaded journal mirrors its row, carries the journal it reverses exactly when it is a reversal, and holds its stored postings in order, each read as DEBIT exactly when its marker spells "debit" |
| JournalProperties.LoadWithMoreFuel | internal/accounting/MySQLManagerImpl.go:318-324 | a journal that loads loads the same with a larger bound on the reversal links followed |
| JournalProperties.SelfReversalNeverLoads | internal/accounting/MySQLManagerImpl.go:318-322 | a journal naming itself as the journal it reverses never loads |
| JournalProperties.HydrateAppend | internal/accounting/MySQLManagerImpl.go:362-369 | the journals of two consecutive runs of rows are those of the first run followed by those of the second |
| JournalProperties.HydrateMembers | internal/accounting/MySQLManagerImpl.go:362-369 | a page holds exactly the journals that load from its rows |
| JournalProperties.DecodePostingRecord | internal/accounting/MySQLManagerImpl.go:193-210 | a written posting row reads back as the posting, with the journal's ID and the balance it left |
| JournalProperties.CommittedPostingsLoad | internal/accounting/MySQLManagerImpl.go:326-344 | after a commit, the journal's postings read back in the order given, with its ID and their balances |
| JournalProperties.PersistThenLoad | internal/accounting/MySQLManagerImpl.go:164-229 | a committed journal loads with its description and author, the credit total as its amount, its reversal flag and reversed journal, and its postings as written |
| TransactionIndex.IsTransactionIdExist | internal/accounting/MySQLManagerImpl.go:413-422 | true exactly for a stored ID; otherwise the store's not-found error |
| TransactionIndex.GetTransactionById | internal/accounting/MySQLManagerImpl.go:425-444 | loads exactly the stored IDs, mirroring the row and reading its marker case-insensitively; otherwise the store's not-found error |
| TransactionIndex.LookupsAgree | internal/accounting/MySQLManagerImpl.go:413-444 | both lookups agree on which IDs exist; a loaded transaction has the requested ID and a stored journal |
| TransactionIndex.PersistThenGetTransaction | internal/accounting/MySQLManagerImpl.go:193-231 | every posting of a committed journal exists and reads back with the journal's ID and the balance it left |
| AccountRegistry.RequiredAccountFields | internal/accounting/MySQLManagerImpl.go:527-538 | the fields are checked in the order number, name, description, creator: the first missing one gives ErrAccountMissingID, ErrAccountMissingName, ErrAccountMissingDescription or ErrAccountMissingCreator respectively; it passes exactly when all four are present |
| AccountRegistry.DecodeEncodeAccount | internal/accounting/MySQLManagerImpl.go:549-566 | the row written for an account reads back as that account |
| AccountRegistry.IsAccountIdExist | internal/accounting/MySQLManagerImpl.go:622-631 | true exactly when the account is stored |
| AccountRegistry.GetAccountById | internal/accounting/MySQLManagerImpl.go:634-651 | for a stored account: its number, balance and currency, and DEBIT exactly when its marker spells "debit" |
| AccountRegistry.AccountManager.constructor | internal/accounting/MySQLManagerImpl.go:510-512 | the manager works on the store it is given |
| AccountRegistry.AccountManager.PersistAccount | internal/accounting/MySQLManagerImpl.go:526-570 | the error returned and the store left are those of `PersistAccountSpec` |
| AccountRegistry.AccountManager.UpdateAccount | internal/accounting/MySQLManagerImpl.go:574-619 | the error returned and the store left are those of `UpdateAccountSpec` |
| AccountRegistry.PersistAccountEffect | internal/accounting/MySQLManagerImpl.go:526-570 | succeeds exactly when the fields are present, the currency is stored and the number is new, adding that one row; a missing field gives RequiredAccountFields' error for the first missing field, then ErrCurrencyNotFound and the duplicate-key error; an error changes nothing |
| AccountRegistry.UpdateAccountEffect | internal/accounting/MySQLManagerImpl.go:574-619 | succeeds exactly when the fields are present and the account is stored, replacing that one row; a missing field gives RequiredAccountFields' error for the first missing field, then ErrAccountIsNotPersisted; an error changes nothing |
| AccountRegistry.PersistThenGet | internal/accounting/MySQLManagerImpl.go:526-570 | a persisted account exists and reads back as given |
| AccountRegistry.UpdateThenGet | internal/accounting/MySQLManagerImpl.go:598-618 | an updated account reads back as given, balance and creator included |
| AccountRegistry.UpdateLeavesOthers | internal/accounting/MySQLManagerImpl.go:618 | an update leaves every other account as it was |
| AccountRegistry.AccountCallsKeepValid | internal/accounting/MySQLManagerImpl.go:526-619 | both calls keep the store's invariant |
| ExchangeTable.IsCurrencyExist | internal/accounting/MySQLManagerImpl.go:760-769 | true exactly when the currency is stored |
| ExchangeTable.GetExchangeValueOf | internal/accounting/MySQLManagerImpl.go:809-822 | the stored exchange value of a stored currency; ErrCurrencyNotFound otherwise |
| ExchangeTable.ExchangeManager.constructor | internal/accounting/MySQLManagerImpl.go:748-750 | the common denominator starts at 1.0 |
| ExchangeTable.ExchangeManager.SetExchangeValueOf | internal/accounting/MySQLManagerImpl.go:782-805 | returns nil and leaves the store `SetExchangeValueOfSpec` gives |
| ExchangeTable.SetThenGet | internal/accounting/MySQLManagerImpl.go:782-805 | afterwards the currency exists with the author as updater, holding the value given if it existed before and 0 if the call created it; a created currency is named by its code with the author as creator (788-796), a stored one keeps its code, name and creator (800-804) |
| ExchangeTable.SetLeavesOthers | internal/accounting/MySQLManagerImpl.go:782-805 | every other currency keeps its record and its presence, and the accounts, journals, postings and both listing orders are unchanged |
| ExchangeTable.SetTwiceStoresValue | internal/accounting/MySQLManagerImpl.go:787-804 | a second set of a new currency stores the value the first dropped |
| ExchangeTable.SetIdempotent | internal/accounting/MySQLManagerImpl.go:800-804 | setting a stored currency twice is the same as once |
| ExchangeTable.SetKeepsValid | internal/accounting/MySQLManagerImpl.go:782-805 | the store's invariant is kept |
| Scenarios.BalancedJournalPostsBoth | internal/accounting/MySQLManagerImpl.go:221-229 | A1 (DEBIT, 1000) and A2 (CREDIT, 500): debiting A1 and crediting A2 by 100 leaves 1100 and 600, a total of 100, and the postings listed in order |
| Scenarios.UnbalancedJournalRefused | internal/accounting/MySQLManagerImpl.go:97-100 | debits of 100 against credits of 90 give ErrJournalNotBalance and change nothing |
| Scenarios.SharedTransactionIdLost | internal/accounting/MySQLManagerImpl.go:231-238 | two postings sharing an ID give nil and store nothing |
| Scenarios.SecondReversalAccepted | internal/accounting/MySQLManagerImpl.go:140-149 | with J1 already reversed, a second reversal of J1 passes every check |
| Scenarios.SelfReversalAccepted | internal/accounting/MySQLManagerImpl.go:140-149 | a journal naming its own ID as the journal it reverses passes every check |
| Scenarios.OverflowingDebitsBalance | internal/accounting/MySQLManagerImpl.go:88-100 | four debits of 2^62 against a credit of 0 pass the balance check though the totals differ by 2^64 |
| Scenarios.LowerCaseMarkerSubtracts | internal/accounting/MySQLManagerImpl.go:221-228 | an account stored as "debit" reads back DEBIT, yet a DEBIT posting of 100 takes it from 1000 to 900 |

## Left out

- Timestamps (journaling, creation and update times) are not modelled; they come from the clock. A
  transaction's own time is an opaque value that is copied.
- Logging and the report rendering (`RenderJournal` and `RenderTransactionsOnAccount`) are output only.
- The row counts and `PageResultFor`, which turn a page request into an offset and a page size, are
  not part of this model. ListJournals takes the offset and page size as parameters and returns
  only the journals, not the page result.
- `CalculateExchangeRate`, `CalculateExchange`, `GetDenom` and `SetDenom` compute with floating point
  numbers. They are not modelled; the common denominator is only initialised. The `*big.Float` to
  float64 conversion in SetExchangeValueOf is taken as given: the value arrives as a float64.
- The listing operations on transactions and accounts do not belong to the part of the managers
  modelled here.
- Concurrency is not modelled. Calls run one at a time on one store.
- The SQL unit of work is a parameter. Writes go through the store, not the unit of work, so the
  rollback restoring the store is an assumption (`Storage.Store.Restore`). A failed commit is
  assumed to leave the store unchanged.
- A rollback that reports an error is also taken to restore the store. So "an error leaves the
  store unchanged" in PersistJournalEffect covers a failed rollback only by this assumption. The
  backend's actual state after a failed rollback is not modelled.
- A journal's postings are listed in the order they were inserted, which stands for the
  backend's ordering of `ListTransactionByJournalID`. The backend's actual ordering is not part of
  this model; it may sort by the caller-supplied transaction time. The "in the order given" of
  CommittedPostingsLoad and PersistThenLoad rests on this assumption.
- Validate: its own contract states only what passing implies. The error each of checks 2 to 9
  returns, in fail-fast order, is stated by JournalProperties.ValidateFirstFailing and
  FirstFailingCheck over the one-by-one checks of CheckHolds.
- Store errors on reads are not modelled beyond the not-found conventions above. The branches that
  pass such an error on cannot be reached here: a failing account read inside the posting loop,
  a failing reversal check, a failing listing, IsTransactionIdExist's `(false, nil)` result, and
  GetTransactionById's ErrTransactionNotFound for a missing row without an error (MySQLManagerImpl.go:430-432),
  since the store reports every missing row as not-found.
  The inserts and updates other than InsertTransaction and InsertAccount cannot fail either.
- The journal ID that `InsertJournal` returns is taken to be the journal's own ID. The postings are
  filed under that ID.
- GetJournalByIdErrors and LoadedJournal: GetJournalById follows reversal links up to a `fuel`
  bound. A chain longer than the bound is reported as ErrJournalLoadReversalInconsistent, where the
  code would keep recursing, without end on a cycle. LoadWithMoreFuel shows that the bound does not
  change any journal that loads. Such a cycle can be stored through PersistJournal itself: a journal
  naming its own ID as the journal it reverses passes the checks, since check 9 asks only whether
  some stored journal reverses it (Scenarios.SelfReversalAccepted). SelfReversalNeverLoads shows
  that the model never loads one.
- `strings.ToUpper` is modelled exactly only for the characters whose upper case is an ASCII
  letter. Other characters are left as they are, which cannot change a comparison with "DEBIT".
- A transaction type is DEBIT or CREDIT. Go's string-typed type could hold another value, which
  check 5 would count on neither side.
- SetExchangeValueOf and its lemmas require that every currency row is filed under its own code,
  which the store keeps as an invariant.

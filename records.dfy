/** The ledger's entities: the in-memory values the managers hand out (journals, transactions,
    accounts), the rows the storage backend keeps, the error values, and the alignment codec the
    managers use between the two. Creation and update timestamps are not modelled. */
module Records {
  import opened Base

  /** A posting's side, and an account's normal balance side. */
  datatype Alignment = Debit | Credit

  /** Caller-supplied transaction time; opaque. */
  type Time = int

  /** The bit pattern of a float64 exchange value. It is stored and returned, never computed with. */
  type Float64 = bv64

  const Float64Zero: Float64 := 0
  const Float64One: Float64 := 0x3FF0_0000_0000_0000

  /** A posting as handed to and returned by the journal manager. */
  datatype Transaction = Transaction(
    transactionId: string,
    transactionTime: Time,
    accountNumber: string,
    journalId: string,
    description: string,
    transactionType: Alignment,
    amount: Int64,
    accountBalance: Int64,
    createBy: string)

  /** A journal as handed to and returned by the journal manager. */
  datatype Journal = Journal(
    journalId: string,
    description: string,
    reversal: bool,
    reversedJournal: Option<Journal>,
    amount: Int64,
    transactions: seq<Transaction>,
    createBy: string)

  /** An account as handed to and returned by the account manager. */
  datatype Account = Account(
    accountNumber: string,
    name: string,
    description: string,
    coa: string,
    currency: string,
    baseTransactionType: Alignment,
    balance: Int64,
    createBy: string,
    updateBy: string)

  /** Storage rows. Alignments are kept as strings, exactly as the backend holds them. */
  datatype JournalRecord = JournalRecord(
    journalId: string,
    description: string,
    isReversal: bool,
    reversedJournalId: string,
    totalAmount: Int64,
    createdBy: string)

  datatype TransactionRecord = TransactionRecord(
    transactionId: string,
    transactionTime: Time,
    accountNumber: string,
    journalId: string,
    description: string,
    alignment: string,
    amount: Int64,
    balance: Int64,
    createdBy: string)

  datatype AccountRecord = AccountRecord(
    accountNumber: string,
    name: string,
    currencyCode: string,
    description: string,
    alignment: string,
    balance: Int64,
    coa: string,
    createdBy: string,
    updatedBy: string)

  datatype CurrencyRecord = CurrencyRecord(
    code: string,
    name: string,
    exchange: Float64,
    createdBy: string,
    updatedBy: string)

  /** Errors the storage backend reports. */
  datatype StoreError =
    | RecordNotFound
    | DuplicateKey
    | BackendFailure(code: int)

  /** The library's error values, plus the backend's own errors passed through unchanged. */
  datatype Error =
    | JournalNil
    | JournalMissingId
    | JournalNoTransaction
    | JournalMissingAuthor
    | JournalAlreadyPersisted
    | JournalTransactionMissingID
    | JournalTransactionAlreadyPersisted
    | JournalNotBalance
    | JournalTransactionAccountDuplicate
    | JournalTransactionAccountNotPersist
    | AccountIdNotFound
    | JournalTransactionMixCurrency
    | JournalCanNotDoubleReverse
    | JournalLoadReversalInconsistent
    | AccountMissingID
    | AccountMissingName
    | AccountMissingDescription
    | AccountMissingCreator
    | AccountIsNotPersisted
    | CurrencyNotFound
    | Store(cause: StoreError)

  // ---------------------------------------------------------------------------
  // Alignment codec

  /** The marker written for a side (MySQLManagerImpl.go:206-210 and 562-566). */
  function EncodeAlignment(a: Alignment): string
  {
    if a == Debit then "DEBIT" else "CREDIT"
  }

  /** The side read back from a stored marker: DEBIT when the upper-cased marker is "DEBIT",
      CREDIT for anything else. */
  function DecodeAlignment(s: string): Alignment
  {
    if Upper(s) == "DEBIT" then Debit else Credit
  }

  /** The spellings that Go's `strings.ToUpper` turns into "DEBIT". */
  predicate IsDebitSpelling(s: string)
  {
    && |s| == 5
    && s[0] in {'D', 'd'}
    && s[1] in {'E', 'e'}
    && s[2] in {'B', 'b'}
    && s[3] in {'I', 'i', 'ı'}
    && s[4] in {'T', 't'}
  }

  lemma UpperCharIs(c: char, u: char)
    requires u in {'D', 'E', 'B', 'I', 'T'}
    ensures UpperChar(c) == u <==> c == u || c == (u as int + 32) as char || (u == 'I' && c == 'ı')
  {
  }

  /** Decoding is case-insensitive: a marker reads as DEBIT exactly when it spells "debit" in any
      mix of cases (with dotless i allowed for the i), and as CREDIT otherwise. */
  lemma DecodeAlignmentCases(s: string)
    ensures DecodeAlignment(s) == Debit <==> IsDebitSpelling(s)
  {
    var u := Upper(s);
    if |s| == 5 {
      UpperCharIs(s[0], 'D');
      UpperCharIs(s[1], 'E');
      UpperCharIs(s[2], 'B');
      UpperCharIs(s[3], 'I');
      UpperCharIs(s[4], 'T');
      assert u == "DEBIT" <==> u[0] == 'D' && u[1] == 'E' && u[2] == 'B' && u[3] == 'I' && u[4] == 'T';
    } else {
      assert |u| != 5;
    }
  }

  /** Every written marker decodes back to the side it was written for. */
  lemma DecodeEncode(a: Alignment)
    ensures DecodeAlignment(EncodeAlignment(a)) == a
  {
    DecodeAlignmentCases(EncodeAlignment(a));
  }

  /** A stored posting read back into a Transaction (MySQLManagerImpl.go:333-341 and 433-442). */
  function DecodeTransaction(rec: TransactionRecord): Transaction
  {
    Transaction(rec.transactionId, rec.transactionTime, rec.accountNumber, rec.journalId,
                rec.description, DecodeAlignment(rec.alignment), rec.amount, rec.balance, rec.createdBy)
  }
}

/**
 * The three records (Person, Account, Transaction) and the validation their
 * data-annotation attributes declare. Model binding runs these checks before a
 * POST action sees the record; a failed check is a field error in `ModelState`.
 */
module Models {
  import opened Wrappers
  import opened Text

  /** A `DateTime`, as a count of ticks. */
  type Time = int

  /**
   * A `decimal` stored in a SQL Server `money` column, in ten-thousandths:
   * 1500.50 is 15005000. Additions and subtractions are exact.
   */
  type Money = int

  /**
   * The range of SQL Server's `money` type, -922,337,203,685,477.5808 to
   * 922,337,203,685,477.5807: a 64-bit count of ten-thousandths. Writing a
   * value outside it makes `SaveChanges` fail.
   */
  const MinMoney: Money := -0x8000_0000_0000_0000
  const MaxMoney: Money := 0x7FFF_FFFF_FFFF_FFFF

  predicate InMoneyRange(m: Money) {
    MinMoney <= m <= MaxMoney
  }

  /** 0.01, the lower bound of `[Range(0.01, double.MaxValue)]` on an amount. */
  const MinAmount: Money := 100
  /** `[StringLength(50)]` on names, surnames, ID numbers and account numbers. */
  const MaxNameLength := 50
  /** `[StringLength(100)]` on a transaction's description. */
  const MaxDescriptionLength := 100
  /** The `^\d{13}$` pattern on an ID number. */
  const IdNumberDigits := 13

  datatype Person = Person(code: int, name: Option<string>, surname: string, idNumber: string)

  datatype Account = Account(
    code: int,
    personCode: int,
    accountNumber: string,
    outstandingBalance: Money,
    isClosed: bool)

  datatype Transaction = Transaction(
    code: int,
    accountCode: int,
    transactionDate: Time,
    captureDate: Time,
    amount: Money,
    description: string)

  /** The form fields a `ModelState` error can be attached to. */
  datatype Field =
    | NameField | SurnameField | IdNumberField
    | AccountNumberField | BalanceField
    | TransactionDateField | AmountField | DescriptionField

  predicate IsDigit(c: char) {
    '0' <= c <= '9'
  }

  /** `[RegularExpression(@"^\d{13}$")]`: exactly thirteen decimal digits. */
  predicate MatchesIdNumberPattern(s: string) {
    |s| == IdNumberDigits && forall i :: 0 <= i < |s| ==> IsDigit(s[i])
  }

  /** `[Required]` with `[StringLength(n)]`. */
  predicate RequiredText(s: string, maxLength: nat) {
    Present(s) && |s| <= maxLength
  }

  predicate ValidIdNumber(s: string) {
    RequiredText(s, MaxNameLength) && MatchesIdNumberPattern(s)
  }

  /** The 13-digit pattern alone decides an ID number: it implies the `[Required]` and the length limit. */
  lemma IdNumberPatternDecides(s: string)
    ensures ValidIdNumber(s) <==> MatchesIdNumberPattern(s)
    ensures ValidIdNumber(s) ==> |s| == 13
  {
    if MatchesIdNumberPattern(s) {
      assert !IsWhiteSpace(s[0]);
    }
  }

  function PersonErrors(p: Person): set<Field> {
    (if p.name.Some? && |p.name.value| > MaxNameLength then {NameField} else {})
    + (if !RequiredText(p.surname, MaxNameLength) then {SurnameField} else {})
    + (if !ValidIdNumber(p.idNumber) then {IdNumberField} else {})
  }

  /** A person passes validation: optional name, required surname, 13-digit ID number. */
  predicate ValidPerson(p: Person)
  {
    PersonErrors(p) == {}
  }

  lemma ValidPersonMeans(p: Person)
    ensures ValidPerson(p) <==>
      && (p.name.None? || |p.name.value| <= 50)
      && Present(p.surname) && |p.surname| <= 50
      && |p.idNumber| == 13 && (forall i :: 0 <= i < 13 ==> IsDigit(p.idNumber[i]))
  {
    IdNumberPatternDecides(p.idNumber);
    if !ValidPerson(p) {
      var f :| f in PersonErrors(p);
    }
  }

  function AccountErrors(a: Account): set<Field> {
    (if !RequiredText(a.accountNumber, MaxNameLength) then {AccountNumberField} else {})
    + (if a.outstandingBalance < 0 then {BalanceField} else {})
  }

  /** An account passes validation: required account number of at most 50 characters, balance at least 0. */
  predicate ValidAccount(a: Account) {
    AccountErrors(a) == {}
  }

  lemma ValidAccountMeans(a: Account)
    ensures ValidAccount(a) <==>
      Present(a.accountNumber) && |a.accountNumber| <= 50 && a.outstandingBalance >= 0
  {
    if !ValidAccount(a) {
      var f :| f in AccountErrors(a);
    }
  }

  function TransactionErrors(t: Transaction): set<Field> {
    (if t.amount < MinAmount then {AmountField} else {})
    + (if !RequiredText(t.description, MaxDescriptionLength) then {DescriptionField} else {})
  }

  /** A transaction passes validation: amount at least 0.01, required description of at most 100 characters. */
  predicate ValidTransaction(t: Transaction) {
    TransactionErrors(t) == {}
  }

  lemma ValidTransactionMeans(t: Transaction)
    ensures ValidTransaction(t) <==>
      t.amount >= 100 && Present(t.description) && |t.description| <= 100
    ensures ValidTransaction(t) ==> t.amount > 0
  {
    if !ValidTransaction(t) {
      var f :| f in TransactionErrors(t);
    }
  }
}

/**
 * The database context the controllers work on: the Persons, Accounts and
 * Transactions tables, keyed by their identity column `code`, with the
 * constraints the schema enforces at `SaveChanges` (primary keys, the unique
 * indexes on `id_number` and `account_number`, and the two foreign keys).
 */
module Data {
  import opened Models

  /** A snapshot of the three tables and of the identity counters that number new rows. */
  datatype Store = Store(
    persons: map<int, Person>,
    accounts: map<int, Account>,
    transactions: map<int, Transaction>,
    nextPersonCode: int,
    nextAccountCode: int,
    nextTransactionCode: int)

  ghost predicate UniqueIdNumbers(persons: map<int, Person>) {
    forall j, k :: j in persons && k in persons && persons[j].idNumber == persons[k].idNumber ==> j == k
  }

  ghost predicate UniqueAccountNumbers(accounts: map<int, Account>) {
    forall j, k :: j in accounts && k in accounts && accounts[j].accountNumber == accounts[k].accountNumber ==> j == k
  }

  /**
   * What the schema guarantees of every committed state: each row sits under
   * its own code, below the next identity value; the unique indexes hold; every
   * account's person and every transaction's account exists; every balance and
   * every amount fits a `money` column. Record validation
   * (amount at least 0.01, balance at least 0) is NOT among them: the database
   * does not enforce it, and the seeded rows break it.
   */
  ghost predicate StoreValid(s: Store) {
    && (forall k :: k in s.persons ==> s.persons[k].code == k && k < s.nextPersonCode)
    && (forall k :: k in s.accounts ==>
          s.accounts[k].code == k && k < s.nextAccountCode && s.accounts[k].personCode in s.persons)
    && (forall k :: k in s.transactions ==>
          s.transactions[k].code == k && k < s.nextTransactionCode && s.transactions[k].accountCode in s.accounts)
    && UniqueIdNumbers(s.persons)
    && UniqueAccountNumbers(s.accounts)
    && (forall k :: k in s.accounts ==> InMoneyRange(s.accounts[k].outstandingBalance))
    && (forall k :: k in s.transactions ==> InMoneyRange(s.transactions[k].amount))
  }

  /** What a POST action answers. */
  datatype Outcome =
    /** The changes were saved, or there was nothing to do; the browser is redirected. */
    | Redirected
    /** `ModelState` is invalid: the form is shown again with errors on these fields. */
    | Invalid(errors: set<Field>)
    /** The closed-account rule refused the change. */
    | ClosedAccount
    | NotFound
    /** `SaveChanges` threw (a foreign key or unique index was violated, or a value overflowed `money`); nothing was written. */
    | UpdateFailed

  /** The sum of the amounts of the transactions posted to `account`. */
  ghost function AccountTotal(transactions: map<int, Transaction>, account: int): int
    decreases transactions.Keys
  {
    if transactions == map[] then 0
    else
      NonEmptyHasKey(transactions);
      var k :| k in transactions;
      Share(transactions[k], account) + AccountTotal(transactions - {k}, account)
  }

  lemma NonEmptyHasKey<V>(m: map<int, V>)
    requires m != map[]
    ensures exists k :: k in m
  {
    if forall k :: k !in m {
      assert false;
    }
  }

  function Share(t: Transaction, account: int): int {
    if t.accountCode == account then t.amount else 0
  }

  /** The total may be computed by taking out any one transaction first. */
  lemma {:induction false} AccountTotalRemove(transactions: map<int, Transaction>, k: int, account: int)
    requires k in transactions
    ensures AccountTotal(transactions, account)
         == Share(transactions[k], account) + AccountTotal(transactions - {k}, account)
    decreases transactions.Keys
  {
    var j :| j in transactions && AccountTotal(transactions, account)
      == Share(transactions[j], account) + AccountTotal(transactions - {j}, account);
    if j != k {
      AccountTotalRemove(transactions - {j}, k, account);
      AccountTotalRemove(transactions - {k}, j, account);
      assert transactions - {j} - {k} == transactions - {k} - {j};
    }
  }

  /**
   * How far an account's cached balance is from the sum of its transactions.
   * The seeded account 1 starts 1500.50 - 50.00 away from its ledger, so the
   * drift, not the balance, is what the ledger operations must keep.
   */
  ghost function Drift(s: Store, account: int): int
    requires account in s.accounts
  {
    s.accounts[account].outstandingBalance - AccountTotal(s.transactions, account)
  }

  /** The database context: the tables the controllers read, add to, update and remove from. */
  class Database {
    var persons: map<int, Person>
    var accounts: map<int, Account>
    var transactions: map<int, Transaction>
    var nextPersonCode: int
    var nextAccountCode: int
    var nextTransactionCode: int

    function Snapshot(): Store
      reads this
    {
      Store(persons, accounts, transactions, nextPersonCode, nextAccountCode, nextTransactionCode)
    }

    ghost predicate Valid()
      reads this
    {
      StoreValid(Snapshot())
    }

    /** An empty database whose identity columns start at 1. */
    constructor ()
      ensures Valid()
      ensures Snapshot() == Store(map[], map[], map[], 1, 1, 1)
    {
      persons, accounts, transactions := map[], map[], map[];
      nextPersonCode, nextAccountCode, nextTransactionCode := 1, 1, 1;
    }
  }
}

/**
 * AccountsController: the account list's search, sort and paging, and the
 * POST actions that add, replace and remove an account row.
 */
module AccountsController {
  import opened Wrappers
  import opened Text
  import opened Query
  import opened Models
  import opened Data
  import TransactionsController

  // ---------------------------------------------------------------- Index

  const PageSize := 5

  datatype SortField = ByNumber | ByBalance
  datatype Ordering = Ordering(field: SortField, descending: bool)

  /** The `switch (sortOrder)`: any value other than the three named ones sorts by account number, ascending. */
  function OrderingOf(sortOrder: Option<string>): (r: Ordering)
    ensures r.descending <==> sortOrder == Some("account_desc") || sortOrder == Some("balance_desc")
    ensures r.field == ByBalance <==> sortOrder == Some("Balance") || sortOrder == Some("balance_desc")
    ensures r.field == ByNumber <==> sortOrder != Some("Balance") && sortOrder != Some("balance_desc")
  {
    if sortOrder == Some("account_desc") then Ordering(ByNumber, true)
    else if sortOrder == Some("Balance") then Ordering(ByBalance, false)
    else if sortOrder == Some("balance_desc") then Ordering(ByBalance, true)
    else Ordering(ByNumber, false)
  }

  /** The account number column's header link: descending exactly when `sortOrder` is null or empty. */
  function AccountSortParm(sortOrder: Option<string>): (r: string)
    ensures OrderingOf(Some(r)) == Ordering(ByNumber, IsNullOrEmpty(sortOrder))
    // the link toggles: from a descending number list it leads back to the default order
    ensures IsNullOrEmpty(Some(r)) <==> !IsNullOrEmpty(sortOrder)
  {
    if IsNullOrEmpty(sortOrder) then "account_desc" else ""
  }

  /** The balance column's header link: descending exactly when `sortOrder` is "Balance". */
  function BalanceSortParm(sortOrder: Option<string>): (r: string)
    ensures OrderingOf(Some(r)) == Ordering(ByBalance, sortOrder == Some("Balance"))
  {
    if sortOrder == Some("Balance") then "balance_desc" else "Balance"
  }

  function SortKey(field: SortField): Account -> Key {
    match field
    case ByNumber => (a: Account) => Str(Some(a.accountNumber))
    case ByBalance => (a: Account) => Num(a.outstandingBalance)
  }

  /** `a` may be listed before `b` under ordering `o`. */
  predicate Precedes(a: Account, b: Account, o: Ordering) {
    match o
    case Ordering(ByNumber, false) => StrLe(a.accountNumber, b.accountNumber)
    case Ordering(ByNumber, true) => StrLe(b.accountNumber, a.accountNumber)
    case Ordering(ByBalance, false) => a.outstandingBalance <= b.outstandingBalance
    case Ordering(ByBalance, true) => a.outstandingBalance >= b.outstandingBalance
  }

  /** An account matches the search text by its number, or by its owner's surname. */
  predicate MatchesSearch(a: Account, search: string, persons: map<int, Person>) {
    Contains(a.accountNumber, search)
    || (a.personCode in persons && Contains(persons[a.personCode].surname, search))
  }

  /** The filter applied to the table: none when the search text is null or empty. */
  predicate Selected(a: Account, search: Option<string>, persons: map<int, Person>) {
    IsNullOrEmpty(search) || MatchesSearch(a, search.value, persons)
  }

  /** `Where(...)` on the table: the rows that pass the filter. */
  function Matching(rows: seq<Account>, persons: map<int, Person>, search: Option<string>): (r: seq<Account>)
    ensures forall a :: a in r <==> a in rows && Selected(a, search, persons)
  {
    if IsNullOrEmpty(search) then rows
    else
      var r := Filter(rows, (a: Account) => MatchesSearch(a, search.value, persons));
      forall a | a in r ensures a in rows {
        var i :| 0 <= i < |r| && r[i] == a;
      }
      forall a | a in rows && MatchesSearch(a, search.value, persons) ensures a in r {
        var i :| 0 <= i < |rows| && rows[i] == a;
      }
      r
  }

  /** All matching rows in the selected order (before paging). */
  function Listing(rows: seq<Account>, persons: map<int, Person>, search: Option<string>,
                   sortOrder: Option<string>): seq<Account>
  {
    var o := OrderingOf(sortOrder);
    SortBy(Matching(rows, persons, search), SortKey(o.field), o.descending)
  }

  lemma ListingSelects(rows: seq<Account>, persons: map<int, Person>, search: Option<string>,
                       sortOrder: Option<string>)
    ensures forall a :: a in Listing(rows, persons, search, sortOrder) ==> a in rows && Selected(a, search, persons)
    ensures forall i :: 0 <= i < |rows| && Selected(rows[i], search, persons) ==>
      rows[i] in Listing(rows, persons, search, sortOrder)
  {
    var m := Matching(rows, persons, search);
    var l := Listing(rows, persons, search, sortOrder);
    assert forall a :: a in l <==> a in m by {
      assert multiset(l) == multiset(m);
      forall a ensures a in l <==> a in m {
        assert a in l <==> a in multiset(l);
        assert a in m <==> a in multiset(m);
      }
    }
  }

  lemma ListingOrdered(rows: seq<Account>, persons: map<int, Person>, search: Option<string>,
                       sortOrder: Option<string>)
    ensures var l := Listing(rows, persons, search, sortOrder);
      forall i, j :: 0 <= i < j < |l| ==> Precedes(l[i], l[j], OrderingOf(sortOrder))
  {
    var l := Listing(rows, persons, search, sortOrder);
    var o := OrderingOf(sortOrder);
    forall i, j | 0 <= i < j < |l| ensures Precedes(l[i], l[j], o) {
      assert InOrder(SortKey(o.field)(l[i]), SortKey(o.field)(l[j]), o.descending);
    }
  }

  /** What the list view is given. */
  datatype IndexView = IndexView(
    currentSort: Option<string>,
    accountSortParm: string,
    balanceSortParm: string,
    currentFilter: Option<string>,
    pageNumber: int,
    items: seq<Account>)

  /** A new search text starts again at page 1; otherwise the search carried in `currentFilter` applies. */
  function EffectivePage(searchString: Option<string>, page: Option<int>): int {
    if searchString.Some? then 1 else if page.Some? then page.value else 1
  }

  /**
   * `Index(sortOrder, currentFilter, searchString, page)` over the table's rows
   * and the persons who own them. `None`: the paging library rejected the page number.
   */
  function Index(sortOrder: Option<string>, currentFilter: Option<string>, searchString: Option<string>,
                 page: Option<int>, rows: seq<Account>, persons: map<int, Person>): (r: Option<IndexView>)
    ensures r.Some? <==> (searchString.Some? || page.None? || page.value >= 1)
    ensures searchString.Some? ==> r.Some? && r.value.pageNumber == 1
    ensures page.None? ==> r.Some? && r.value.pageNumber == 1
    ensures r.Some? ==> r.value.currentFilter == (if searchString.Some? then searchString else currentFilter)
    ensures r.Some? ==> |r.value.items| <= 5
    // the page shown is the requested slice of the filtered, sorted rows, for a new search too
    ensures r.Some? ==> r.value.currentSort == sortOrder
    ensures r.Some? ==>
      Page(Listing(rows, persons, r.value.currentFilter, sortOrder), r.value.pageNumber, PageSize) == Some(r.value.items)
    ensures r.Some? ==> r.value.accountSortParm == AccountSortParm(sortOrder) && r.value.balanceSortParm == BalanceSortParm(sortOrder)
    ensures r.Some? ==> forall a :: a in r.value.items ==> a in rows && Selected(a, r.value.currentFilter, persons)
    ensures r.Some? ==> forall i, j :: 0 <= i < j < |r.value.items| ==>
      Precedes(r.value.items[i], r.value.items[j], OrderingOf(sortOrder))
  {
    var search := if searchString.Some? then searchString else currentFilter;
    var number := EffectivePage(searchString, page);
    var listing := Listing(rows, persons, search, sortOrder);
    ListingSelects(rows, persons, search, sortOrder);
    ListingOrdered(rows, persons, search, sortOrder);
    if number < 1 then None
    else
      PageOfOrdered(listing, number, PageSize, (a, b) => Precedes(a, b, OrderingOf(sortOrder)));
      var items := Page(listing, number, PageSize).value;
      Some(IndexView(sortOrder, AccountSortParm(sortOrder), BalanceSortParm(sortOrder), search, number, items))
  }

  /** Paging through the list reaches every account that matches the search (the filter is carried in `currentFilter`). */
  lemma IndexListsEveryMatch(sortOrder: Option<string>, currentFilter: Option<string>,
                             rows: seq<Account>, persons: map<int, Person>, a: Account)
    requires a in rows && Selected(a, currentFilter, persons)
    ensures exists n :: n >= 1 && Index(sortOrder, currentFilter, None, Some(n), rows, persons).Some? &&
                        a in Index(sortOrder, currentFilter, None, Some(n), rows, persons).value.items
  {
    MatchIsListed(sortOrder, currentFilter, rows, persons, a);
    ListedIsReached(sortOrder, currentFilter, rows, persons, a);
  }

  lemma MatchIsListed(sortOrder: Option<string>, currentFilter: Option<string>,
                      rows: seq<Account>, persons: map<int, Person>, a: Account)
    requires a in rows && Selected(a, currentFilter, persons)
    ensures a in Listing(rows, persons, currentFilter, sortOrder)
  {
    ListingSelects(rows, persons, currentFilter, sortOrder);
    var k :| 0 <= k < |rows| && rows[k] == a;
  }

  lemma ListedIsReached(sortOrder: Option<string>, currentFilter: Option<string>,
                        rows: seq<Account>, persons: map<int, Person>, a: Account)
    requires a in Listing(rows, persons, currentFilter, sortOrder)
    ensures exists n :: n >= 1 && Index(sortOrder, currentFilter, None, Some(n), rows, persons).Some? &&
                        a in Index(sortOrder, currentFilter, None, Some(n), rows, persons).value.items
  {
    var listing := Listing(rows, persons, currentFilter, sortOrder);
    var i :| 0 <= i < |listing| && listing[i] == a;
    RowIsReached(sortOrder, currentFilter, rows, persons, i);
  }

  /** Row `i` of the list is on page `i / PageSize + 1`. */
  lemma RowIsReached(sortOrder: Option<string>, currentFilter: Option<string>,
                     rows: seq<Account>, persons: map<int, Person>, i: int)
    requires 0 <= i < |Listing(rows, persons, currentFilter, sortOrder)|
    ensures Index(sortOrder, currentFilter, None, Some(i / PageSize + 1), rows, persons).Some?
    ensures Listing(rows, persons, currentFilter, sortOrder)[i] in
              Index(sortOrder, currentFilter, None, Some(i / PageSize + 1), rows, persons).value.items
  {
    var listing := Listing(rows, persons, currentFilter, sortOrder);
    PageHolds(listing, i, PageSize);
    IndexPage(sortOrder, currentFilter, i / PageSize + 1, rows, persons);
  }

  /** Without a new search, page `n` of the list is the `n`-th slice of the filtered, sorted rows. */
  lemma IndexPage(sortOrder: Option<string>, currentFilter: Option<string>, n: int,
                  rows: seq<Account>, persons: map<int, Person>)
    requires n >= 1
    ensures Index(sortOrder, currentFilter, None, Some(n), rows, persons).Some?
    ensures Index(sortOrder, currentFilter, None, Some(n), rows, persons).value.items
      == Page(Listing(rows, persons, currentFilter, sortOrder), n, PageSize).value
  {
  }

  // ---------------------------------------------------------------- POST actions

  predicate AccountNumberTaken(accounts: map<int, Account>, accountNumber: string, except: int) {
    exists k :: k in accounts && k != except && accounts[k].accountNumber == accountNumber
  }

  predicate HasTransactions(s: Store, code: int) {
    exists k :: k in s.transactions && s.transactions[k].accountCode == code
  }

  /** POST Create, as a function of the state before it. */
  function CreateStep(s: Store, posted: Account): (r: (Outcome, Store))
    requires StoreValid(s)
    ensures StoreValid(r.1)
    ensures !ValidAccount(posted) ==> r.0 == Invalid(AccountErrors(posted))
    ensures r.0 == Redirected <==>
      && ValidAccount(posted) && posted.personCode in s.persons
      && !AccountNumberTaken(s.accounts, posted.accountNumber, s.nextAccountCode)
      && InMoneyRange(posted.outstandingBalance)
    ensures r.0 != Redirected ==> r.1 == s
    // a balance beyond the range of `money` fails at SaveChanges
    ensures ValidAccount(posted) && !InMoneyRange(posted.outstandingBalance) ==> r.0 == UpdateFailed
    // the foreign key to Person and the unique index on account_number fail at SaveChanges
    ensures ValidAccount(posted) && posted.personCode !in s.persons ==> r.0 == UpdateFailed
    ensures ValidAccount(posted) && AccountNumberTaken(s.accounts, posted.accountNumber, s.nextAccountCode) ==> r.0 == UpdateFailed
    // one new account, numbered by the identity column, with no transactions yet
    ensures r.0 == Redirected ==>
      var c := s.nextAccountCode;
      && c !in s.accounts
      && r.1.accounts == s.accounts[c := posted.(code := c)]
      && !HasTransactions(r.1, c)
      && r.1.persons == s.persons && r.1.transactions == s.transactions
  {
    if !ValidAccount(posted) then (Invalid(AccountErrors(posted)), s)
    // the foreign key to Person and the unique index on account_number are checked at SaveChanges
    else if posted.personCode !in s.persons then (UpdateFailed, s)
    else if AccountNumberTaken(s.accounts, posted.accountNumber, s.nextAccountCode) then (UpdateFailed, s)
    else if !InMoneyRange(posted.outstandingBalance) then (UpdateFailed, s)
    else
      var c := s.nextAccountCode;
      (Redirected, s.(accounts := s.accounts[c := posted.(code := c)], nextAccountCode := c + 1))
  }

  /** POST Edit, as a function of the state before it: the posted record replaces the stored one whole. */
  function EditStep(s: Store, id: int, posted: Account): (r: (Outcome, Store))
    requires StoreValid(s)
    ensures StoreValid(r.1)
    ensures id != posted.code ==> r.0 == NotFound
    ensures id == posted.code && !ValidAccount(posted) ==> r.0 == Invalid(AccountErrors(posted))
    ensures id == posted.code && ValidAccount(posted) && id !in s.accounts ==> r.0 == NotFound
    ensures r.0 == Redirected <==>
      && id == posted.code && ValidAccount(posted) && id in s.accounts
      && posted.personCode in s.persons && !AccountNumberTaken(s.accounts, posted.accountNumber, id)
      && InMoneyRange(posted.outstandingBalance)
    ensures r.0 != Redirected ==> r.1 == s
    ensures (id == posted.code && ValidAccount(posted) && id in s.accounts &&
             !InMoneyRange(posted.outstandingBalance)) ==> r.0 == UpdateFailed
    ensures (id == posted.code && ValidAccount(posted) && id in s.accounts &&
             (posted.personCode !in s.persons || AccountNumberTaken(s.accounts, posted.accountNumber, id))) ==> r.0 == UpdateFailed
    ensures r.0 == Redirected ==>
      && r.1.accounts.Keys == s.accounts.Keys
      && r.1.accounts[id] == posted
      && (forall k :: k in s.accounts && k != id ==> r.1.accounts[k] == s.accounts[k])
      && r.1.persons == s.persons && r.1.transactions == s.transactions
  {
    if id != posted.code then (NotFound, s)
    else if !ValidAccount(posted) then (Invalid(AccountErrors(posted)), s)
    // Update of a row that is gone: the concurrency exception, then NotFound
    else if id !in s.accounts then (NotFound, s)
    else if posted.personCode !in s.persons then (UpdateFailed, s)
    else if AccountNumberTaken(s.accounts, posted.accountNumber, id) then (UpdateFailed, s)
    else if !InMoneyRange(posted.outstandingBalance) then (UpdateFailed, s)
    else (Redirected, s.(accounts := s.accounts[id := posted]))
  }

  /** POST Delete (`DeleteConfirmed`), as a function of the state before it. */
  function DeleteStep(s: Store, id: int): (r: (Outcome, Store))
    requires StoreValid(s)
    ensures StoreValid(r.1)
    ensures id !in s.accounts ==> r == (Redirected, s)
    // the foreign key from Transaction rejects removing an account that still has transactions
    ensures id in s.accounts && HasTransactions(s, id) ==> r == (UpdateFailed, s)
    ensures id in s.accounts && !HasTransactions(s, id) ==>
      r == (Redirected, s.(accounts := s.accounts - {id}))
  {
    if id !in s.accounts then (Redirected, s)
    else if HasTransactions(s, id) then (UpdateFailed, s)
    else (Redirected, s.(accounts := s.accounts - {id}))
  }

  // ---------------------------------------------------------------- account lemmas

  /** Deleting the account just created restores the tables. */
  lemma CreateThenDeleteRestores(s: Store, posted: Account)
    requires StoreValid(s)
    requires CreateStep(s, posted).0 == Redirected
    ensures var s1 := CreateStep(s, posted).1;
      DeleteStep(s1, s.nextAccountCode) == (Redirected, s.(nextAccountCode := s.nextAccountCode + 1))
  {
    var s1 := CreateStep(s, posted).1;
    var c := s.nextAccountCode;
    assert s1.accounts - {c} == s.accounts;
  }

  /**
   * A new account has an empty ledger, so its drift is its opening balance;
   * every other account keeps its drift.
   */
  lemma {:induction false} CreateOpensLedger(s: Store, posted: Account, a: int)
    requires StoreValid(s)
    requires CreateStep(s, posted).0 == Redirected
    ensures var s1 := CreateStep(s, posted).1;
      && Drift(s1, s.nextAccountCode) == posted.outstandingBalance
      && (a in s.accounts ==> Drift(s1, a) == Drift(s, a))
  {
    NoShareNoTotal(s.transactions, s.nextAccountCode);
  }

  lemma {:induction false} NoShareNoTotal(transactions: map<int, Transaction>, account: int)
    requires forall k :: k in transactions ==> transactions[k].accountCode != account
    ensures AccountTotal(transactions, account) == 0
    decreases transactions.Keys
  {
    if transactions != map[] {
      NonEmptyHasKey(transactions);
      var k :| k in transactions;
      AccountTotalRemove(transactions, k, account);
      NoShareNoTotal(transactions - {k}, account);
    }
  }

  /**
   * Edit overwrites the cached balance with the posted one, whatever the
   * account's transactions sum to: the edited account's drift becomes the
   * posted balance minus its ledger, and no other account's drift moves.
   */
  lemma EditOverwritesDrift(s: Store, id: int, posted: Account, a: int)
    requires StoreValid(s) && a in s.accounts
    requires EditStep(s, id, posted).0 == Redirected
    ensures var s1 := EditStep(s, id, posted).1;
      && Drift(s1, id) == posted.outstandingBalance - AccountTotal(s.transactions, id)
      && (a != id ==> Drift(s1, a) == Drift(s, a))
  {
  }

  /** Closing an account through Edit shuts it to new transactions. */
  lemma ClosingBlocksPosting(s: Store, id: int, posted: Account, t: Transaction, now: Time)
    requires StoreValid(s)
    requires EditStep(s, id, posted).0 == Redirected && posted.isClosed
    requires t.accountCode == id && TransactionsController.PostErrors(t, now) == {}
    ensures TransactionsController.CreateStep(EditStep(s, id, posted).1, t, now).0 == ClosedAccount
  {
  }

  // ---------------------------------------------------------------- the controller over the database

  /** POST Create. */
  method Create(db: Database, posted: Account) returns (r: Outcome)
    requires db.Valid()
    modifies db
    ensures db.Valid()
    ensures (r, db.Snapshot()) == CreateStep(old(db.Snapshot()), posted)
  {
    ghost var s := db.Snapshot();
    if !ValidAccount(posted) {
      return Invalid(AccountErrors(posted));
    }
    if posted.personCode !in db.persons {
      return UpdateFailed;
    }
    var c := db.nextAccountCode;
    if exists k :: k in db.accounts && k != c && db.accounts[k].accountNumber == posted.accountNumber {
      return UpdateFailed;
    }
    if !InMoneyRange(posted.outstandingBalance) {
      return UpdateFailed;
    }
    db.accounts := db.accounts[c := posted.(code := c)];
    db.nextAccountCode := c + 1;
    r := Redirected;
    assert db.Snapshot() == CreateStep(s, posted).1;
  }

  /** POST Edit. */
  method Edit(db: Database, id: int, posted: Account) returns (r: Outcome)
    requires db.Valid()
    modifies db
    ensures db.Valid()
    ensures (r, db.Snapshot()) == EditStep(old(db.Snapshot()), id, posted)
  {
    if id != posted.code {
      return NotFound;
    }
    if !ValidAccount(posted) {
      return Invalid(AccountErrors(posted));
    }
    if id !in db.accounts {
      return NotFound;
    }
    if posted.personCode !in db.persons {
      return UpdateFailed;
    }
    if exists k :: k in db.accounts && k != id && db.accounts[k].accountNumber == posted.accountNumber {
      return UpdateFailed;
    }
    if !InMoneyRange(posted.outstandingBalance) {
      return UpdateFailed;
    }
    db.accounts := db.accounts[id := posted];
    r := Redirected;
  }

  /** POST Delete. */
  method DeleteConfirmed(db: Database, id: int) returns (r: Outcome)
    requires db.Valid()
    modifies db
    ensures db.Valid()
    ensures (r, db.Snapshot()) == DeleteStep(old(db.Snapshot()), id)
  {
    if id in db.accounts {
      if exists k :: k in db.transactions && db.transactions[k].accountCode == id {
        return UpdateFailed;
      }
      db.accounts := db.accounts - {id};
    }
    r := Redirected;
  }
}

/**
 * TransactionsController: the ledger rules (posting, editing and deleting a
 * transaction against an account's cached `outstanding_balance`, gated by the
 * account's closed flag) and the transaction list's search, sort and paging.
 */
module TransactionsController {
  import opened Wrappers
  import opened Text
  import opened Query
  import opened Models
  import opened Data

  // ---------------------------------------------------------------- Index

  const PageSize := 5

  datatype SortField = ByDate | ByAmount
  datatype Ordering = Ordering(field: SortField, descending: bool)

  /** The `switch (sortOrder)`: any value other than the three named ones sorts by date, ascending. */
  function OrderingOf(sortOrder: Option<string>): (r: Ordering)
    ensures r.descending <==> sortOrder == Some("date_desc") || sortOrder == Some("amount_desc")
    ensures r.field == ByAmount <==> sortOrder == Some("Amount") || sortOrder == Some("amount_desc")
    ensures r.field == ByDate <==> sortOrder != Some("Amount") && sortOrder != Some("amount_desc")
  {
    if sortOrder == Some("date_desc") then Ordering(ByDate, true)
    else if sortOrder == Some("Amount") then Ordering(ByAmount, false)
    else if sortOrder == Some("amount_desc") then Ordering(ByAmount, true)
    else Ordering(ByDate, false)
  }

  /** The date column's header link: it sorts by date, descending exactly when `sortOrder` is null or empty. */
  function DateSortParm(sortOrder: Option<string>): (r: string)
    ensures OrderingOf(Some(r)) == Ordering(ByDate, IsNullOrEmpty(sortOrder))
    // the link toggles: from a descending date list it leads back to the default order
    ensures IsNullOrEmpty(Some(r)) <==> !IsNullOrEmpty(sortOrder)
  {
    if IsNullOrEmpty(sortOrder) then "date_desc" else ""
  }

  /** The amount column's header link: it sorts by amount, descending exactly when `sortOrder` is "Amount". */
  function AmountSortParm(sortOrder: Option<string>): (r: string)
    ensures OrderingOf(Some(r)) == Ordering(ByAmount, sortOrder == Some("Amount"))
  {
    if sortOrder == Some("Amount") then "amount_desc" else "Amount"
  }

  function SortKey(field: SortField): Transaction -> Key {
    match field
    case ByDate => (t: Transaction) => Num(t.transactionDate)
    case ByAmount => (t: Transaction) => Num(t.amount)
  }

  /** `a` may be listed before `b` under ordering `o`. */
  predicate Precedes(a: Transaction, b: Transaction, o: Ordering) {
    match o
    case Ordering(ByDate, false) => a.transactionDate <= b.transactionDate
    case Ordering(ByDate, true) => a.transactionDate >= b.transactionDate
    case Ordering(ByAmount, false) => a.amount <= b.amount
    case Ordering(ByAmount, true) => a.amount >= b.amount
  }

  /** A transaction matches the search text by its description or by its account's number. */
  predicate MatchesSearch(t: Transaction, search: string, accounts: map<int, Account>) {
    Contains(t.description, search)
    || (t.accountCode in accounts && Contains(accounts[t.accountCode].accountNumber, search))
  }

  /** The filter applied to the table: none when the search text is null or empty. */
  predicate Selected(t: Transaction, search: Option<string>, accounts: map<int, Account>) {
    IsNullOrEmpty(search) || MatchesSearch(t, search.value, accounts)
  }

  /** `Where(...)` on the table: the rows that pass the filter. */
  function Matching(rows: seq<Transaction>, accounts: map<int, Account>, search: Option<string>): (r: seq<Transaction>)
    ensures forall t :: t in r <==> t in rows && Selected(t, search, accounts)
  {
    if IsNullOrEmpty(search) then rows
    else
      var r := Filter(rows, (t: Transaction) => MatchesSearch(t, search.value, accounts));
      forall t | t in r ensures t in rows {
        var i :| 0 <= i < |r| && r[i] == t;
      }
      forall t | t in rows && MatchesSearch(t, search.value, accounts) ensures t in r {
        var i :| 0 <= i < |rows| && rows[i] == t;
      }
      r
  }

  /** All matching rows in the selected order (before paging). */
  function Listing(rows: seq<Transaction>, accounts: map<int, Account>, search: Option<string>,
                   sortOrder: Option<string>): seq<Transaction>
  {
    var o := OrderingOf(sortOrder);
    SortBy(Matching(rows, accounts, search), SortKey(o.field), o.descending)
  }

  lemma ListingSelects(rows: seq<Transaction>, accounts: map<int, Account>, search: Option<string>,
                       sortOrder: Option<string>)
    ensures forall t :: t in Listing(rows, accounts, search, sortOrder) ==> t in rows && Selected(t, search, accounts)
    ensures forall i :: 0 <= i < |rows| && Selected(rows[i], search, accounts) ==>
      rows[i] in Listing(rows, accounts, search, sortOrder)
  {
    var m := Matching(rows, accounts, search);
    var l := Listing(rows, accounts, search, sortOrder);
    assert forall t :: t in l <==> t in m by {
      assert multiset(l) == multiset(m);
      forall t ensures t in l <==> t in m {
        assert t in l <==> t in multiset(l);
        assert t in m <==> t in multiset(m);
      }
    }
  }

  lemma ListingOrdered(rows: seq<Transaction>, accounts: map<int, Account>, search: Option<string>,
                       sortOrder: Option<string>)
    ensures var l := Listing(rows, accounts, search, sortOrder);
      forall i, j :: 0 <= i < j < |l| ==> Precedes(l[i], l[j], OrderingOf(sortOrder))
  {
    var l := Listing(rows, accounts, search, sortOrder);
    var o := OrderingOf(sortOrder);
    forall i, j | 0 <= i < j < |l| ensures Precedes(l[i], l[j], o) {
      assert InOrder(SortKey(o.field)(l[i]), SortKey(o.field)(l[j]), o.descending);
    }
  }

  /** What the list view is given. */
  datatype IndexView = IndexView(
    currentSort: Option<string>,
    dateSortParm: string,
    amountSortParm: string,
    currentFilter: Option<string>,
    pageNumber: int,
    items: seq<Transaction>)

  /** A new search text starts again at page 1; otherwise the search carried in `currentFilter` applies. */
  function EffectivePage(searchString: Option<string>, page: Option<int>): int {
    if searchString.Some? then 1 else if page.Some? then page.value else 1
  }

  /**
   * `Index(sortOrder, currentFilter, searchString, page)` over the table's rows
   * (`rows`, in whatever order the database yields them) and the accounts they
   * refer to. `None`: the paging library rejected the page number.
   */
  function Index(sortOrder: Option<string>, currentFilter: Option<string>, searchString: Option<string>,
                 page: Option<int>, rows: seq<Transaction>, accounts: map<int, Account>): (r: Option<IndexView>)
    ensures r.Some? <==> (searchString.Some? || page.None? || page.value >= 1)
    ensures searchString.Some? ==> r.Some? && r.value.pageNumber == 1
    ensures page.None? ==> r.Some? && r.value.pageNumber == 1
    ensures r.Some? ==> r.value.currentFilter == (if searchString.Some? then searchString else currentFilter)
    ensures r.Some? ==> |r.value.items| <= 5
    // the page shown is the requested slice of the filtered, sorted rows, for a new search too
    ensures r.Some? ==> r.value.currentSort == sortOrder
    ensures r.Some? ==>
      Page(Listing(rows, accounts, r.value.currentFilter, sortOrder), r.value.pageNumber, PageSize) == Some(r.value.items)
    ensures r.Some? ==> r.value.dateSortParm == DateSortParm(sortOrder) && r.value.amountSortParm == AmountSortParm(sortOrder)
    ensures r.Some? ==> forall t :: t in r.value.items ==> t in rows && Selected(t, r.value.currentFilter, accounts)
    ensures r.Some? ==> forall i, j :: 0 <= i < j < |r.value.items| ==>
      Precedes(r.value.items[i], r.value.items[j], OrderingOf(sortOrder))
  {
    var search := if searchString.Some? then searchString else currentFilter;
    var number := EffectivePage(searchString, page);
    var listing := Listing(rows, accounts, search, sortOrder);
    ListingSelects(rows, accounts, search, sortOrder);
    ListingOrdered(rows, accounts, search, sortOrder);
    if number < 1 then None
    else
      PageOfOrdered(listing, number, PageSize, (a, b) => Precedes(a, b, OrderingOf(sortOrder)));
      var items := Page(listing, number, PageSize).value;
      Some(IndexView(sortOrder, DateSortParm(sortOrder), AmountSortParm(sortOrder), search, number, items))
  }

  /** Paging through the list reaches every transaction that matches the search (the filter is carried in `currentFilter`). */
  lemma IndexListsEveryMatch(sortOrder: Option<string>, currentFilter: Option<string>,
                             rows: seq<Transaction>, accounts: map<int, Account>, t: Transaction)
    requires t in rows && Selected(t, currentFilter, accounts)
    ensures exists n :: n >= 1 && Index(sortOrder, currentFilter, None, Some(n), rows, accounts).Some? &&
                        t in Index(sortOrder, currentFilter, None, Some(n), rows, accounts).value.items
  {
    MatchIsListed(sortOrder, currentFilter, rows, accounts, t);
    ListedIsReached(sortOrder, currentFilter, rows, accounts, t);
  }

  lemma MatchIsListed(sortOrder: Option<string>, currentFilter: Option<string>,
                      rows: seq<Transaction>, accounts: map<int, Account>, t: Transaction)
    requires t in rows && Selected(t, currentFilter, accounts)
    ensures t in Listing(rows, accounts, currentFilter, sortOrder)
  {
    ListingSelects(rows, accounts, currentFilter, sortOrder);
    var k :| 0 <= k < |rows| && rows[k] == t;
  }

  lemma ListedIsReached(sortOrder: Option<string>, currentFilter: Option<string>,
                        rows: seq<Transaction>, accounts: map<int, Account>, t: Transaction)
    requires t in Listing(rows, accounts, currentFilter, sortOrder)
    ensures exists n :: n >= 1 && Index(sortOrder, currentFilter, None, Some(n), rows, accounts).Some? &&
                        t in Index(sortOrder, currentFilter, None, Some(n), rows, accounts).value.items
  {
    var listing := Listing(rows, accounts, currentFilter, sortOrder);
    var i :| 0 <= i < |listing| && listing[i] == t;
    RowIsReached(sortOrder, currentFilter, rows, accounts, i);
  }

  /** Row `i` of the list is on page `i / PageSize + 1`. */
  lemma RowIsReached(sortOrder: Option<string>, currentFilter: Option<string>,
                     rows: seq<Transaction>, accounts: map<int, Account>, i: int)
    requires 0 <= i < |Listing(rows, accounts, currentFilter, sortOrder)|
    ensures Index(sortOrder, currentFilter, None, Some(i / PageSize + 1), rows, accounts).Some?
    ensures Listing(rows, accounts, currentFilter, sortOrder)[i] in
              Index(sortOrder, currentFilter, None, Some(i / PageSize + 1), rows, accounts).value.items
  {
    var listing := Listing(rows, accounts, currentFilter, sortOrder);
    PageHolds(listing, i, PageSize);
    IndexPage(sortOrder, currentFilter, i / PageSize + 1, rows, accounts);
  }

  /** Without a new search, page `n` of the list is the `n`-th slice of the filtered, sorted rows. */
  lemma IndexPage(sortOrder: Option<string>, currentFilter: Option<string>, n: int,
                  rows: seq<Transaction>, accounts: map<int, Account>)
    requires n >= 1
    ensures Index(sortOrder, currentFilter, None, Some(n), rows, accounts).Some?
    ensures Index(sortOrder, currentFilter, None, Some(n), rows, accounts).value.items
      == Page(Listing(rows, accounts, currentFilter, sortOrder), n, PageSize).value
  {
  }

  // ---------------------------------------------------------------- GET forms

  /** What a GET action shows: the form, a redirect away from a closed account, or NotFound. */
  datatype Form = ShowForm(transaction: Transaction) | ClosedRedirect(accountCode: int) | FormNotFound

  predicate IsClosed(s: Store, accountCode: int) {
    accountCode in s.accounts && s.accounts[accountCode].isClosed
  }

  /** GET Create: a blank transaction for the account, dated now, unless the account is closed. */
  function CreateForm(s: Store, accountCode: int, now: Time): (r: Form)
    ensures r.ClosedRedirect? <==> IsClosed(s, accountCode)
    ensures !r.FormNotFound?
    ensures r.ShowForm? ==>
      r.transaction.accountCode == accountCode && r.transaction.transactionDate == now && r.transaction.captureDate == now
  {
    if IsClosed(s, accountCode) then ClosedRedirect(accountCode)
    else ShowForm(Transaction(0, accountCode, now, now, 0, ""))
  }

  /** GET Edit and GET Delete: the stored transaction, unless it is missing or its account is closed. */
  function StoredForm(s: Store, id: int): (r: Form)
    ensures r.FormNotFound? <==> id !in s.transactions
    ensures r.ClosedRedirect? <==> id in s.transactions && IsClosed(s, s.transactions[id].accountCode)
    ensures r.ClosedRedirect? ==> r.accountCode == s.transactions[id].accountCode
    ensures r.ShowForm? ==> r.transaction == s.transactions[id]
  {
    if id !in s.transactions then FormNotFound
    else if IsClosed(s, s.transactions[id].accountCode) then ClosedRedirect(s.transactions[id].accountCode)
    else ShowForm(s.transactions[id])
  }

  // ---------------------------------------------------------------- POST actions

  /**
   * The errors in `ModelState` for a posted transaction: those of its attributes
   * plus the two business rules (no future date, no zero amount).
   */
  function PostErrors(t: Transaction, now: Time): (r: set<Field>)
    ensures TransactionDateField in r <==> t.transactionDate > now
    ensures AmountField in r <==> t.amount < MinAmount
    ensures DescriptionField in r <==> !RequiredText(t.description, MaxDescriptionLength)
    ensures r == {} <==> t.transactionDate <= now && ValidTransaction(t)
  {
    TransactionErrors(t)
    + (if t.transactionDate > now then {TransactionDateField} else {})
    + (if t.amount == 0 then {AmountField} else {})
  }

  /** The new row's amount and the account's raised balance both fit a `money` column. */
  predicate PostingFits(s: Store, posted: Transaction)
    requires posted.accountCode in s.accounts
  {
    InMoneyRange(posted.amount) && InMoneyRange(s.accounts[posted.accountCode].outstandingBalance + posted.amount)
  }

  /** The account's lowered balance fits a `money` column. */
  predicate RetractionFits(s: Store, t: Transaction)
    requires t.accountCode in s.accounts
  {
    InMoneyRange(s.accounts[t.accountCode].outstandingBalance - t.amount)
  }

  /** POST Create, as a function of the state before it. */
  function CreateStep(s: Store, posted: Transaction, now: Time): (r: (Outcome, Store))
    requires StoreValid(s)
    ensures StoreValid(r.1)
    ensures r.0 == Redirected <==>
      && PostErrors(posted, now) == {} && posted.accountCode in s.accounts && !IsClosed(s, posted.accountCode)
      && PostingFits(s, posted)
    ensures r.0 != Redirected ==> r.1 == s
    ensures posted.transactionDate > now || posted.amount == 0 ==> r.0.Invalid?
    ensures PostErrors(posted, now) != {} ==> r.0 == Invalid(PostErrors(posted, now))
    ensures PostErrors(posted, now) == {} && IsClosed(s, posted.accountCode) ==> r.0 == ClosedAccount
    ensures PostErrors(posted, now) == {} && posted.accountCode !in s.accounts ==> r.0 == UpdateFailed
    // an amount or a balance beyond the range of `money` fails at SaveChanges
    ensures (PostErrors(posted, now) == {} && posted.accountCode in s.accounts && !IsClosed(s, posted.accountCode) &&
             !PostingFits(s, posted)) ==> r.0 == UpdateFailed
    // one new transaction, numbered by the identity column, captured now
    ensures r.0 == Redirected ==>
      var c := s.nextTransactionCode;
      && c !in s.transactions
      && r.1.transactions.Keys == s.transactions.Keys + {c}
      && (forall k :: k in s.transactions ==> r.1.transactions[k] == s.transactions[k])
      && r.1.transactions[c] == posted.(code := c, captureDate := now)
    // the owning account's balance rises by the amount; nothing else changes
    ensures r.0 == Redirected ==>
      var a := posted.accountCode;
      && r.1.accounts.Keys == s.accounts.Keys
      && r.1.accounts[a] == s.accounts[a].(outstandingBalance := s.accounts[a].outstandingBalance + posted.amount)
      && (forall k :: k in s.accounts && k != a ==> r.1.accounts[k] == s.accounts[k])
      && r.1.persons == s.persons
  {
    var errors := PostErrors(posted, now);
    if errors != {} then (Invalid(errors), s)
    else if IsClosed(s, posted.accountCode) then (ClosedAccount, s)
    // SaveChanges fails: the foreign key, or a value beyond the range of `money`
    else if posted.accountCode !in s.accounts || !PostingFits(s, posted) then (UpdateFailed, s)
    else
      var c := s.nextTransactionCode;
      var t := posted.(code := c, captureDate := now);
      var account := s.accounts[posted.accountCode];
      var s' := s.(
        transactions := s.transactions[c := t],
        nextTransactionCode := c + 1,
        accounts := s.accounts[account.code := account.(outstandingBalance := account.outstandingBalance + t.amount)]);
      (Redirected, s')
  }

  /** POST Edit, as a function of the state before it. */
  function EditStep(s: Store, id: int, posted: Transaction, now: Time): (r: (Outcome, Store))
    requires StoreValid(s)
    ensures StoreValid(r.1)
    ensures id != posted.code ==> r.0 == NotFound
    ensures r.0 == Redirected <==>
      && id == posted.code && PostErrors(posted, now) == {}
      && id in s.transactions && posted.accountCode in s.accounts && !IsClosed(s, posted.accountCode)
      && InMoneyRange(posted.amount)
    ensures r.0 != Redirected ==> r.1 == s
    ensures id == posted.code && PostErrors(posted, now) != {} ==> r.0 == Invalid(PostErrors(posted, now))
    // the closed flag consulted is the one of the POSTED account
    ensures id == posted.code && PostErrors(posted, now) == {} && IsClosed(s, posted.accountCode) ==> r.0 == ClosedAccount
    ensures (id == posted.code && PostErrors(posted, now) == {} && !IsClosed(s, posted.accountCode) &&
             id !in s.transactions) ==> r.0 == NotFound
    ensures (id == posted.code && PostErrors(posted, now) == {} && !IsClosed(s, posted.accountCode) &&
             id in s.transactions && !InMoneyRange(posted.amount)) ==> r.0 == UpdateFailed
    // the foreign key rejects a posted account that does not exist
    ensures (id == posted.code && PostErrors(posted, now) == {} && id in s.transactions &&
             posted.accountCode !in s.accounts) ==> r.0 == UpdateFailed
    // no balance is touched, whatever the outcome
    ensures r.1.accounts == s.accounts && r.1.persons == s.persons
    ensures r.0 == Redirected ==>
      && r.1.transactions.Keys == s.transactions.Keys
      && r.1.transactions[id] == posted.(captureDate := s.transactions[id].captureDate)
      && (forall k :: k in s.transactions && k != id ==> r.1.transactions[k] == s.transactions[k])
  {
    if id != posted.code then (NotFound, s)
    else
      var errors := PostErrors(posted, now);
      if errors != {} then (Invalid(errors), s)
      else if IsClosed(s, posted.accountCode) then (ClosedAccount, s)
      // Update of a row that is gone: the concurrency exception, then NotFound
      else if id !in s.transactions then (NotFound, s)
      // SaveChanges fails: the foreign key, or an amount beyond the range of `money`
      else if posted.accountCode !in s.accounts || !InMoneyRange(posted.amount) then (UpdateFailed, s)
      else
        var t := posted.(captureDate := s.transactions[id].captureDate);
        (Redirected, s.(transactions := s.transactions[id := t]))
  }

  /** POST Delete (`DeleteConfirmed`), as a function of the state before it. */
  function DeleteStep(s: Store, id: int): (r: (Outcome, Store))
    requires StoreValid(s)
    ensures StoreValid(r.1)
    ensures id !in s.transactions ==> r == (Redirected, s)
    ensures id in s.transactions && IsClosed(s, s.transactions[id].accountCode) ==> r == (ClosedAccount, s)
    // the lowered balance must still fit a `money` column, or SaveChanges fails
    ensures (id in s.transactions && !IsClosed(s, s.transactions[id].accountCode) &&
             !RetractionFits(s, s.transactions[id])) ==> r == (UpdateFailed, s)
    ensures (id in s.transactions && !IsClosed(s, s.transactions[id].accountCode) &&
             RetractionFits(s, s.transactions[id])) ==>
      var t := s.transactions[id];
      && r.0 == Redirected
      && r.1.transactions == s.transactions - {id}
      && r.1.accounts.Keys == s.accounts.Keys
      && r.1.accounts[t.accountCode]
         == s.accounts[t.accountCode].(outstandingBalance := s.accounts[t.accountCode].outstandingBalance - t.amount)
      && (forall k :: k in s.accounts && k != t.accountCode ==> r.1.accounts[k] == s.accounts[k])
      && r.1.persons == s.persons
  {
    if id !in s.transactions then (Redirected, s)
    else
      var t := s.transactions[id];
      if IsClosed(s, t.accountCode) then (ClosedAccount, s)
      else if t.accountCode in s.accounts && !RetractionFits(s, t) then (UpdateFailed, s)
      else
        var accounts := if t.accountCode in s.accounts then
            var account := s.accounts[t.accountCode];
            s.accounts[t.accountCode := account.(outstandingBalance := account.outstandingBalance - t.amount)]
          else s.accounts;
        (Redirected, s.(accounts := accounts, transactions := s.transactions - {id}))
  }

  // ---------------------------------------------------------------- ledger lemmas

  /** Deleting the transaction just created restores every balance and every other transaction. */
  lemma CreateThenDeleteRestores(s: Store, posted: Transaction, now: Time)
    requires StoreValid(s)
    requires CreateStep(s, posted, now).0 == Redirected
    ensures var s1 := CreateStep(s, posted, now).1;
      DeleteStep(s1, s.nextTransactionCode) == (Redirected, s.(nextTransactionCode := s.nextTransactionCode + 1))
  {
    var s1 := CreateStep(s, posted, now).1;
    var c := s.nextTransactionCode;
    var a := posted.accountCode;
    var account := s.accounts[a];
    assert s1.transactions[c] == posted.(code := c, captureDate := now);
    assert s1.transactions - {c} == s.transactions;
    assert s1.accounts == s.accounts[a := account.(outstandingBalance := account.outstandingBalance + posted.amount)];
    assert s1.accounts[a].(outstandingBalance := s1.accounts[a].outstandingBalance - posted.amount) == account;
    assert s.accounts[a := account] == s.accounts;
    var s2 := DeleteStep(s1, c).1;
    assert s2.accounts == s.accounts && s2.transactions == s.transactions;
  }

  /** Create keeps every account's drift from its ledger: the new amount enters balance and ledger alike. */
  lemma {:induction false} CreateKeepsDrift(s: Store, posted: Transaction, now: Time, a: int)
    requires StoreValid(s) && a in s.accounts
    requires CreateStep(s, posted, now).0 == Redirected
    ensures Drift(CreateStep(s, posted, now).1, a) == Drift(s, a)
  {
    var s1 := CreateStep(s, posted, now).1;
    var c := s.nextTransactionCode;
    AccountTotalRemove(s1.transactions, c, a);
    assert s1.transactions - {c} == s.transactions;
  }

  /** Delete keeps every account's drift from its ledger: the amount leaves balance and ledger alike. */
  lemma {:induction false} DeleteKeepsDrift(s: Store, id: int, a: int)
    requires StoreValid(s) && a in s.accounts
    ensures Drift(DeleteStep(s, id).1, a) == Drift(s, a)
  {
    if id in s.transactions && !IsClosed(s, s.transactions[id].accountCode) {
      AccountTotalRemove(s.transactions, id, a);
    }
  }

  /**
   * Edit does not keep the drift: changing an amount from x to y shifts the
   * owning account's drift by x - y, and moving a transaction between accounts
   * shifts both. The balance a successful edit leaves is the old one.
   */
  lemma {:induction false} EditShiftsDrift(s: Store, id: int, posted: Transaction, now: Time, a: int)
    requires StoreValid(s) && a in s.accounts
    requires EditStep(s, id, posted, now).0 == Redirected
    ensures var old_t := s.transactions[id];
      Drift(EditStep(s, id, posted, now).1, a)
      == Drift(s, a) + Share(old_t, a) - Share(posted, a)
  {
    var s1 := EditStep(s, id, posted, now).1;
    AccountTotalRemove(s.transactions, id, a);
    AccountTotalRemove(s1.transactions, id, a);
    assert s1.transactions - {id} == s.transactions - {id};
  }

  /** When balance and ledger agree, Create and Delete keep them agreeing. */
  lemma LedgerAgreementKept(s: Store, posted: Transaction, now: Time, id: int, a: int)
    requires StoreValid(s) && a in s.accounts
    requires Drift(s, a) == 0
    ensures CreateStep(s, posted, now).0 == Redirected ==> Drift(CreateStep(s, posted, now).1, a) == 0
    ensures Drift(DeleteStep(s, id).1, a) == 0
  {
    if CreateStep(s, posted, now).0 == Redirected {
      CreateKeepsDrift(s, posted, now, a);
    }
    DeleteKeepsDrift(s, id, a);
  }

  /**
   * Edit moves a transaction out of a closed account when the posted account
   * is open: the stored account's flag is never consulted, and no balance moves.
   */
  lemma EditBypassesStoredClosedAccount(s: Store, id: int, posted: Transaction, now: Time)
    requires StoreValid(s)
    requires id in s.transactions && IsClosed(s, s.transactions[id].accountCode)
    requires id == posted.code && PostErrors(posted, now) == {}
    requires posted.accountCode in s.accounts && !IsClosed(s, posted.accountCode) && InMoneyRange(posted.amount)
    ensures var r := EditStep(s, id, posted, now);
      r.0 == Redirected && r.1.transactions[id].accountCode == posted.accountCode && r.1.accounts == s.accounts
  {
  }

  // ---------------------------------------------------------------- the controller over the database

  /** POST Create. */
  method Create(db: Database, posted: Transaction, now: Time) returns (r: Outcome)
    requires db.Valid()
    modifies db
    ensures db.Valid()
    ensures (r, db.Snapshot()) == CreateStep(old(db.Snapshot()), posted, now)
  {
    ghost var s := db.Snapshot();
    var errors := PostErrors(posted, now);
    if errors != {} {
      return Invalid(errors);
    }
    if posted.accountCode in db.accounts && db.accounts[posted.accountCode].isClosed {
      return ClosedAccount;
    }
    if posted.accountCode !in db.accounts {
      // the foreign key rejects the new row at SaveChanges; nothing is written
      return UpdateFailed;
    }
    var balance := db.accounts[posted.accountCode].outstandingBalance + posted.amount;
    if !InMoneyRange(posted.amount) || !InMoneyRange(balance) {
      return UpdateFailed;
    }
    var t := posted.(code := db.nextTransactionCode, captureDate := now);
    db.transactions := db.transactions[t.code := t];
    db.nextTransactionCode := db.nextTransactionCode + 1;
    var account := db.accounts[t.accountCode];
    db.accounts := db.accounts[account.code := account.(outstandingBalance := account.outstandingBalance + t.amount)];
    r := Redirected;
    assert db.Snapshot() == CreateStep(s, posted, now).1;
  }

  /** POST Edit. */
  method Edit(db: Database, id: int, posted: Transaction, now: Time) returns (r: Outcome)
    requires db.Valid()
    modifies db
    ensures db.Valid()
    ensures (r, db.Snapshot()) == EditStep(old(db.Snapshot()), id, posted, now)
  {
    if id != posted.code {
      return NotFound;
    }
    var errors := PostErrors(posted, now);
    if errors != {} {
      return Invalid(errors);
    }
    if posted.accountCode in db.accounts && db.accounts[posted.accountCode].isClosed {
      return ClosedAccount;
    }
    if id !in db.transactions {
      return NotFound;
    }
    if posted.accountCode !in db.accounts || !InMoneyRange(posted.amount) {
      return UpdateFailed;
    }
    var original := db.transactions[id];
    var t := posted.(captureDate := original.captureDate);
    db.transactions := db.transactions[id := t];
    r := Redirected;
  }

  /** POST Delete. */
  method DeleteConfirmed(db: Database, id: int) returns (r: Outcome)
    requires db.Valid()
    modifies db
    ensures db.Valid()
    ensures (r, db.Snapshot()) == DeleteStep(old(db.Snapshot()), id)
  {
    ghost var s := db.Snapshot();
    if id in db.transactions {
      var t := db.transactions[id];
      if t.accountCode in db.accounts && db.accounts[t.accountCode].isClosed {
        return ClosedAccount;
      }
      if t.accountCode in db.accounts {
        var account := db.accounts[t.accountCode];
        if !InMoneyRange(account.outstandingBalance - t.amount) {
          return UpdateFailed;
        }
        db.accounts := db.accounts[t.accountCode := account.(outstandingBalance := account.outstandingBalance - t.amount)];
      }
      db.transactions := db.transactions - {id};
    }
    r := Redirected;
    assert (r, db.Snapshot()) == DeleteStep(s, id);
  }
}

/**
 * PersonsController: the person list's three-way search, sort and paging, and
 * the create, edit and delete actions on the Persons table.
 */
module PersonsController {
  import opened Wrappers
  import opened Text
  import opened Query
  import opened Models
  import opened Data

  // ---------------------------------------------------------------- Index

  const PageSize := 10

  datatype SortField = ByName | BySurname
  datatype Ordering = Ordering(field: SortField, descending: bool)

  /** The `switch (sortOrder)`: any value other than the three named ones sorts by name, ascending. */
  function OrderingOf(sortOrder: Option<string>): (r: Ordering)
    ensures r.descending <==> sortOrder == Some("name_desc") || sortOrder == Some("surname_desc")
    ensures r.field == BySurname <==> sortOrder == Some("Surname") || sortOrder == Some("surname_desc")
    ensures r.field == ByName <==> sortOrder != Some("Surname") && sortOrder != Some("surname_desc")
  {
    if sortOrder == Some("name_desc") then Ordering(ByName, true)
    else if sortOrder == Some("Surname") then Ordering(BySurname, false)
    else if sortOrder == Some("surname_desc") then Ordering(BySurname, true)
    else Ordering(ByName, false)
  }

  /** The name column's header link: it sorts by name, descending exactly when `sortOrder` is null or empty. */
  function NameSortParm(sortOrder: Option<string>): (r: string)
    ensures OrderingOf(Some(r)) == Ordering(ByName, IsNullOrEmpty(sortOrder))
    // the link toggles: from a descending name list it leads back to the default order
    ensures IsNullOrEmpty(Some(r)) <==> !IsNullOrEmpty(sortOrder)
  {
    if IsNullOrEmpty(sortOrder) then "name_desc" else ""
  }

  /** The surname column's header link: it sorts by surname, descending exactly when `sortOrder` is "Surname". */
  function SurnameSortParm(sortOrder: Option<string>): (r: string)
    ensures OrderingOf(Some(r)) == Ordering(BySurname, sortOrder == Some("Surname"))
  {
    if sortOrder == Some("Surname") then "surname_desc" else "Surname"
  }

  function SortKey(field: SortField): Person -> Key {
    match field
    case ByName => (p: Person) => Str(p.name)
    case BySurname => (p: Person) => Str(Some(p.surname))
  }

  /** `a` may be listed before `b` under ordering `o` (a missing name sorts first). */
  predicate Precedes(a: Person, b: Person, o: Ordering) {
    match o
    case Ordering(ByName, false) => KeyLe(Str(a.name), Str(b.name))
    case Ordering(ByName, true) => KeyLe(Str(b.name), Str(a.name))
    case Ordering(BySurname, false) => StrLe(a.surname, b.surname)
    case Ordering(BySurname, true) => StrLe(b.surname, a.surname)
  }

  /** One of the person's accounts has a number containing `text`. */
  predicate HasAccountLike(p: Person, accounts: map<int, Account>, text: string) {
    exists k :: k in accounts && accounts[k].personCode == p.code && Contains(accounts[k].accountNumber, text)
  }

  /** The three filters together; a null or empty one places no restriction. */
  predicate Selected(p: Person, idNumber: Option<string>, surname: Option<string>, accountNumber: Option<string>,
                     accounts: map<int, Account>)
  {
    && (IsNullOrEmpty(idNumber) || Contains(p.idNumber, idNumber.value))
    && (IsNullOrEmpty(surname) || Contains(p.surname, surname.value))
    && (IsNullOrEmpty(accountNumber) || HasAccountLike(p, accounts, accountNumber.value))
  }

  /** One filter of the three: skipped when its text is null or empty, else `Where(p => test(p, text))`. */
  function Narrow(s: seq<Person>, text: Option<string>, test: (Person, string) -> bool): (r: seq<Person>)
    ensures forall p :: p in r ==> p in s && (IsNullOrEmpty(text) || test(p, text.value))
    ensures forall p :: p in s && (IsNullOrEmpty(text) || test(p, text.value)) ==> p in r
  {
    if IsNullOrEmpty(text) then s
    else
      var r := Filter(s, (p: Person) => test(p, text.value));
      forall p | p in r ensures p in s {
        var i :| 0 <= i < |r| && r[i] == p;
      }
      forall p | p in s && test(p, text.value) ensures p in r {
        var i :| 0 <= i < |s| && s[i] == p;
      }
      r
  }

  /** The rows that pass the filters, applied one after the other. */
  function Matching(rows: seq<Person>, accounts: map<int, Account>, idNumber: Option<string>,
                    surname: Option<string>, accountNumber: Option<string>): (r: seq<Person>)
    ensures forall p :: p in r <==> p in rows && Selected(p, idNumber, surname, accountNumber, accounts)
  {
    var byId := Narrow(rows, idNumber, (p: Person, t: string) => Contains(p.idNumber, t));
    var bySurname := Narrow(byId, surname, (p: Person, t: string) => Contains(p.surname, t));
    Narrow(bySurname, accountNumber, (p: Person, t: string) => HasAccountLike(p, accounts, t))
  }

  /** All matching rows in the selected order (before paging). */
  function Listing(rows: seq<Person>, accounts: map<int, Account>, idNumber: Option<string>,
                   surname: Option<string>, accountNumber: Option<string>, sortOrder: Option<string>): seq<Person>
  {
    var o := OrderingOf(sortOrder);
    SortBy(Matching(rows, accounts, idNumber, surname, accountNumber), SortKey(o.field), o.descending)
  }

  lemma ListingSelects(rows: seq<Person>, accounts: map<int, Account>, idNumber: Option<string>,
                       surname: Option<string>, accountNumber: Option<string>, sortOrder: Option<string>)
    ensures forall p :: p in Listing(rows, accounts, idNumber, surname, accountNumber, sortOrder) ==>
      p in rows && Selected(p, idNumber, surname, accountNumber, accounts)
    ensures forall i :: 0 <= i < |rows| && Selected(rows[i], idNumber, surname, accountNumber, accounts) ==>
      rows[i] in Listing(rows, accounts, idNumber, surname, accountNumber, sortOrder)
  {
    var m := Matching(rows, accounts, idNumber, surname, accountNumber);
    var o := OrderingOf(sortOrder);
    var l := SortBy(m, SortKey(o.field), o.descending);
    assert l == Listing(rows, accounts, idNumber, surname, accountNumber, sortOrder);
    assert forall p :: p in l <==> p in m by {
      assert multiset(l) == multiset(m);
      forall p ensures p in l <==> p in m {
        assert p in l <==> p in multiset(l);
        assert p in m <==> p in multiset(m);
      }
    }
    forall i | 0 <= i < |rows| && Selected(rows[i], idNumber, surname, accountNumber, accounts) ensures rows[i] in l {
      assert rows[i] in m;
    }
  }

  lemma ListingOrdered(rows: seq<Person>, accounts: map<int, Account>, idNumber: Option<string>,
                       surname: Option<string>, accountNumber: Option<string>, sortOrder: Option<string>)
    ensures var l := Listing(rows, accounts, idNumber, surname, accountNumber, sortOrder);
      forall i, j :: 0 <= i < j < |l| ==> Precedes(l[i], l[j], OrderingOf(sortOrder))
  {
    var l := Listing(rows, accounts, idNumber, surname, accountNumber, sortOrder);
    var o := OrderingOf(sortOrder);
    forall i, j | 0 <= i < j < |l| ensures Precedes(l[i], l[j], o) {
      assert InOrder(SortKey(o.field)(l[i]), SortKey(o.field)(l[j]), o.descending);
    }
  }

  /** With every filter empty the list holds every person, each as often as in the table. */
  lemma UnfilteredListingIsPermutation(rows: seq<Person>, accounts: map<int, Account>, sortOrder: Option<string>)
    ensures multiset(Listing(rows, accounts, None, None, None, sortOrder)) == multiset(rows)
  {
  }

  /** What the list view is given. */
  datatype IndexView = IndexView(
    currentSort: Option<string>,
    nameSortParm: string,
    surnameSortParm: string,
    currentIdNumber: Option<string>,
    currentSurname: Option<string>,
    currentAccountNumber: Option<string>,
    pageNumber: int,
    items: seq<Person>)

  /**
   * `Index(sortOrder, idNumber, surname, accountNumber, page)` over the table's
   * rows and the accounts table. `None`: the paging library rejected the page number.
   */
  function Index(sortOrder: Option<string>, idNumber: Option<string>, surname: Option<string>,
                 accountNumber: Option<string>, page: Option<int>,
                 rows: seq<Person>, accounts: map<int, Account>): (r: Option<IndexView>)
    ensures r.Some? <==> (page.None? || page.value >= 1)
    ensures r.Some? ==> r.value.pageNumber == (if page.Some? then page.value else 1)
    ensures r.Some? ==>
      r.value.items == Page(Listing(rows, accounts, idNumber, surname, accountNumber, sortOrder), r.value.pageNumber, PageSize).value
    ensures r.Some? ==> |r.value.items| <= 10
    // the sort and the three filters are handed back, for the paging links and the search form
    ensures r.Some? ==>
      && r.value.currentSort == sortOrder && r.value.currentIdNumber == idNumber
      && r.value.currentSurname == surname && r.value.currentAccountNumber == accountNumber
    ensures r.Some? ==> r.value.nameSortParm == NameSortParm(sortOrder) && r.value.surnameSortParm == SurnameSortParm(sortOrder)
    ensures r.Some? ==> forall p :: p in r.value.items ==>
      p in rows && Selected(p, idNumber, surname, accountNumber, accounts)
    ensures r.Some? ==> forall i, j :: 0 <= i < j < |r.value.items| ==>
      Precedes(r.value.items[i], r.value.items[j], OrderingOf(sortOrder))
  {
    var number := if page.Some? then page.value else 1;
    var listing := Listing(rows, accounts, idNumber, surname, accountNumber, sortOrder);
    ListingSelects(rows, accounts, idNumber, surname, accountNumber, sortOrder);
    ListingOrdered(rows, accounts, idNumber, surname, accountNumber, sortOrder);
    if number < 1 then None
    else
      PageOfOrdered(listing, number, PageSize, (a, b) => Precedes(a, b, OrderingOf(sortOrder)));
      var items := Page(listing, number, PageSize).value;
      Some(IndexView(sortOrder, NameSortParm(sortOrder), SurnameSortParm(sortOrder),
                     idNumber, surname, accountNumber, number, items))
  }

  /** Paging through the list reaches every person that passes the filters. */
  lemma IndexListsEveryMatch(sortOrder: Option<string>, idNumber: Option<string>, surname: Option<string>,
                             accountNumber: Option<string>, rows: seq<Person>, accounts: map<int, Account>, p: Person)
    requires p in rows && Selected(p, idNumber, surname, accountNumber, accounts)
    ensures exists n :: n >= 1 && Index(sortOrder, idNumber, surname, accountNumber, Some(n), rows, accounts).Some? &&
                        p in Index(sortOrder, idNumber, surname, accountNumber, Some(n), rows, accounts).value.items
  {
    MatchIsListed(sortOrder, idNumber, surname, accountNumber, rows, accounts, p);
    ListedIsReached(sortOrder, idNumber, surname, accountNumber, rows, accounts, p);
  }

  lemma ListedIsReached(sortOrder: Option<string>, idNumber: Option<string>, surname: Option<string>,
                        accountNumber: Option<string>, rows: seq<Person>, accounts: map<int, Account>, p: Person)
    requires p in Listing(rows, accounts, idNumber, surname, accountNumber, sortOrder)
    ensures exists n :: n >= 1 && Index(sortOrder, idNumber, surname, accountNumber, Some(n), rows, accounts).Some? &&
                        p in Index(sortOrder, idNumber, surname, accountNumber, Some(n), rows, accounts).value.items
  {
    var listing := Listing(rows, accounts, idNumber, surname, accountNumber, sortOrder);
    var i :| 0 <= i < |listing| && listing[i] == p;
    RowIsReached(sortOrder, idNumber, surname, accountNumber, rows, accounts, i);
  }

  /** Row `i` of the list is on page `i / PageSize + 1`. */
  lemma RowIsReached(sortOrder: Option<string>, idNumber: Option<string>, surname: Option<string>,
                     accountNumber: Option<string>, rows: seq<Person>, accounts: map<int, Account>, i: int)
    requires 0 <= i < |Listing(rows, accounts, idNumber, surname, accountNumber, sortOrder)|
    ensures Index(sortOrder, idNumber, surname, accountNumber, Some(i / PageSize + 1), rows, accounts).Some?
    ensures Listing(rows, accounts, idNumber, surname, accountNumber, sortOrder)[i] in
              Index(sortOrder, idNumber, surname, accountNumber, Some(i / PageSize + 1), rows, accounts).value.items
  {
    var listing := Listing(rows, accounts, idNumber, surname, accountNumber, sortOrder);
    PageHolds(listing, i, PageSize);
    var n := i / PageSize + 1;
    var v := Index(sortOrder, idNumber, surname, accountNumber, Some(n), rows, accounts);
    assert v.Some? && v.value.items == Page(listing, n, PageSize).value;
  }

  lemma MatchIsListed(sortOrder: Option<string>, idNumber: Option<string>, surname: Option<string>,
                      accountNumber: Option<string>, rows: seq<Person>, accounts: map<int, Account>, p: Person)
    requires p in rows && Selected(p, idNumber, surname, accountNumber, accounts)
    ensures p in Listing(rows, accounts, idNumber, surname, accountNumber, sortOrder)
  {
    ListingSelects(rows, accounts, idNumber, surname, accountNumber, sortOrder);
    var k :| 0 <= k < |rows| && rows[k] == p;
  }

  // ---------------------------------------------------------------- POST actions

  predicate IdNumberTaken(persons: map<int, Person>, idNumber: string, except: int) {
    exists k :: k in persons && k != except && persons[k].idNumber == idNumber
  }

  predicate HasAccounts(s: Store, code: int) {
    exists k :: k in s.accounts && s.accounts[k].personCode == code
  }

  /** POST Create, as a function of the state before it. */
  function CreateStep(s: Store, posted: Person): (r: (Outcome, Store))
    requires StoreValid(s)
    ensures StoreValid(r.1)
    ensures !ValidPerson(posted) ==> r.0 == Invalid(PersonErrors(posted))
    ensures r.0 == Redirected <==> ValidPerson(posted) && !IdNumberTaken(s.persons, posted.idNumber, s.nextPersonCode)
    // the unique index on id_number rejects a duplicate at SaveChanges
    ensures ValidPerson(posted) && IdNumberTaken(s.persons, posted.idNumber, s.nextPersonCode) ==> r.0 == UpdateFailed
    ensures r.0 != Redirected ==> r.1 == s
    // one new person, numbered by the identity column, owning no account
    ensures r.0 == Redirected ==>
      var c := s.nextPersonCode;
      && c !in s.persons
      && r.1.persons == s.persons[c := posted.(code := c)]
      && !HasAccounts(r.1, c)
      && r.1.accounts == s.accounts && r.1.transactions == s.transactions
  {
    if !ValidPerson(posted) then (Invalid(PersonErrors(posted)), s)
    // the unique index on id_number rejects a duplicate at SaveChanges
    else if IdNumberTaken(s.persons, posted.idNumber, s.nextPersonCode) then (UpdateFailed, s)
    else
      var c := s.nextPersonCode;
      (Redirected, s.(persons := s.persons[c := posted.(code := c)], nextPersonCode := c + 1))
  }

  /** POST Edit, as a function of the state before it. */
  function EditStep(s: Store, id: int, posted: Person): (r: (Outcome, Store))
    requires StoreValid(s)
    ensures StoreValid(r.1)
    ensures id != posted.code ==> r.0 == NotFound
    ensures id == posted.code && ValidPerson(posted) && id !in s.persons ==> r.0 == NotFound
    ensures id == posted.code && !ValidPerson(posted) ==> r.0 == Invalid(PersonErrors(posted))
    ensures (id == posted.code && ValidPerson(posted) && id in s.persons &&
             IdNumberTaken(s.persons, posted.idNumber, id)) ==> r.0 == UpdateFailed
    ensures r.0 == Redirected <==>
      id == posted.code && ValidPerson(posted) && id in s.persons && !IdNumberTaken(s.persons, posted.idNumber, id)
    ensures r.0 != Redirected ==> r.1 == s
    ensures r.0 == Redirected ==>
      && r.1.persons.Keys == s.persons.Keys
      && r.1.persons[id] == posted
      && (forall k :: k in s.persons && k != id ==> r.1.persons[k] == s.persons[k])
      && r.1.accounts == s.accounts && r.1.transactions == s.transactions
  {
    if id != posted.code then (NotFound, s)
    else if !ValidPerson(posted) then (Invalid(PersonErrors(posted)), s)
    // Update of a row that is gone: the concurrency exception, then NotFound
    else if id !in s.persons then (NotFound, s)
    else if IdNumberTaken(s.persons, posted.idNumber, id) then (UpdateFailed, s)
    else (Redirected, s.(persons := s.persons[id := posted]))
  }

  /** POST Delete (`DeleteConfirmed`), as a function of the state before it. */
  function DeleteStep(s: Store, id: int): (r: (Outcome, Store))
    requires StoreValid(s)
    ensures StoreValid(r.1)
    ensures id !in s.persons ==> r == (Redirected, s)
    // the foreign key from Account rejects removing a person who still owns accounts
    ensures id in s.persons && HasAccounts(s, id) ==> r == (UpdateFailed, s)
    ensures id in s.persons && !HasAccounts(s, id) ==>
      r == (Redirected, s.(persons := s.persons - {id}))
  {
    if id !in s.persons then (Redirected, s)
    else if HasAccounts(s, id) then (UpdateFailed, s)
    else (Redirected, s.(persons := s.persons - {id}))
  }

  // ---------------------------------------------------------------- the controller over the database

  /** POST Create. */
  method Create(db: Database, posted: Person) returns (r: Outcome)
    requires db.Valid()
    modifies db
    ensures db.Valid()
    ensures (r, db.Snapshot()) == CreateStep(old(db.Snapshot()), posted)
  {
    if !ValidPerson(posted) {
      return Invalid(PersonErrors(posted));
    }
    var c := db.nextPersonCode;
    if exists k :: k in db.persons && k != c && db.persons[k].idNumber == posted.idNumber {
      return UpdateFailed;
    }
    db.persons := db.persons[c := posted.(code := c)];
    db.nextPersonCode := c + 1;
    r := Redirected;
  }

  /** POST Edit. */
  method Edit(db: Database, id: int, posted: Person) returns (r: Outcome)
    requires db.Valid()
    modifies db
    ensures db.Valid()
    ensures (r, db.Snapshot()) == EditStep(old(db.Snapshot()), id, posted)
  {
    if id != posted.code {
      return NotFound;
    }
    if !ValidPerson(posted) {
      return Invalid(PersonErrors(posted));
    }
    if id !in db.persons {
      return NotFound;
    }
    if exists k :: k in db.persons && k != id && db.persons[k].idNumber == posted.idNumber {
      return UpdateFailed;
    }
    db.persons := db.persons[id := posted];
    r := Redirected;
  }

  /** POST Delete. */
  method DeleteConfirmed(db: Database, id: int) returns (r: Outcome)
    requires db.Valid()
    modifies db
    ensures db.Valid()
    ensures (r, db.Snapshot()) == DeleteStep(old(db.Snapshot()), id)
  {
    if id in db.persons {
      if exists k :: k in db.accounts && db.accounts[k].personCode == id {
        return UpdateFailed;
      }
      db.persons := db.persons - {id};
    }
    r := Redirected;
  }
}

# Account Management System — a Dafny model of its controllers

The system is an ASP.NET MVC application that keeps three tables: persons,
their accounts, and the transactions posted to each account. This project
models the three controllers that read and change those tables, and the
validation rules declared on the three record types.

- **TransactionsController** posts, edits and deletes transactions. Each
  account caches an `outstanding_balance`. Create adds the amount to that
  balance, and Delete subtracts it. Create, Delete and the Edit and Delete
  forms are refused while the transaction's account is closed; POST Edit
  consults the closed flag of the account named in the posted form.
- **PersonsController** and **AccountsController** add, replace and remove
  their rows. The database's unique indexes and foreign keys guard every
  write.
- **Index actions.** All three controllers list their tables in the same
  three steps: filter, sort on one column, then cut out one page.

The model works on values. A `Data.Store` holds the three tables (maps from
identity code to record) and, for each table, a counter that supplies the
code of the next row it inserts, above every code in use. Each
POST action is a pure step function, for example
`TransactionsController.CreateStep(s, posted, now)`. It returns what the
action answers, as a `Data.Outcome`, together with the state after it.

The controller methods work on a `Data.Database` object whose fields the
methods update in place. Each method's postcondition ties its answer and the
new state to the step function applied to the old state. Each method also
preserves `Data.StoreValid`, which says what the schema guarantees:
- every row sits under its own code;
- the `id_number` and `account_number` values are unique;
- both foreign keys hold.

The `Index` actions are functions of their query parameters and of the
table's rows. The rows are passed in whatever order the database yields
them.

Conventions:
- **Money.** Amounts and balances are integers in ten-thousandths, the
  precision of SQL Server's `money` type, so 0.01 is 100.
- **Dates.** A date is an integer tick count.
- **The current time.** `DateTime.Now` becomes a `now` parameter.
- **Null.** A null query parameter, or a null first name, is `None`.

### Balances and the ledger

Create and Delete move the account's balance by the amount. Edit moves no
balance, so the cached balance can drift from the sum of the account's
transactions. (Drift is an account's balance minus the sum of its
transactions.)

- **Create and Delete.** They keep every account's drift
  (`CreateKeepsDrift`, `DeleteKeepsDrift`). So a balance that agrees with its
  ledger stays that way under Create and Delete (`LedgerAgreementKept`).
- **Transaction Edit.** POST Edit (TransactionController.cs:163-213)
  overwrites the transaction and never touches a balance.
  `TransactionsController.EditShiftsDrift` states the effect: the owning
  account's drift moves by the old amount minus the new one.
- **Which account Edit consults.** POST Edit checks the closed flag of the
  account named in the posted form (TransactionController.cs:181-187), not
  that of the account the stored transaction belongs to.
  `TransactionsController.EditBypassesStoredClosedAccount` states the
  consequence: a transaction of a closed account can be moved to an open one.
- **Account Edit.** It replaces the whole account row, including the
  balance. `AccountsController.EditOverwritesDrift` states what that does to
  the drift.
- **Concurrency exception.** The code turns it into NotFound only when the
  row is gone and rethrows it otherwise; the model keeps the NotFound case.

## Model

| member | source | states |
|---|---|---|
| Models.IdNumberPatternDecides | Models/Person.cs:24-29 | the 13-digit pattern alone decides whether an ID number is valid; a valid one has exactly 13 characters |
| Models.ValidPersonMeans | Models/Person.cs:13-29 | a person is valid iff the optional name has at most 50 characters, the surname is present with at most 50, and the ID number is 13 decimal digits |
| Models.ValidAccountMeans | Models/Account.cs:17-27 | an account is valid iff its number is present with at most 50 characters and its balance is not negative |
| Models.ValidTransactionMeans | Models/Transaction.cs:24-36 | a transaction is valid iff its amount is at least 0.01 and its description is present with at most 100 characters; a valid amount is positive |
| Text.ContainsIffOccurs | Controllers/TransactionController.cs:41-44 | the substring test used by every search holds iff the text occurs at some position |
| Text.StrLeTotal | Controllers/PersonsController.cs:57-71 | the text ordering used by `OrderBy` on a text column relates any two strings |
| Text.StrLeTransitive | Controllers/PersonsController.cs:57-71 | the text ordering is transitive |
| Text.StrLeAntisymmetric | Controllers/PersonsController.cs:57-71 | two strings ordered both ways are equal |
| Query.KeyLeTotal | Controllers/PersonsController.cs:57-71 | the column ordering (NULL first, then text order) relates any two keys |
| Query.KeyLeTransitive | Controllers/PersonsController.cs:57-71 | the column ordering is transitive |
| Query.InsertKeepsSorted | Controllers/TransactionController.cs:47-61 | inserting into an ordered list keeps it ordered |
| Query.SortBy | Controllers/TransactionController.cs:47-61 | `OrderBy`/`OrderByDescending` returns a permutation of its input, ordered by the key in the requested direction |
| Query.Filter | Controllers/TransactionController.cs:39-45 | `Where` keeps exactly the rows that pass the test, each taken from the input, and no more copies of a row than the input has |
| Query.FilterCounts | Controllers/TransactionController.cs:39-45 | `Where` keeps every copy of a row that passes the test and no copy of one that fails it |
| Query.Page | Controllers/TransactionController.cs:63-66 | `ToPagedList(n, size)` fails for n < 1; otherwise it returns the consecutive rows starting at row (n-1)*size: `size` of them when enough remain, all that remain on the last page, none past the end |
| Query.PageHolds | Controllers/TransactionController.cs:63-66 | row i is on page i/size + 1 |
| Query.PageOfOrdered | Controllers/TransactionController.cs:63-66 | a page of an ordered list holds only rows of that list, still in order |
| Data.StoreValid | Data/ApplicationDbContext.cs:34-61 | what the schema guarantees: every row under its own identity code, unique `id_number` and `account_number`, both foreign keys, and every balance and amount within `money` |
| TransactionsController.OrderingOf | Controllers/TransactionController.cs:47-61 | the list is descending iff `sortOrder` is "date_desc" or "amount_desc", and by amount iff it is "Amount" or "amount_desc"; any other value sorts by ascending date |
| TransactionsController.DateSortParm | Controllers/TransactionController.cs:23 | the date header link sorts by date, descending exactly when `sortOrder` is null or empty; it is itself null or empty exactly when `sortOrder` is not, so the link toggles |
| TransactionsController.AmountSortParm | Controllers/TransactionController.cs:24 | the amount header link sorts by amount, descending exactly when `sortOrder` is "Amount" |
| TransactionsController.Matching | Controllers/TransactionController.cs:39-45 | a transaction is kept iff the search is empty, or its description or its account's number contains the search |
| TransactionsController.ListingSelects | Controllers/TransactionController.cs:37-45 | the sorted listing holds exactly the rows that match the search (by description, or by the account's number) |
| TransactionsController.ListingOrdered | Controllers/TransactionController.cs:47-61 | the listing is ordered by the column and direction `sortOrder` selects; unknown values sort by ascending date |
| TransactionsController.Index | Controllers/TransactionController.cs:20-66 | a new search resets to page 1, otherwise `currentFilter` is the search; a page number below 1 fails; the page shown, for a new search too, is the requested slice (at most 5 rows) of the filtered rows sorted as `sortOrder` selects; the view carries `sortOrder` and the two header links |
| TransactionsController.IndexListsEveryMatch | Controllers/TransactionController.cs:20-66 | every matching transaction is on some page |
| TransactionsController.CreateForm | Controllers/TransactionController.cs:82-98 | GET Create redirects away exactly when the account is closed; otherwise the form is for that account, dated now |
| TransactionsController.StoredForm | Controllers/TransactionController.cs:144-158 | GET Edit and GET Delete answer NotFound for an unknown id, redirect exactly when the stored transaction's account is closed, and show the stored record otherwise |
| TransactionsController.PostErrors | Controllers/TransactionController.cs:105-115 | a posted transaction has a date error iff its date is in the future, an amount error iff its amount is below 0.01, and no error iff it is valid and not in the future |
| TransactionsController.CreateStep | Controllers/TransactionController.cs:103-141 | Create succeeds iff the form is valid, the account exists and is open, and the amount and the raised balance fit `money`; it then adds one transaction captured now and raises that account's balance by the amount; a form with errors is shown again with exactly those errors; a closed account is refused; a missing account or a value beyond `money` fails at SaveChanges; none of these changes anything |
| TransactionsController.EditStep | Controllers/TransactionController.cs:163-213 | Edit answers NotFound on an id mismatch or a vanished row, shows a form with errors again, and refuses when the posted account is closed; a missing account or an amount beyond `money` fails at SaveChanges; on success it replaces the transaction, keeps the stored capture date, and changes no balance |
| TransactionsController.DeleteStep | Controllers/TransactionController.cs:238-262 | Delete of an unknown id changes nothing; on a closed account it is refused; a lowered balance beyond `money` fails at SaveChanges with nothing written; otherwise it removes the transaction and lowers its account's balance by the amount |
| TransactionsController.CreateThenDeleteRestores | Controllers/TransactionController.cs:103-141 | deleting the transaction just created restores every table (only the identity counter has moved) |
| TransactionsController.CreateKeepsDrift | Controllers/TransactionController.cs:127-135 | Create keeps every account's balance minus the sum of its transactions |
| TransactionsController.DeleteKeepsDrift | Controllers/TransactionController.cs:251-259 | Delete keeps every account's balance minus the sum of its transactions |
| TransactionsController.EditShiftsDrift | Controllers/TransactionController.cs:189-201 | Edit shifts an account's drift by its share of the old amount minus its share of the new one |
| TransactionsController.LedgerAgreementKept | Controllers/TransactionController.cs:127-135 | a balance equal to the sum of its transactions stays equal under Create and Delete |
| TransactionsController.EditBypassesStoredClosedAccount | Controllers/TransactionController.cs:181-187 | a transaction of a closed account can be moved by Edit to an open account, with no balance moving |
| TransactionsController.Create | Controllers/TransactionController.cs:103-141 | POST Create on the database: its answer and the new tables are those of `CreateStep`, and the schema constraints still hold |
| TransactionsController.Edit | Controllers/TransactionController.cs:163-213 | POST Edit on the database: its answer and the new tables are those of `EditStep`, and the schema constraints still hold |
| TransactionsController.DeleteConfirmed | Controllers/TransactionController.cs:238-262 | POST Delete on the database: its answer and the new tables are those of `DeleteStep`, and the schema constraints still hold |
| PersonsController.OrderingOf | Controllers/PersonsController.cs:57-71 | the list is descending iff `sortOrder` is "name_desc" or "surname_desc", and by surname iff it is "Surname" or "surname_desc"; any other value sorts by ascending name |
| PersonsController.NameSortParm | Controllers/PersonsController.cs:23 | the name header link sorts by name, descending exactly when `sortOrder` is null or empty; it is itself null or empty exactly when `sortOrder` is not, so the link toggles |
| PersonsController.SurnameSortParm | Controllers/PersonsController.cs:24 | the surname header link sorts by surname, descending exactly when `sortOrder` is "Surname" |
| PersonsController.Matching | Controllers/PersonsController.cs:38-55 | a person is kept iff every non-empty filter matches: ID number, surname, and some account's number |
| PersonsController.ListingSelects | Controllers/PersonsController.cs:34-71 | the sorted listing holds exactly the persons that pass all three filters |
| PersonsController.ListingOrdered | Controllers/PersonsController.cs:57-71 | the listing is ordered by name or surname as `sortOrder` selects; unknown values sort by ascending name |
| PersonsController.UnfilteredListingIsPermutation | Controllers/PersonsController.cs:34-71 | with every filter empty the list holds every person, each as often as in the table |
| PersonsController.Index | Controllers/PersonsController.cs:20-77 | a page number below 1 fails, a missing one is 1; a page holds at most 10 rows, all passing the filters, in the selected order; the view carries `sortOrder`, the three filters and the two header links |
| PersonsController.IndexListsEveryMatch | Controllers/PersonsController.cs:20-77 | every person that passes the filters is on some page |
| PersonsController.CreateStep | Controllers/PersonsController.cs:100-109 | Create succeeds iff the person is valid and the ID number is not taken; a taken ID number fails at SaveChanges; on success it adds one person, owning no account |
| PersonsController.EditStep | Controllers/PersonsController.cs:122-143 | Edit answers NotFound on an id mismatch or a vanished row; a duplicate ID number fails at SaveChanges; on success it replaces only that person |
| PersonsController.DeleteStep | Controllers/PersonsController.cs:159-168 | Delete of an unknown id changes nothing; a person who still owns accounts is not removed; otherwise only that person is removed |
| PersonsController.Create | Controllers/PersonsController.cs:100-109 | POST Create on the database: its answer and the new tables are those of `CreateStep`, and the schema constraints still hold |
| PersonsController.Edit | Controllers/PersonsController.cs:122-143 | POST Edit on the database: its answer and the new tables are those of `EditStep`, and the schema constraints still hold |
| PersonsController.DeleteConfirmed | Controllers/PersonsController.cs:159-168 | POST Delete on the database: its answer and the new tables are those of `DeleteStep`, and the schema constraints still hold |
| AccountsController.OrderingOf | Controllers/AccountsController.cs:47-61 | the list is descending iff `sortOrder` is "account_desc" or "balance_desc", and by balance iff it is "Balance" or "balance_desc"; any other value sorts by ascending number |
| AccountsController.AccountSortParm | Controllers/AccountsController.cs:23 | the account number header link sorts by number, descending exactly when `sortOrder` is null or empty; it is itself null or empty exactly when `sortOrder` is not, so the link toggles |
| AccountsController.BalanceSortParm | Controllers/AccountsController.cs:24 | the balance header link sorts by balance, descending exactly when `sortOrder` is "Balance" |
| AccountsController.Matching | Controllers/AccountsController.cs:39-45 | an account is kept iff the search is empty, or its number or its owner's surname contains the search |
| AccountsController.ListingSelects | Controllers/AccountsController.cs:37-45 | the sorted listing holds exactly the accounts whose number, or whose owner's surname, contains the search |
| AccountsController.ListingOrdered | Controllers/AccountsController.cs:47-61 | the listing is ordered by number or balance as `sortOrder` selects; unknown values sort by ascending number |
| AccountsController.Index | Controllers/AccountsController.cs:20-66 | a new search resets to page 1, otherwise `currentFilter` is the search; a page number below 1 fails; the page shown, for a new search too, is the requested slice (at most 5 rows) of the filtered rows sorted as `sortOrder` selects; the view carries `sortOrder` and the two header links |
| AccountsController.IndexListsEveryMatch | Controllers/AccountsController.cs:20-66 | every matching account is on some page |
| AccountsController.CreateStep | Controllers/AccountsController.cs:92-101 | Create succeeds iff the account is valid, its person exists, its number is not taken and its balance fits `money`; a missing person, a taken number or a balance beyond `money` fails at SaveChanges; on success it adds one account, with no transactions |
| AccountsController.EditStep | Controllers/AccountsController.cs:114-135 | Edit answers NotFound on an id mismatch or a vanished row; on success the posted record replaces the stored one whole, and it fails on a missing person, a duplicate number or a balance beyond `money` |
| AccountsController.DeleteStep | Controllers/AccountsController.cs:152-161 | Delete of an unknown id changes nothing; an account that still has transactions is not removed; otherwise only that account is removed |
| AccountsController.CreateThenDeleteRestores | Controllers/AccountsController.cs:92-101 | deleting the account just created restores every table |
| AccountsController.CreateOpensLedger | Controllers/AccountsController.cs:92-101 | a new account's drift is its opening balance, and every other account keeps its drift |
| AccountsController.EditOverwritesDrift | Controllers/AccountsController.cs:114-135 | Edit sets the account's drift to the posted balance minus its transactions, and moves no other account's drift |
| AccountsController.ClosingBlocksPosting | Controllers/AccountsController.cs:114-135 | once Edit has closed an account, a valid new transaction for it is refused |
| AccountsController.Create | Controllers/AccountsController.cs:92-101 | POST Create on the database: its answer and the new tables are those of `CreateStep`, and the schema constraints still hold |
| AccountsController.Edit | Controllers/AccountsController.cs:114-135 | POST Edit on the database: its answer and the new tables are those of `EditStep`, and the schema constraints still hold |
| AccountsController.DeleteConfirmed | Controllers/AccountsController.cs:152-161 | POST Delete on the database: its answer and the new tables are those of `DeleteStep`, and the schema constraints still hold |

The methods `Create`, `Edit` and `DeleteConfirmed` of each controller
perform the same steps on a `Data.Database`, updating its fields in place.

## Left out

- Views, `ViewData`, `TempData` and the error messages are not modelled. The model keeps the values handed to a view (the `IndexView` records), the outcome of each action, and the fields that carry errors.
- Redirect targets are not modelled. The model records only that an action redirects.
- Concurrency and atomicity are not modelled. Each action is one atomic step on the state.
- The concurrency exception's rethrow branch is not modelled, because that exception arises only from a concurrent write.
- A failing `SaveChanges` (a foreign key or a unique index violated, or a value beyond the range of `money`, ±922,337,203,685,477.5807) is modelled as `UpdateFailed` with nothing written. The code does not catch that exception, so the request fails.
- Values beyond the range of C#'s `decimal`, which model binding itself rejects, are not modelled: every integer is a bindable amount.
- Model binding is reduced to the declared attributes. The binder turns an empty or whitespace-only value into null, for form fields and for query parameters such as `searchString`. The model does not: a missing surname is an empty string, and a whitespace-only search is a `Some`.
- The implicit `[Required]` that non-nullable reference properties get (such as the navigation properties) is not modelled. Whether nullable reference types are enabled is decided by the project file, which is not part of this model.
- `\d` is modelled as the ASCII digits 0-9, although .NET also accepts other Unicode decimal digits.
- White space, for `[Required]`, is the common set: space, tab to carriage return, U+0085 and U+00A0.
- The database collation is not modelled. SQL Server usually compares text case-insensitively in `Contains`, `OrderBy` and the unique indexes; the model compares characters exactly.
- PersonsController.CreateStep, PersonsController.EditStep, AccountsController.CreateStep and AccountsController.EditStep: the unique indexes on `id_number` and `account_number` compare under the collation, which usually ignores case and trailing spaces. The model treats two values as duplicates only when they are equal character for character, so it accepts "acc10001" beside "ACC10001", where the database refuses it.
- Models.ValidPersonMeans, Models.ValidAccountMeans and Models.ValidTransactionMeans: `[StringLength]` counts UTF-16 code units, and the model counts characters. A text with characters beyond U+FFFF can meet the model's limit and still exceed the code's.
- PersonsController.CreateStep, PersonsController.EditStep, AccountsController.CreateStep, AccountsController.EditStep, TransactionsController.CreateStep and TransactionsController.EditStep: the text columns are `varchar` (`[Unicode(false)]`), so the database stores a character outside its code page as `?`. The model stores the posted text unchanged.
- TransactionsController.CreateStep, PersonsController.CreateStep and AccountsController.CreateStep: SQL Server does not roll back an identity value, so an insert that fails at SaveChanges (a foreign key or a unique index violated) still uses up a code, and the identity cache can skip values. The model leaves its counter unchanged on `UpdateFailed` and numbers rows consecutively. Only the freshness of the new row's code is meant: it is above every code in use.
- TransactionsController.CreateStep, PersonsController.CreateStep and AccountsController.CreateStep: the identity columns are 32-bit `int`, but the model's next identity value is unbounded. An exhausted identity column is not modelled.
- The order among rows with equal sort keys is left open, as SQL leaves it: the model sorts by insertion. `ListingSelects` and `ListingOrdered` speak only of order and of membership, but the three reachability lemmas below do depend on it.
- TransactionsController.IndexListsEveryMatch, PersonsController.IndexListsEveryMatch and AccountsController.IndexListsEveryMatch assume that every page request sees the rows in the same order and breaks ties the same way. In the code each page is a separate query; with a non-unique ORDER BY (dates are date-only, so ties are common) SQL Server fixes no tie order across queries, and a matching row can then fall between pages.
- The rows' enumeration order is a parameter (`rows`), because the database does not fix it.
- Amounts finer than 0.0001 are not modelled: `money` has four decimal places.
- Of X.PagedList only the slice and the rejection of page numbers below 1 are modelled; its page counts and metadata are not.
- On Create the model assumes that no `code` is posted, so the identity column numbers the new row. A non-zero posted key would be inserted explicitly and `SaveChanges` would fail; that case is not modelled.
- The GET actions of Persons and Accounts (Details, Create, Edit, Delete) only display one row or an empty form, and they are not modelled. Transaction Details is not modelled either.
- `PersonsController.ExportCsv` returns a fixed text and is not modelled.
- The seed data (Data/DbInitializer.cs), Program.cs, Controllers/TestController.cs and Controllers/TempControllers.cs are not part of this model.

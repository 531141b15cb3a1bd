# Library lending core, modelled in Dafny

This project models the in-memory core of a small library management
system, `LibraryManagementSystem.java`. The core consists of:

- the catalog of books, each with counters of total and available copies;
- the directory of users (members and librarians), each with a borrowing
  limit;
- the append-only ledger of loan transactions, whose records move through
  ACTIVE, OVERDUE and RETURNED and carry a fine;
- the service that ties these together: add, look up, update and remove
  books; register and look up users; borrow and return; and the read-only
  analytics (loans per user, loans still out, books per category, most
  borrowed books, fines collected).

Modules, one per part of the program:

| file | module | models |
|---|---|---|
| `Common.dfy` | `LibraryCommon` | the exception classes as `ErrorKind`, `Result`/`Outcome`/`Option`, the `trim().isEmpty()` test |
| `Users.dfy` | `Users` | `Member` and `Librarian` as one datatype, `getMaxBooksAllowed` |
| `Books.dfy` | `Books` | class `Book` and its copy counter |
| `Transactions.dfy` | `Transactions` | identifiers `TXN000001...`, fines, the overdue check, and class `Transaction` |
| `Ledger.dfy` | `Ledger` | the stream pipelines over the transaction list |
| `Catalog.dfy` | `Catalog` | the pipelines over the catalog (`getBooksByCategoryCount`, `searchBooks`) |
| `LibraryService.dfy` | `LibraryServices` | class `LibraryService` |
| `Scenarios.dfy` | `LibraryScenarios` | call sequences: borrow then return, add then remove, register then look up |

How entities are represented:

- `Book`, `Transaction` and `LibraryService` are classes, because the
  program updates their fields in place.
- The service's `HashMap`s and `ArrayList` are `map` and `seq` fields that
  its methods reassign. Users are immutable values in this core.
- Dates are day numbers. The current day (`LocalDate.now()` in the
  program) is a parameter of the operations that read the clock.
- Fines are whole numbers: 5 per day late.
- The static transaction counter is a field of the service.
- Each `Transaction` remembers, as a ghost field, the counter value its
  identifier was formatted from. This lets the model prove that
  identifiers are pairwise distinct.
- Each exception is an error value, checked in the same order as in the
  program.

Invariants kept by every operation:

- `Book.Valid()`: `0 <= availableCopies <= totalCopies`.
- `Transaction.Valid()`, which says:
  - the identifier is `TransactionId(serial)`;
  - `dueDate == borrowDate + 14`;
  - the fine is never negative;
  - an unreturned loan has no return date and no fine;
  - a returned loan has a return date.
- `LibraryService.Valid()`, which says:
  - every catalogued book is valid;
  - users are filed under their own id;
  - ledger records are valid, and their counter values are strictly
    increasing and bounded by the counter.

A further correspondence is kept by borrowing and returning, but not by
every operation: `LibraryService.LoansMatch(isbn)` says that the book
filed under `isbn` has exactly as many copies off the shelf as the ledger
has ACTIVE or OVERDUE loans of `isbn`. `borrowBook` and `returnBook` keep
it for a book filed under one key only, and `removeBook` keeps it too.
`updateBook` can break it, and so can `addBook` when it files an ISBN
whose loans `removeBook` left in the ledger (see "Left out").

Two behaviours of the program are modelled as written:

- `returnBook` marks the transaction RETURNED and settles its fine before it
  looks up the book. If the book has been removed from the catalog, it
  fails with `BookNotFound` after that change has been made.
- `updateBook` stores the given record as it is, with no reconciliation of
  copy counts. A replacement record with every copy on the shelf thus
  forgets the loans still out.

One more behaviour, also as written: the borrow limit counts only ACTIVE
loans. A loan that `checkOverdue` has marked OVERDUE no longer counts
against the limit, although `getActiveTransactions` lists it.

## Model

| member | source | states |
|---|---|---|
| `LibraryCommon.BlankIffTrimEmpty` | LibraryManagementSystem.java:56 | `IsBlank`, the test the constructors use, holds exactly when `trim()` (drop characters at or below U+0020 at both ends) leaves the empty string. |
| `Users.NewMember` | LibraryManagementSystem.java:56-64 | A member is created exactly when the user id is not blank. Otherwise the result is `IllegalArgument`. On success every field is as given. |
| `Users.NewLibrarian` | LibraryManagementSystem.java:149-152 | The same blank-id rule for librarians, with the employee id kept. |
| `Users.MaxBooksAllowed` | LibraryManagementSystem.java:122-162 | The limit is one of 5, 10, 20. It is 20 exactly for a librarian, and 10 exactly for a member whose type is exactly "PREMIUM". |
| `Books.Book.constructor` | LibraryManagementSystem.java:199-204 | A new book is valid with every copy on the shelf, given a non-blank ISBN and a non-negative total. |
| `Books.Book.Create` | LibraryManagementSystem.java:190-206 | A blank ISBN or a negative total gives `IllegalArgument`, and those are the only refusals. Otherwise a fresh valid book with `availableCopies == totalCopies`. |
| `Books.Book.OnLoan` | LibraryManagementSystem.java:222 | The number on loan, `totalCopies - availableCopies`, lies between 0 and the total for a valid book, and is 0 exactly when every copy is on the shelf. |
| `Books.Book.IsAvailable` | LibraryManagementSystem.java:244-246 | For a valid book, a copy is available exactly when fewer than all copies are on loan. |
| `Books.Book.SetTotalCopies` | LibraryManagementSystem.java:221-228 | Accepted exactly when the new total is at least the number on loan. On acceptance the total is set and the number on loan is unchanged. On refusal nothing changes. |
| `Books.Book.BorrowCopy` | LibraryManagementSystem.java:230-236 | Returns true exactly when a copy was on the shelf, and then takes exactly one off. Otherwise nothing changes. The invariant holds either way. |
| `Books.Book.ReturnCopy` | LibraryManagementSystem.java:238-242 | Puts back one copy exactly when the shelf is below the total, so it never exceeds the total. |
| `Transactions.Decimal` | LibraryManagementSystem.java:297 | The decimal rendering of the counter is non-empty and all digits. |
| `Transactions.DecimalNoLeadingZero` | LibraryManagementSystem.java:297 | The rendering starts with '0' exactly for the counter value 0, so there is no leading zero, as `%d` gives. |
| `Transactions.PadZeros` | LibraryManagementSystem.java:297 | `%06d` padding: the length is max(len, 6), the digits are kept as a suffix, and everything before them is '0'. |
| `Transactions.TransactionId` | LibraryManagementSystem.java:297 | The identifier of the `n`-th transaction: "TXN" followed by `n` zero-padded to six digits. Its shape is `TransactionIdFormat`; its round trip and injectivity are `ParseTransactionIdOfTransactionId` and `TransactionIdInjective`. |
| `Transactions.TransactionIdFormat` | LibraryManagementSystem.java:297 | An identifier has at least 9 characters: "TXN", then only decimal digits. |
| `Transactions.ParseDecimalOfDecimal` | LibraryManagementSystem.java:297 | Reading the digits back gives the number. |
| `Transactions.ParseDecimalLeadingZeros` | LibraryManagementSystem.java:297 | Leading zeros do not change the number read. |
| `Transactions.ParseTransactionIdOfTransactionId` | LibraryManagementSystem.java:297 | Round trip: the counter value can be read back from the identifier. |
| `Transactions.TransactionIdInjective` | LibraryManagementSystem.java:297 | Two identifiers are equal if and only if their counter values are. |
| `Transactions.Fine` | LibraryManagementSystem.java:322-327 | The fine is 0 exactly when the return is on or before the due day. Otherwise it is 5 times the days late, and never negative. |
| `Transactions.FineMonotone` | LibraryManagementSystem.java:322-327 | A later return never costs less. |
| `Transactions.OverdueCheck` | LibraryManagementSystem.java:329-333 | OVERDUE and RETURNED are left alone. ACTIVE becomes OVERDUE exactly when today is after the due day. |
| `Transactions.OverdueCheckIdempotent` | LibraryManagementSystem.java:329-333 | Checking twice on one day equals checking once. An overdue loan stays overdue on later days. |
| `Transactions.Transaction.constructor` | LibraryManagementSystem.java:296-304 | A new loan is ACTIVE, with no return date, fine 0, due 14 days after the borrow day, and the identifier formatted from its counter value. |
| `Transactions.Transaction.ReturnBook` | LibraryManagementSystem.java:316-320 | The loan becomes RETURNED with today as return date. A loan not yet returned ends with exactly `Fine(dueDate, today)`. The fine is overwritten only when the return is late. |
| `Transactions.Transaction.CalculateFine` | LibraryManagementSystem.java:322-327 | The fine is set only when the return date is after the due date, and then to `Fine`. The record invariant is restored. |
| `Transactions.Transaction.CheckOverdue` | LibraryManagementSystem.java:329-333 | The new status is `OverdueCheck` of the old one. Nothing else changes. |
| `Ledger.UserTransactions` | LibraryManagementSystem.java:527-531 | Exactly the ledger's transactions of that user. |
| `Ledger.UserTransactionsAppend` | LibraryManagementSystem.java:527-531 | Ledger order is kept: an appended record joins the end of its own user's list, and no other user's list changes. |
| `Ledger.ActiveTransactions` | LibraryManagementSystem.java:533-538 | Exactly the ledger's ACTIVE or OVERDUE transactions. |
| `Ledger.ActiveTransactionsAppend` | LibraryManagementSystem.java:533-538 | Ledger order is kept: an appended record joins the end exactly when it is ACTIVE or OVERDUE. |
| `Ledger.ActiveCountPositive` | LibraryManagementSystem.java:491-493 | The count is positive exactly when the user has a loan whose status is ACTIVE; an OVERDUE loan does not count. |
| `Ledger.ActiveCountBounds` | LibraryManagementSystem.java:491-493 | The count checked against the limit is at most the user's loans and at most the loans still out. |
| `Ledger.ActiveCountAppend` | LibraryManagementSystem.java:491-493 | Appending a loan raises that count by one exactly when the loan is an ACTIVE loan of that user. |
| `Ledger.LoanView` | LibraryManagementSystem.java:378 | The ledger as values: one (ISBN, status) pair per record, in order. |
| `Ledger.LoanViewAppend` | LibraryManagementSystem.java:500-501 | Recording a loan adds its (ISBN, status) pair at the end of the view. |
| `Ledger.CountOut` | LibraryManagementSystem.java:533-536 | The number of loans of one ISBN still out (ACTIVE or OVERDUE), at most the number of records. |
| `Ledger.CountOutAppend` | LibraryManagementSystem.java:500-501 | Recording a loan raises its ISBN's count by one exactly when the loan is out, and no other count. |
| `Ledger.CountOutConcat` | LibraryManagementSystem.java:500-501 | The count over two stretches of the ledger is the sum of their counts. |
| `Ledger.CountOutReturned` | LibraryManagementSystem.java:519 | Marking one record RETURNED lowers its ISBN's count by one when that loan was out, and changes no other count. |
| `Ledger.SerialsDistinguish` | LibraryManagementSystem.java:296-297 | Records with distinct counter values are distinct objects, so settling one leaves every other record as it was. |
| `Ledger.LedgerValidAppend` | LibraryManagementSystem.java:500-501 | Appending a valid record under the next counter value keeps the ledger invariant. |
| `Ledger.FindTransaction` | LibraryManagementSystem.java:509-512 | `findFirst`: the first index with that identifier, or none exactly when no record has it. |
| `Ledger.FindAppended` | LibraryManagementSystem.java:509-512 | A record whose identifier is new is found at the end once appended. |
| `Ledger.NewIdIsFound` | LibraryManagementSystem.java:509-512 | A record with a larger counter value than every earlier one is the one its identifier finds. |
| `Ledger.RecordedLoanIsFound` | LibraryManagementSystem.java:500-501 | Recording a loan under the next counter keeps the invariant, and lookup by its identifier finds it. |
| `Ledger.TotalFines` | LibraryManagementSystem.java:558-563 | The sum over RETURNED loans is 0 when nothing has been returned, and never negative when no fine is. |
| `Ledger.TotalFinesIsSumOfFines` | LibraryManagementSystem.java:558-563 | The fines of RETURNED loans add up to the fines of all loans, because unreturned ones carry none. The total is never negative. |
| `Ledger.TotalFinesAppendActive` | LibraryManagementSystem.java:558-563 | A new unreturned loan leaves the total collected unchanged. |
| `Ledger.CountFor` | LibraryManagementSystem.java:547-548 | The number of records naming an ISBN, positive exactly when some record names it. |
| `Ledger.BorrowedIsbns` | LibraryManagementSystem.java:547-548 | The grouping keys: each borrowed ISBN exactly once, and only borrowed ones. |
| `Ledger.Tallies` | LibraryManagementSystem.java:547-548 | `groupingBy`/`counting`: every entry has its true positive count, every borrowed ISBN has an entry, and no ISBN has two. |
| `Ledger.Insert` | LibraryManagementSystem.java:551 | Insertion into a list sorted by count, descending: a permutation with the new entry added, still sorted. |
| `Ledger.SortByCountDesc` | LibraryManagementSystem.java:551 | Sorted by count, descending, and a permutation of its input. |
| `Ledger.Ranking` | LibraryManagementSystem.java:547-551 | The grouping's entries, a permutation of them, sorted by count, descending. |
| `Ledger.InCatalog` | LibraryManagementSystem.java:553-554 | Keeps exactly the entries whose ISBN is still catalogued. |
| `Ledger.InCatalogNonIncreasing` | LibraryManagementSystem.java:553-554 | Dropping entries keeps the descending order. |
| `Ledger.MostBorrowed` | LibraryManagementSystem.java:550-554 | The ranked entries kept: at most `limit`, all catalogued. The limit is applied before uncatalogued ISBNs are dropped. |
| `Ledger.MostBorrowedBooks` | LibraryManagementSystem.java:546-556 | A negative limit gives `IllegalArgument`, and only that. Otherwise at most `limit` books, all from the catalog, and the `i`-th book is the catalog's book for the `i`-th entry of `MostBorrowed`. So the books come in the ranking's order. |
| `Ledger.RankingEntries` | LibraryManagementSystem.java:547-551 | The ranking holds exactly the grouping's entries, each with its true count. |
| `Ledger.MostBorrowedIsSorted` | LibraryManagementSystem.java:546-556 | The ranked entries behind the result: at most `limit`, catalogued, true counts, most borrowed first. |
| `Ledger.MostBorrowedIsMaximal` | LibraryManagementSystem.java:550-555 | No catalogued ISBN left off the list was borrowed more often than one on it. |
| `Ledger.PrefixIsMaximal` | LibraryManagementSystem.java:551-552 | In a list sorted by count, an entry kept by the limit outranks every catalogued entry outside the kept part. |
| `Ledger.MostBorrowedIsComplete` | LibraryManagementSystem.java:546-556 | With a limit covering every borrowed ISBN, every borrowed ISBN still catalogued is on the list. |
| `Catalog.KeysInCategory` | LibraryManagementSystem.java:541-543 | Exactly the catalog keys whose book has that category. |
| `Catalog.CategoryCounts` | LibraryManagementSystem.java:541-544 | One entry per category present. Each count is the number of catalog entries of that category, between 1 and the catalog size. |
| `Catalog.KeysInCategoryRemove` | LibraryManagementSystem.java:541-543 | Removing an entry takes it out of its own category and no other. |
| `Catalog.CategoriesRemove` | LibraryManagementSystem.java:541-543 | Removing an entry drops its category exactly when it was that category's only entry. |
| `Catalog.CategoryCountsRemoveEntries` | LibraryManagementSystem.java:541-544 | Removing an entry lowers its category's count by one, dropping the category at zero, and leaves every other count. |
| `Catalog.CategoryCountsSumRemove` | LibraryManagementSystem.java:541-544 | Removing an entry lowers the sum of the counts by one. |
| `Catalog.CategoryCountsSum` | LibraryManagementSystem.java:541-544 | Every catalog entry is counted under exactly one category: the counts add up to the catalog size. |
| `Catalog.Contains` | LibraryManagementSystem.java:453-455 | `String.contains`: the empty string is contained in every string, a string contains itself, and nothing longer than the string is contained. |
| `Catalog.SearchBooks` | LibraryManagementSystem.java:450-457 | Exactly the catalogued books whose lower-cased title, author or category contains the lower-cased keyword. |
| `Catalog.SearchEmptyKeywordFindsAll` | LibraryManagementSystem.java:450-457 | A keyword that lower-cases to "" finds the whole catalog. |
| `LibraryServices.LibraryService.constructor` | LibraryManagementSystem.java:381-386 | A valid service, seeded with the sample data, with an empty ledger and counter 0. |
| `LibraryServices.LibraryService.InitializeSampleData` | LibraryManagementSystem.java:397-410 | The sample ISBNs and user ids are present afterwards, and the service is valid. |
| `LibraryServices.LibraryService.TransactionIdsDistinct` | LibraryManagementSystem.java:297 | The identifiers in the ledger are pairwise distinct. |
| `LibraryServices.LibraryService.AddBook` | LibraryManagementSystem.java:414-420 | Refused with `DuplicateBook`, and no change, exactly when the ISBN is a key. Otherwise exactly that key is added. Users and ledger are unchanged. |
| `LibraryServices.LibraryService.GetBook` | LibraryManagementSystem.java:422-428 | The filed book, or `BookNotFound` exactly when the ISBN is absent. |
| `LibraryServices.LibraryService.UpdateBook` | LibraryManagementSystem.java:430-436 | `BookNotFound`, and no change, exactly when the ISBN is absent. Otherwise that entry is overwritten as given. |
| `LibraryServices.LibraryService.RemoveBook` | LibraryManagementSystem.java:438-444 | `BookNotFound`, and no change, exactly when the ISBN is absent. Otherwise exactly that key is removed, and the ledger keeps its loans. |
| `LibraryServices.LibraryService.GetAllBooks` | LibraryManagementSystem.java:446-448 | Exactly the catalogued books. |
| `LibraryServices.LibraryService.RegisterUser` | LibraryManagementSystem.java:460-466 | Refused with `DuplicateUser`, and no change, exactly when the id is a key. Otherwise exactly that user is added under their id. |
| `LibraryServices.LibraryService.GetUser` | LibraryManagementSystem.java:468-474 | The registered user, or `UserNotFound` exactly when the id is absent. |
| `LibraryServices.LibraryService.GetAllUsers` | LibraryManagementSystem.java:476-478 | Exactly the registered users, each filed under their own id. |
| `LibraryServices.LibraryService.BorrowBook` | LibraryManagementSystem.java:481-506 | The errors in source order: unknown user, unknown book, no copy on the shelf, ACTIVE count at or over the limit. Success exactly when all checks pass.<br>A refusal changes nothing.<br>On success: one fresh ACTIVE loan for (user, ISBN) with the next identifier is appended and is found by it; that book loses exactly one shelf copy; maps and everything else are unchanged. The user's ACTIVE count rises by one and stays within the limit. |
| `LibraryServices.LibraryService.RecordLoan` | LibraryManagementSystem.java:500-502 | Appends the new loan, then takes one copy of the book off the shelf, keeping every invariant. |
| `LibraryServices.LibraryService.AppendLoan` | LibraryManagementSystem.java:500-501 | Counter plus one, and the new ACTIVE record under the identifier formatted from it appended and found by that identifier. |
| `LibraryServices.LibraryService.ReturnBook` | LibraryManagementSystem.java:508-525 | Unknown identifier gives `TransactionNotFound`. An already RETURNED loan gives `InvalidTransaction`, leaving the loan and its book unchanged.<br>Otherwise the loan becomes RETURNED with today's date and fine `Fine(due, today)`. Then a removed book gives `BookNotFound`, after that change. Otherwise the shelf count rises by one, capped at the total. |
| `LibraryServices.LibraryService.LoansMatchAfter` | LibraryManagementSystem.java:500-502 | When records are appended and the book's number on loan grows by those of them still out for its ISBN, the correspondence between the book and its loans still out is restored. |
| `LibraryServices.LibraryService.LoansMatchAfterReturn` | LibraryManagementSystem.java:519-521 | When one record is marked RETURNED and the book's number on loan drops by one if that was its loan still out, the correspondence is restored. |
| `LibraryServices.LibraryService.CompleteReturn` | LibraryManagementSystem.java:519-524 | After both checks passed: the loan is settled (RETURNED, today, `Fine(due, today)`) before its book is looked up. A removed book gives `BookNotFound` after that. Otherwise the shelf count rises by one, capped at the total. |
| `LibraryServices.LibraryService.SettleLoan` | LibraryManagementSystem.java:519 | The loan becomes RETURNED with today's date and fine `Fine(due, today)`. In the ledger's (ISBN, status) view only that record changes, and the service stays valid. |
| `LibraryServices.LibraryService.RestoreCopy` | LibraryManagementSystem.java:520-521 | The filed book gets one copy back unless all copies are on the shelf. The total and the ledger's view are unchanged. |
| `LibraryServices.LibraryService.GetTotalFinesCollected` | LibraryManagementSystem.java:558-563 | The total collected is never negative. |
| `LibraryScenarios.BorrowThenReturn` | LibraryManagementSystem.java:481-525 | A successful borrow followed by a return succeeds and restores the shelf count. The fine is that for the days past due, 0 within the loan period. A refused borrow changes nothing. |
| `LibraryScenarios.BorrowKeepsLoansMatched` | LibraryManagementSystem.java:481-506 | `borrowBook`, succeeding or not, keeps each book's number on loan equal to its ISBN's loans still out, for a book filed under one key only. |
| `LibraryScenarios.ReturnKeepsLoansMatched` | LibraryManagementSystem.java:508-525 | `returnBook`, succeeding or not, keeps that same correspondence. |
| `LibraryScenarios.RemoveKeepsLoansMatched` | LibraryManagementSystem.java:438-444 | `removeBook`, succeeding or not, keeps that same correspondence for every ISBN: the removed one has no book left to compare, and the ledger is kept. |
| `LibraryScenarios.AddOverOutstandingLoans` | LibraryManagementSystem.java:414-420 | Filing a book with every copy on the shelf under a new ISBN whose loans are still out in the ledger succeeds and breaks the correspondence for that ISBN. |
| `LibraryScenarios.AddThenRemove` | LibraryManagementSystem.java:414-444 | Adding a new ISBN and removing it leaves the catalog as it was. |
| `LibraryScenarios.RegisterThenGet` | LibraryManagementSystem.java:460-474 | A newly registered user is what `getUser` returns for their id. |

`GetUserTransactions`, `GetActiveTransactions`, `SearchBooks`,
`GetBooksByCategoryCount` and `GetMostBorrowedBooks` on `LibraryService`
only pass the service's fields to `Ledger.UserTransactions`,
`Ledger.ActiveTransactions`, `Catalog.SearchBooks`,
`Catalog.CategoryCounts` and `Ledger.MostBorrowedBooks`. Those carry the
contracts. Likewise `Ledger.ActiveCount`, the count inside `borrowBook`
(LibraryManagementSystem.java:491-493), is described by the lemmas
`ActiveCountPositive`, `ActiveCountBounds` and `ActiveCountAppend`, and
`LibraryCommon.IsBlank` by `BlankIffTrimEmpty`.

## Left out

- `Main`, the console UI (`LibraryUI`) and `InputValidator`: process start-up, console I/O and regular-expression validation of input. None of it is part of the lending core.
- `Logger`: file and console output. Every `logger.log` call is a no-op in the model.
- Exception messages: only the kind of each exception is kept.
- The `synchronized` singleton `getInstance`: the service is an explicitly constructed object, and concurrency is not modelled.
- The transaction counter is modelled per service, not as one static shared by every service object.
- The counter's 32-bit wrap-around is not modelled. Identifiers go on growing past `TXN999999`, as `%06d` pads only shorter numbers.
- `price` and the `double` type of `fine`: there is no floating point. The fine is an integer, 5 per day late.
- `LocalDate.now()` and `ChronoUnit.DAYS.between`: dates are day numbers, and "today" is a parameter.
- The plain setters of `User` and `Book` (`setName`, `setTitle`, `setPrice`, `setMembershipType` and the rest): they assign a field with no rule. Titles, authors and categories are constants of a `Book`, and users are values.
- `getUserType`, `equals`, `hashCode`, `toString` and `Serializable`: none of them is behaviour of the core.
- Null arguments: Dafny references and strings are never null, so the null checks have nothing to model.
- `searchBooks`: the locale-dependent `toLowerCase` is a parameter of the search. Its behaviour is not modelled.
- `Ledger.MostBorrowedBooks`: the order among equally borrowed ISBNs follows `HashMap` iteration in the program, which is unspecified. The model groups in order of first appearance and sorts stably. No lemma states anything about the order of ties.
- `LibraryServices.LibraryService.InitializeSampleData`: states that the five sample ISBNs and three user ids are present, not the sample copy counts and user records. Proving lookups through a chain of map updates keyed by string literals exceeds the verifier's resource limit.
- `LibraryServices.LibraryService.constructor`: its contract carries the same presence facts as `InitializeSampleData`, not the copy counts.
- `LibraryServices.LibraryService.BorrowBook`: its contract does not restate the total fines. That the total is unchanged by the appended loan is `Ledger.TotalFinesAppendActive`.
- `LibraryServices.LibraryService.GetTotalFinesCollected`: states only that the result is never negative. Its relation to the fines of the returned loans is `Ledger.TotalFinesIsSumOfFines`.
- Consistency of copy counts with loans: the program does not keep a book's number on loan equal to its ISBN's loans still out. `updateBook` stores the given record as it is. The program's own update dialog builds that record with every copy on the shelf (LibraryManagementSystem.java:918-921), even while loans are out. `removeBook` keeps the correspondence itself (`RemoveKeepsLoansMatched`), but it leaves the book's loans in the ledger, so a later `addBook` of that ISBN with every copy on the shelf breaks it (`AddOverOutstandingLoans`). The model proves the correspondence is kept by `borrowBook` and `returnBook` for a book filed under one key (`BorrowKeepsLoansMatched`, `ReturnKeepsLoansMatched`) and by `removeBook`. It is not a service invariant.
- `LibraryServices.LibraryService.GetAllBooks`: returns a set, where the program returns a list of the map's values. A book object filed under two keys (as after `updateBook(a, getBook(b))`) appears twice in the program's list and once in the model.
- `Catalog.SearchBooks`: returns a set, where the program returns a list of the matching map values. A book object filed under two keys that matches appears twice in the program's list and once in the model.
- `Transactions.TransactionId`: `String.format("%06d", ...)` uses the default locale, whose digits need not be '0' to '9'. The model uses ASCII digits. Distinctness of identifiers does not depend on the digits chosen.

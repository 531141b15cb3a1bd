/** The orchestrating service: a keyed catalog of books, a keyed directory
    of users, the append-only ledger of transactions and the counter the
    transaction identifiers are drawn from. */
module LibraryServices {
  import opened LibraryCommon
  import opened Users
  import opened Books
  import opened Transactions
  import opened Ledger
  import opened Catalog

  class LibraryService {
    var bookCatalog: map<string, Book>
    var users: map<string, User>
    var transactions: seq<Transaction>
    /** `Transaction.transactionCounter`: the number of transactions created. */
    var transactionCounter: nat

    /** Every book keeps its copy-count invariant, every transaction its
        record invariant, users are filed under their own id, and the
        transactions carry strictly increasing counter values no larger
        than the counter. */
    ghost predicate Valid()
      reads this, bookCatalog.Values, transactions
    {
      && CatalogValid(bookCatalog)
      && (forall k :: k in users ==> users[k].userId == k)
      && LedgerValid(transactions, transactionCounter)
    }

    /** The book object filed under `isbn`, if any. */
    function BookFrame(isbn: string): set<Book>
      reads this
    {
      if isbn in bookCatalog then {bookCatalog[isbn]} else {}
    }

    /** The objects `returnBook(transactionId)` may change: the transaction
        found and the book filed under its ISBN. */
    function ReturnFrame(transactionId: string): set<object>
      reads this
    {
      match FindTransaction(transactions, transactionId)
      case None => {}
      case Some(i) => {transactions[i] as object} + BookFrame(transactions[i].isbn)
    }

    /** The book filed under `isbn` has exactly as many copies off the shelf
        as the ledger has loans of `isbn` still out. */
    ghost predicate LoansMatch(isbn: string)
      reads this, bookCatalog.Values, transactions
    {
      isbn in bookCatalog ==> bookCatalog[isbn].OnLoan() == CountOut(LoanView(transactions), isbn)
    }

    /** When the ledger's loan view has grown from `v0` by `added` and the
        book's copies off the shelf have grown by the loans of `added`
        still out, a correspondence that held for `v0` holds again. */
    lemma LoansMatchAfter(isbn: string, v0: seq<LoanState>, added: seq<LoanState>, before: int)
      requires isbn in bookCatalog && before == CountOut(v0, isbn)
      requires LoanView(transactions) == v0 + added
      requires bookCatalog[isbn].OnLoan() == before + CountOut(added, isbn)
      ensures LoansMatch(isbn)
    {
      CountOutConcat(v0, added, isbn);
    }

    /** When one record of the view `v0` has been marked RETURNED and the
        book's copies off the shelf have dropped by one if that loan was
        one of its loans still out, a correspondence that held for `v0`
        holds again. */
    lemma LoansMatchAfterReturn(isbn: string, v0: seq<LoanState>, f: nat, before: int)
      requires isbn in bookCatalog && before == CountOut(v0, isbn) && f < |v0|
      requires LoanView(transactions) == v0[f := LoanState(v0[f].isbn, Returned)]
      requires bookCatalog[isbn].OnLoan() == before - if v0[f].isbn == isbn && v0[f].status != Returned then 1 else 0
      ensures LoansMatch(isbn)
    {
      CountOutReturned(v0, f, isbn);
    }

    /** The book filed under `isbn` is filed under no other key. */
    predicate Unaliased(isbn: string)
      reads this
    {
      isbn in bookCatalog ==> forall k :: k in bookCatalog && k != isbn ==> bookCatalog[k] != bookCatalog[isbn]
    }

    /** Every sample ISBN is catalogued and every sample user registered. */
    predicate SampleKeysPresent()
      reads this
    {
      && "978-0-596-52068-7" in bookCatalog && "978-0-134-68599-1" in bookCatalog
      && "978-0-201-63361-0" in bookCatalog && "978-0-132-35088-4" in bookCatalog
      && "978-0-262-03384-8" in bookCatalog
      && "M001" in users && "M002" in users && "L001" in users
    }

    /** The private constructor: empty maps and ledger, then the sample
        data. */
    constructor ()
      ensures Valid() && SampleKeysPresent()
      ensures transactions == [] && transactionCounter == 0
    {
      bookCatalog := map[];
      users := map[];
      transactions := [];
      transactionCounter := 0;
      new;
      InitializeSampleData();
    }

    /** `initializeSampleData`: five `addBook` and three `registerUser`
        calls on an empty service, none of which is refused. */
    method InitializeSampleData()
      requires Valid() && bookCatalog == map[] && users == map[]
      requires transactions == [] && transactionCounter == 0
      modifies this
      ensures Valid()
      ensures SampleKeysPresent()
      ensures transactions == [] && transactionCounter == 0
    {
      assert !IsBlank("978-0-596-52068-7") && !IsBlank("978-0-134-68599-1") && !IsBlank("978-0-201-63361-0")
          && !IsBlank("978-0-132-35088-4") && !IsBlank("978-0-262-03384-8") by {
        assert "978-0-596-52068-7"[0] == '9' && "978-0-134-68599-1"[0] == '9' && "978-0-201-63361-0"[0] == '9';
        assert "978-0-132-35088-4"[0] == '9' && "978-0-262-03384-8"[0] == '9';
      }
      var b1 := new Book("978-0-596-52068-7", "Head First Java", "Kathy Sierra", "Programming", 5);
      var _ := AddBook(b1);
      var b2 := new Book("978-0-134-68599-1", "Effective Java", "Joshua Bloch", "Programming", 3);
      var _ := AddBook(b2);
      var b3 := new Book("978-0-201-63361-0", "Design Patterns", "Gang of Four", "Software Engineering", 4);
      var _ := AddBook(b3);
      var b4 := new Book("978-0-132-35088-4", "Clean Code", "Robert Martin", "Software Engineering", 6);
      var _ := AddBook(b4);
      var b5 := new Book("978-0-262-03384-8", "Introduction to Algorithms", "CLRS", "Algorithms", 2);
      var _ := AddBook(b5);
      var _ := RegisterUser(Member("M001", "Alice Johnson", "alice@email.com", "9876543210", "REGULAR"));
      var _ := RegisterUser(Member("M002", "Bob Smith", "bob@email.com", "9876543211", "PREMIUM"));
      var _ := RegisterUser(Librarian("L001", "Carol Admin", "carol@library.com", "9876543212", "EMP001"));
    }

    /** Identifiers are pairwise distinct, because they are formatted from
        distinct counter values. */
    lemma TransactionIdsDistinct()
      requires Valid()
      ensures forall i, j :: 0 <= i < j < |transactions| ==>
                transactions[i].transactionId != transactions[j].transactionId
    {
      forall i, j | 0 <= i < j < |transactions|
        ensures transactions[i].transactionId != transactions[j].transactionId
      {
        TransactionIdInjective(transactions[i].serial, transactions[j].serial);
      }
    }

    // -------------------------------------------------------------------
    // Book management

    /** `addBook`: refused when the ISBN is already a key. */
    method AddBook(book: Book) returns (o: Outcome)
      requires Valid() && book.Valid()
      modifies this
      ensures Valid()
      ensures o.Fail? <==> book.isbn in old(bookCatalog)
      ensures o.Fail? ==> o.error == DuplicateBook && unchanged(this)
      ensures o.Pass? ==> bookCatalog == old(bookCatalog)[book.isbn := book]
      ensures users == old(users) && transactions == old(transactions)
      ensures transactionCounter == old(transactionCounter)
    {
      if book.isbn in bookCatalog {
        return Fail(DuplicateBook);
      }
      bookCatalog := bookCatalog[book.isbn := book];
      return Pass;
    }

    /** `getBook`. */
    function GetBook(isbn: string): (r: Result<Book>)
      reads this
      ensures r.Ok? <==> isbn in bookCatalog
      ensures r.Ok? ==> r.value == bookCatalog[isbn]
      ensures r.Err? ==> r.error == BookNotFound
    {
      if isbn in bookCatalog then Ok(bookCatalog[isbn]) else Err(BookNotFound)
    }

    /** `updateBook`: the stored record is replaced as it is, without
        reconciling its copy counts with the loans still out. */
    method UpdateBook(isbn: string, updatedBook: Book) returns (o: Outcome)
      requires Valid() && updatedBook.Valid()
      modifies this
      ensures Valid()
      ensures o.Fail? <==> isbn !in old(bookCatalog)
      ensures o.Fail? ==> o.error == BookNotFound && unchanged(this)
      ensures o.Pass? ==> bookCatalog == old(bookCatalog)[isbn := updatedBook]
      ensures users == old(users) && transactions == old(transactions)
      ensures transactionCounter == old(transactionCounter)
    {
      if isbn !in bookCatalog {
        return Fail(BookNotFound);
      }
      bookCatalog := bookCatalog[isbn := updatedBook];
      return Pass;
    }

    /** `removeBook`: loans of the book stay in the ledger. */
    method RemoveBook(isbn: string) returns (o: Outcome)
      requires Valid()
      modifies this
      ensures Valid()
      ensures o.Fail? <==> isbn !in old(bookCatalog)
      ensures o.Fail? ==> o.error == BookNotFound && unchanged(this)
      ensures o.Pass? ==> bookCatalog == old(bookCatalog) - {isbn}
      ensures users == old(users) && transactions == old(transactions)
      ensures transactionCounter == old(transactionCounter)
    {
      if isbn !in bookCatalog {
        return Fail(BookNotFound);
      }
      bookCatalog := bookCatalog - {isbn};
      return Pass;
    }

    /** `getAllBooks`. */
    function GetAllBooks(): (r: set<Book>)
      reads this
      ensures forall k :: k in bookCatalog ==> bookCatalog[k] in r
      ensures forall b :: b in r ==> exists k :: k in bookCatalog && bookCatalog[k] == b
    {
      bookCatalog.Values
    }

    /** `searchBooks`, over a given case mapping. */
    function SearchBooks(keyword: string, lower: string -> string): set<Book>
      reads this
    {
      Catalog.SearchBooks(bookCatalog, keyword, lower)
    }

    // -------------------------------------------------------------------
    // User management

    /** `registerUser`: refused when the user id is already a key. */
    method RegisterUser(user: User) returns (o: Outcome)
      requires Valid()
      modifies this
      ensures Valid()
      ensures o.Fail? <==> user.userId in old(users)
      ensures o.Fail? ==> o.error == DuplicateUser && unchanged(this)
      ensures o.Pass? ==> users == old(users)[user.userId := user]
      ensures bookCatalog == old(bookCatalog) && transactions == old(transactions)
      ensures transactionCounter == old(transactionCounter)
    {
      if user.userId in users {
        return Fail(DuplicateUser);
      }
      users := users[user.userId := user];
      return Pass;
    }

    /** `getUser`. */
    function GetUser(userId: string): (r: Result<User>)
      reads this
      ensures r.Ok? <==> userId in users
      ensures r.Ok? ==> r.value == users[userId]
      ensures r.Err? ==> r.error == UserNotFound
    {
      if userId in users then Ok(users[userId]) else Err(UserNotFound)
    }

    /** `getAllUsers`: every registered user, each stored under its own id. */
    function GetAllUsers(): (r: set<User>)
      requires Valid()
      reads this, bookCatalog.Values, transactions
      ensures forall k :: k in users ==> users[k] in r
      ensures forall u :: u in r ==> u.userId in users && users[u.userId] == u
    {
      users.Values
    }

    // -------------------------------------------------------------------
    // Lending

    /** `borrowBook`: the checks come in the order unknown user, unknown
        book, no copy on the shelf, limit reached (counting ACTIVE loans
        only), and a failed check changes nothing. On success one ACTIVE
        transaction is appended, with the next identifier and the loan
        period from today, and one copy leaves the shelf. */
    method BorrowBook(userId: string, isbn: string, today: int) returns (r: Result<Transaction>)
      requires Valid()
      modifies this, BookFrame(isbn)
      ensures Valid()
      ensures userId !in old(users) ==> r == Err(UserNotFound)
      ensures userId in old(users) && isbn !in old(bookCatalog) ==> r == Err(BookNotFound)
      ensures userId in old(users) && isbn in old(bookCatalog) && old(bookCatalog[isbn].availableCopies) == 0
              ==> r == Err(BookNotAvailable)
      ensures userId in old(users) && isbn in old(bookCatalog) && old(bookCatalog[isbn].availableCopies) > 0
              && old(ActiveCount(transactions, userId)) >= MaxBooksAllowed(old(users[userId]))
              ==> r == Err(BorrowLimitExceeded)
      ensures r.Ok? <==> userId in old(users) && isbn in old(bookCatalog)
                         && old(bookCatalog[isbn].availableCopies) > 0
                         && old(ActiveCount(transactions, userId)) < MaxBooksAllowed(old(users[userId]))
      ensures r.Err? ==> unchanged(this) && unchanged(old(BookFrame(isbn)))
      ensures r.Ok? ==>
        && fresh(r.value)
        && transactions == old(transactions) + [r.value]
        && transactionCounter == old(transactionCounter) + 1
        && bookCatalog == old(bookCatalog) && users == old(users)
        && r.value.transactionId == TransactionId(transactionCounter)
        && r.value.userId == userId && r.value.isbn == isbn
        && r.value.borrowDate == today && r.value.dueDate == today + LoanPeriodDays
        && r.value.status == Active && r.value.returnDate == None && r.value.fine == 0
        && bookCatalog[isbn].availableCopies == old(bookCatalog[isbn].availableCopies) - 1
        && bookCatalog[isbn].totalCopies == old(bookCatalog[isbn].totalCopies)
      ensures r.Ok? ==> FindTransaction(transactions, r.value.transactionId) == Some(|transactions| - 1)
      ensures r.Ok? ==>
        ActiveCount(transactions, userId) == old(ActiveCount(transactions, userId)) + 1 <= MaxBooksAllowed(users[userId])
      ensures LoanView(transactions) == old(LoanView(transactions)) + if r.Ok? then [LoanState(isbn, Active)] else []
    {
      if userId !in users {
        return Err(UserNotFound);
      }
      var user := users[userId];
      if isbn !in bookCatalog {
        return Err(BookNotFound);
      }
      var book := bookCatalog[isbn];
      if !book.IsAvailable() {
        return Err(BookNotAvailable);
      }
      var currentBorrowedCount := ActiveCount(transactions, userId);
      if currentBorrowedCount >= MaxBooksAllowed(user) {
        return Err(BorrowLimitExceeded);
      }
      ghost var before := transactions;
      var transaction := RecordLoan(userId, isbn, today);
      ActiveCountAppend(before, transaction, userId);
      return Ok(transaction);
    }

    /** The mutating tail of `borrowBook`, once every check has passed:
        the new transaction is recorded, then a copy is taken off the
        shelf. */
    method RecordLoan(userId: string, isbn: string, today: int) returns (transaction: Transaction)
      requires Valid()
      requires isbn in bookCatalog && bookCatalog[isbn].availableCopies > 0
      modifies this, BookFrame(isbn)
      ensures Valid()
      ensures fresh(transaction)
      ensures transactions == old(transactions) + [transaction]
      ensures transactionCounter == old(transactionCounter) + 1
      ensures bookCatalog == old(bookCatalog) && users == old(users)
      ensures transaction.transactionId == TransactionId(transactionCounter)
      ensures transaction.userId == userId && transaction.isbn == isbn
      ensures transaction.borrowDate == today && transaction.dueDate == today + LoanPeriodDays
      ensures transaction.status == Active && transaction.returnDate == None && transaction.fine == 0
      ensures bookCatalog[isbn].availableCopies == old(bookCatalog[isbn].availableCopies) - 1
      ensures bookCatalog[isbn].totalCopies == old(bookCatalog[isbn].totalCopies)
      ensures FindTransaction(transactions, transaction.transactionId) == Some(|transactions| - 1)
      ensures LoanView(transactions) == old(LoanView(transactions)) + [LoanState(isbn, Active)]
    {
      var book := bookCatalog[isbn];
      ghost var before := transactions;
      transaction := AppendLoan(userId, isbn, today);
      LoanViewAppend(before, transaction);
      var _ := book.BorrowCopy();
      assert LedgerValid(transactions, transactionCounter);
    }

    /** `new Transaction(userId, isbn)` followed by `transactions.add`: the
        counter is incremented and the new ACTIVE record appended under the
        identifier formatted from it. */
    method AppendLoan(userId: string, isbn: string, today: int) returns (transaction: Transaction)
      requires LedgerValid(transactions, transactionCounter)
      modifies this`transactions, this`transactionCounter
      ensures LedgerValid(transactions, transactionCounter)
      ensures fresh(transaction)
      ensures transactions == old(transactions) + [transaction]
      ensures transactionCounter == old(transactionCounter) + 1
      ensures transaction.transactionId == TransactionId(transactionCounter)
      ensures transaction.userId == userId && transaction.isbn == isbn
      ensures transaction.borrowDate == today && transaction.dueDate == today + LoanPeriodDays
      ensures transaction.status == Active && transaction.returnDate == None && transaction.fine == 0
      ensures FindTransaction(transactions, transaction.transactionId) == Some(|transactions| - 1)
    {
      transactionCounter := transactionCounter + 1;
      transaction := new Transaction(transactionCounter, userId, isbn, today);
      RecordedLoanIsFound(transactions, transactionCounter - 1, transaction);
      transactions := transactions + [transaction];
    }

    /** `returnBook`: an unknown identifier or an already returned loan is
        refused with nothing changed. Otherwise the loan is settled first
        (RETURNED, returned today, fine computed) and only then is its book
        looked up: when the book has been removed from the catalog the call
        fails with the loan already settled. When the book is there, one
        copy goes back on the shelf unless all copies already are. */
    method ReturnBook(transactionId: string, today: int) returns (r: Result<Transaction>)
      requires Valid()
      modifies ReturnFrame(transactionId)
      ensures Valid()
      ensures unchanged(this)
      ensures FindTransaction(transactions, transactionId).None? ==> r == Err(TransactionNotFound)
      ensures var f := FindTransaction(transactions, transactionId);
        f.Some? && old(transactions[f.value].status) == Returned ==>
          r == Err(InvalidTransaction) && unchanged(transactions[f.value]) && unchanged(old(BookFrame(transactions[f.value].isbn)))
      ensures var f := FindTransaction(transactions, transactionId);
        f.Some? && old(transactions[f.value].status) != Returned ==>
          var t := transactions[f.value];
          && t.status == Returned && t.returnDate == Some(today) && t.fine == Fine(t.dueDate, today)
          && (t.isbn !in bookCatalog ==> r == Err(BookNotFound))
          && (t.isbn in bookCatalog ==>
                && r == Ok(t)
                && bookCatalog[t.isbn].totalCopies == old(bookCatalog[t.isbn].totalCopies)
                && bookCatalog[t.isbn].availableCopies
                   == if old(bookCatalog[t.isbn].availableCopies) < old(bookCatalog[t.isbn].totalCopies)
                      then old(bookCatalog[t.isbn].availableCopies) + 1
                      else old(bookCatalog[t.isbn].availableCopies))
      ensures var f := FindTransaction(transactions, transactionId);
        LoanView(transactions)
        == if f.Some? && old(transactions[f.value].status) != Returned
           then old(LoanView(transactions))[f.value := LoanState(transactions[f.value].isbn, Returned)]
           else old(LoanView(transactions))
    {
      var found := FindTransaction(transactions, transactionId);
      if found.None? {
        return Err(TransactionNotFound);
      }
      var transaction := transactions[found.value];
      if transaction.status != Active && transaction.status != Overdue {
        return Err(InvalidTransaction);
      }
      r := CompleteReturn(found.value, today);
    }

    /** The part of `returnBook` after both checks passed, for the loan at
        `i`: it is settled, and then its book is looked up and gets a copy
        back. */
    method CompleteReturn(i: nat, today: int) returns (r: Result<Transaction>)
      requires Valid() && i < |transactions| && transactions[i].status != Returned
      modifies transactions[i], BookFrame(transactions[i].isbn)
      ensures Valid()
      ensures unchanged(this)
      ensures var t := transactions[i];
        && t.status == Returned && t.returnDate == Some(today) && t.fine == Fine(t.dueDate, today)
        && (t.isbn !in bookCatalog ==> r == Err(BookNotFound))
        && (t.isbn in bookCatalog ==>
              && r == Ok(t)
              && bookCatalog[t.isbn].totalCopies == old(bookCatalog[t.isbn].totalCopies)
              && bookCatalog[t.isbn].availableCopies
                 == if old(bookCatalog[t.isbn].availableCopies) < old(bookCatalog[t.isbn].totalCopies)
                    then old(bookCatalog[t.isbn].availableCopies) + 1
                    else old(bookCatalog[t.isbn].availableCopies))
      ensures LoanView(transactions) == old(LoanView(transactions))[i := LoanState(transactions[i].isbn, Returned)]
    {
      var transaction := transactions[i];
      SettleLoan(i, today);
      if transaction.isbn !in bookCatalog {
        return Err(BookNotFound);
      }
      RestoreCopy(transaction.isbn);
      return Ok(transaction);
    }

    /** `book.returnCopy()` on the book filed under `isbn`: one copy goes
        back on the shelf unless every copy already is; the ledger and the
        service's fields are untouched. */
    method RestoreCopy(isbn: string)
      requires Valid() && isbn in bookCatalog
      modifies bookCatalog[isbn]
      ensures Valid()
      ensures bookCatalog[isbn].totalCopies == old(bookCatalog[isbn].totalCopies)
      ensures bookCatalog[isbn].availableCopies
              == if old(bookCatalog[isbn].availableCopies) < old(bookCatalog[isbn].totalCopies)
                 then old(bookCatalog[isbn].availableCopies) + 1
                 else old(bookCatalog[isbn].availableCopies)
      ensures LoanView(transactions) == old(LoanView(transactions))
    {
      var book := bookCatalog[isbn];
      book.ReturnCopy();
    }

    /** `transaction.returnBook()` on the ledger record at `i`: it becomes
        RETURNED with today's date and its fine, and no other record, book
        or field of the service changes. */
    method SettleLoan(i: nat, today: int)
      requires Valid() && i < |transactions| && transactions[i].status != Returned
      modifies transactions[i]
      ensures Valid()
      ensures transactions[i].status == Returned && transactions[i].returnDate == Some(today)
      ensures transactions[i].fine == Fine(transactions[i].dueDate, today)
      ensures LoanView(transactions) == old(LoanView(transactions))[i := LoanState(transactions[i].isbn, Returned)]
    {
      ghost var view := LoanView(transactions);
      transactions[i].ReturnBook(today);
      SerialsDistinguish(transactions, transactionCounter, i);
      assert LoanView(transactions) == view[i := LoanState(transactions[i].isbn, Returned)];
    }

    // -------------------------------------------------------------------
    // Ledger views and analytics

    /** `getUserTransactions`. */
    function GetUserTransactions(userId: string): seq<Transaction>
      reads this
    {
      Ledger.UserTransactions(transactions, userId)
    }

    /** `getActiveTransactions`. */
    function GetActiveTransactions(): seq<Transaction>
      reads this, transactions
    {
      Ledger.ActiveTransactions(transactions)
    }

    /** `getBooksByCategoryCount`. */
    function GetBooksByCategoryCount(): map<string, nat>
      reads this
    {
      CategoryCounts(bookCatalog)
    }

    /** `getMostBorrowedBooks`. */
    function GetMostBorrowedBooks(limit: int): Result<seq<Book>>
      reads this
    {
      MostBorrowedBooks(transactions, bookCatalog, limit)
    }

    /** `getTotalFinesCollected`: never negative. */
    function GetTotalFinesCollected(): (r: int)
      requires Valid()
      reads this, bookCatalog.Values, transactions
      ensures r >= 0
    {
      TotalFinesIsSumOfFines(transactions);
      TotalFines(transactions)
    }
  }
}

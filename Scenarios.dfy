// Sequences of service calls whose combined effect the library promises.

module LibraryScenarios {
  import opened LibraryCommon
  import opened Users
  import opened Books
  import opened Transactions
  import opened Ledger
  import opened LibraryServices

  /** A loan taken on `today` and returned on `returnDay`: when the borrow
      succeeds, the return succeeds too, the transaction ends RETURNED with
      the fine for the days past the due day (none within the loan
      period), and the shelf count is back where it started. A refused
      borrow changes nothing. */
  method BorrowThenReturn(s: LibraryService, userId: string, isbn: string, today: int, returnDay: int)
      returns (borrowed: Result<Transaction>, returned: Result<Transaction>)
    requires s.Valid()
    modifies s, s.BookFrame(isbn)
    ensures s.Valid()
    ensures borrowed.Err? ==> returned == borrowed && unchanged(s) && unchanged(old(s.BookFrame(isbn)))
    ensures borrowed.Ok? ==>
      && returned == borrowed
      && isbn in s.bookCatalog
      && s.bookCatalog == old(s.bookCatalog) && s.users == old(s.users)
      && s.bookCatalog[isbn].availableCopies == old(s.bookCatalog[isbn].availableCopies)
      && s.bookCatalog[isbn].totalCopies == old(s.bookCatalog[isbn].totalCopies)
      && borrowed.value.status == Returned
      && borrowed.value.returnDate == Some(returnDay)
      && borrowed.value.fine == Fine(today + LoanPeriodDays, returnDay)
      && (returnDay <= today + LoanPeriodDays ==> borrowed.value.fine == 0)
  {
    borrowed := s.BorrowBook(userId, isbn, today);
    if borrowed.Err? {
      return borrowed, borrowed;
    }
    var t := borrowed.value;
    returned := s.ReturnBook(t.transactionId, returnDay);
  }

  /** Adding a book under a new ISBN and removing it again leaves the
      catalog as it was. */
  method AddThenRemove(s: LibraryService, book: Book) returns (added: Outcome, removed: Outcome)
    requires s.Valid() && book.Valid()
    modifies s
    ensures s.Valid()
    ensures added.Fail? <==> book.isbn in old(s.bookCatalog)
    ensures added.Fail? ==> added.error == DuplicateBook && removed == added && unchanged(s)
    ensures added.Pass? ==> removed == Pass && s.bookCatalog == old(s.bookCatalog)
    ensures s.users == old(s.users) && s.transactions == old(s.transactions)
  {
    added := s.AddBook(book);
    if added.Fail? {
      return added, added;
    }
    removed := s.RemoveBook(book.isbn);
    assert s.bookCatalog == old(s.bookCatalog);
  }

  /** A user registered under a new id is the one `getUser` returns. */
  method RegisterThenGet(s: LibraryService, user: User) returns (registered: Outcome, found: Result<User>)
    requires s.Valid()
    modifies s
    ensures s.Valid()
    ensures registered.Fail? <==> user.userId in old(s.users)
    ensures registered.Pass? ==> found == Ok(user)
    ensures registered.Fail? ==> found == old(s.GetUser(user.userId)) && found.Ok? && unchanged(s)
  {
    registered := s.RegisterUser(user);
    found := s.GetUser(user.userId);
  }

  /** `borrowBook` keeps a book's copies off the shelf equal to its loans
      still out, for a book filed under one key only. */
  method BorrowKeepsLoansMatched(s: LibraryService, key: string, userId: string, isbn: string, today: int)
      returns (r: Result<Transaction>)
    requires s.Valid() && s.LoansMatch(key) && s.Unaliased(key)
    modifies s, s.BookFrame(isbn)
    ensures s.Valid() && s.LoansMatch(key)
    ensures r.Ok? ==> r.value.isbn == isbn && r.value.userId == userId
  {
    ghost var v0 := LoanView(s.transactions);
    ghost var onLoan := if key in s.bookCatalog then s.bookCatalog[key].OnLoan() else 0;
    r := s.BorrowBook(userId, isbn, today);
    if key in s.bookCatalog {
      if isbn != key {
        assert s.bookCatalog[key] !in old(s.BookFrame(isbn));
      }
      var added := if r.Ok? then [LoanState(isbn, Active)] else [];
      s.LoansMatchAfter(key, v0, added, onLoan);
    }
  }

  /** `returnBook` keeps the same correspondence: the settled loan leaves
      the count of its ISBN and its copy goes back on the shelf. */
  method ReturnKeepsLoansMatched(s: LibraryService, key: string, transactionId: string, today: int)
      returns (r: Result<Transaction>)
    requires s.Valid() && s.LoansMatch(key) && s.Unaliased(key)
    modifies s.ReturnFrame(transactionId)
    ensures s.Valid() && s.LoansMatch(key)
    ensures r.Ok? ==> r.value.transactionId == transactionId && r.value.status == Returned
  {
    ghost var v0 := LoanView(s.transactions);
    ghost var found := FindTransaction(s.transactions, transactionId);
    ghost var onLoan := if key in s.bookCatalog then s.bookCatalog[key].OnLoan() else 0;
    if key in s.bookCatalog && found.Some? && s.transactions[found.value].isbn != key {
      assert s.bookCatalog[key] !in s.BookFrame(s.transactions[found.value].isbn);
    }
    r := s.ReturnBook(transactionId, today);
    if key in s.bookCatalog {
      if found.Some? && old(s.transactions[found.value].status) != Returned {
        var i := found.value;
        if s.transactions[i].isbn == key {
          CountOutReturned(v0, i, key);
          assert onLoan >= 1;
        } else {
          assert s.bookCatalog[key] !in old(s.ReturnFrame(transactionId));
        }
        s.LoansMatchAfterReturn(key, v0, i, onLoan);
      } else {
        assert v0 + [] == v0;
        s.LoansMatchAfter(key, v0, [], onLoan);
      }
    }
  }
  /** `removeBook` keeps the correspondence: the removed ISBN no longer
      has a book to compare, and every other book and the ledger stay. */
  method RemoveKeepsLoansMatched(s: LibraryService, key: string, isbn: string) returns (o: Outcome)
    requires s.Valid() && s.LoansMatch(key)
    modifies s
    ensures s.Valid() && s.LoansMatch(key)
    ensures o.Pass? <==> isbn in old(s.bookCatalog)
  {
    o := s.RemoveBook(isbn);
  }

  /** `addBook` can break the correspondence: filing a book with every
      copy on the shelf under an ISBN whose loans are still out in the
      ledger (as `removeBook` leaves them) succeeds, and the book's
      copies off the shelf then fall short of those loans. */
  method AddOverOutstandingLoans(s: LibraryService, book: Book) returns (o: Outcome)
    requires s.Valid() && book.Valid()
    requires book.isbn !in s.bookCatalog
    requires book.availableCopies == book.totalCopies
    requires CountOut(LoanView(s.transactions), book.isbn) > 0
    modifies s
    ensures s.Valid()
    ensures o == Pass && !s.LoansMatch(book.isbn)
  {
    o := s.AddBook(book);
  }
}

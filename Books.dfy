/** A catalog entry and its copy counter. `availableCopies` moves by one
    on a borrow or a return and never leaves the range 0..totalCopies. */
module Books {
  import opened LibraryCommon

  class Book {
    const isbn: string
    const title: string
    const author: string
    const category: string
    var totalCopies: int
    var availableCopies: int

    /** The copy-count invariant every operation keeps. */
    ghost predicate Valid()
      reads this
    {
      0 <= availableCopies <= totalCopies
    }

    /** Copies currently out with borrowers. */
    function OnLoan(): (n: int)
      reads this
      ensures Valid() ==> 0 <= n <= totalCopies
      ensures n == 0 <==> availableCopies == totalCopies
    {
      totalCopies - availableCopies
    }

    /** `isAvailable`. */
    predicate IsAvailable()
      reads this
      ensures Valid() ==> (IsAvailable() <==> OnLoan() < totalCopies)
    {
      availableCopies > 0
    }

    /** The body of the `Book` constructor once its argument checks passed;
        callers go through `Create`. */
    constructor (isbn: string, title: string, author: string, category: string, totalCopies: int)
      requires !IsBlank(isbn) && totalCopies >= 0
      ensures Valid()
      ensures this.isbn == isbn && this.title == title && this.author == author && this.category == category
      ensures this.totalCopies == totalCopies && availableCopies == totalCopies
    {
      this.isbn := isbn;
      this.title := title;
      this.author := author;
      this.category := category;
      this.totalCopies := totalCopies;
      this.availableCopies := totalCopies;
    }

    /** `new Book(...)`: a blank ISBN or a negative total is refused;
        otherwise every copy starts on the shelf. */
    static method Create(isbn: string, title: string, author: string, category: string, totalCopies: int)
      returns (r: Result<Book>)
      ensures r.Ok? <==> !IsBlank(isbn) && totalCopies >= 0
      ensures r.Err? ==> r.error == IllegalArgument
      ensures r.Ok? ==> fresh(r.value) && r.value.Valid()
      ensures r.Ok? ==> r.value.isbn == isbn && r.value.title == title && r.value.author == author
                        && r.value.category == category
      ensures r.Ok? ==> r.value.totalCopies == totalCopies && r.value.availableCopies == totalCopies
    {
      if IsBlank(isbn) || totalCopies < 0 {
        return Err(IllegalArgument);
      }
      var b := new Book(isbn, title, author, category, totalCopies);
      return Ok(b);
    }

    /** `setTotalCopies`: refused when the new total is below the number on
        loan; otherwise the shelf count moves by the same difference as the
        total, so the number on loan stays the same. */
    method SetTotalCopies(newTotal: int) returns (o: Outcome)
      requires Valid()
      modifies this
      ensures Valid()
      ensures o.Pass? <==> newTotal >= old(OnLoan())
      ensures o.Fail? ==> o.error == IllegalArgument && unchanged(this)
      ensures o.Pass? ==> totalCopies == newTotal && OnLoan() == old(OnLoan())
    {
      if newTotal < totalCopies - availableCopies {
        return Fail(IllegalArgument);
      }
      var difference := newTotal - totalCopies;
      totalCopies := newTotal;
      availableCopies := availableCopies + difference;
      return Pass;
    }

    /** `borrowCopy`: takes one copy off the shelf when there is one. */
    method BorrowCopy() returns (ok: bool)
      requires Valid()
      modifies this`availableCopies
      ensures Valid()
      ensures ok <==> old(availableCopies) > 0
      ensures availableCopies == if ok then old(availableCopies) - 1 else old(availableCopies)
    {
      if availableCopies > 0 {
        availableCopies := availableCopies - 1;
        return true;
      }
      return false;
    }

    /** `returnCopy`: puts one copy back unless every copy is already on the
        shelf. */
    method ReturnCopy()
      requires Valid()
      modifies this`availableCopies
      ensures Valid()
      ensures availableCopies == if old(availableCopies) < totalCopies then old(availableCopies) + 1
                                 else old(availableCopies)
    {
      if availableCopies < totalCopies {
        availableCopies := availableCopies + 1;
      }
    }
  }
}

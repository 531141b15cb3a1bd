/** The append-only sequence of transactions and the read-only views the
    service derives from it: per-user and active loans, the borrow-limit
    count, lookup by identifier, total fines and the borrow ranking. */
module Ledger {
  import opened LibraryCommon
  import opened Books
  import opened Transactions

  // ---------------------------------------------------------------------
  // Filters of `getUserTransactions`, `getActiveTransactions` and the
  // count inside `borrowBook`

  /** The transactions of one user, in ledger order. */
  function UserTransactions(txns: seq<Transaction>, userId: string): (r: seq<Transaction>)
    ensures |r| <= |txns|
    ensures forall t :: t in r ==> t in txns && t.userId == userId
    ensures forall t :: t in txns && t.userId == userId ==> t in r
  {
    if txns == [] then []
    else (if txns[0].userId == userId then [txns[0]] else []) + UserTransactions(txns[1..], userId)
  }

  /** The loans still out: ACTIVE or OVERDUE, in ledger order. */
  function ActiveTransactions(txns: seq<Transaction>): (r: seq<Transaction>)
    reads txns
    ensures |r| <= |txns|
    ensures forall t :: t in r ==> t in txns && (t.status == Active || t.status == Overdue)
    ensures forall t :: t in txns && (t.status == Active || t.status == Overdue) ==> t in r
  {
    if txns == [] then []
    else (if txns[0].status == Active || txns[0].status == Overdue then [txns[0]] else [])
         + ActiveTransactions(txns[1..])
  }

  /** The count `borrowBook` compares with the user's limit: that user's
      transactions whose status is exactly ACTIVE (an OVERDUE loan is not
      counted). */
  function ActiveCount(txns: seq<Transaction>, userId: string): (n: nat)
    reads txns
  {
    if txns == [] then 0
    else (if txns[0].userId == userId && txns[0].status == Active then 1 else 0)
         + ActiveCount(txns[1..], userId)
  }

  /** The count is positive exactly when the user has a loan whose status
      is ACTIVE. */
  lemma {:induction false} ActiveCountPositive(txns: seq<Transaction>, userId: string)
    ensures ActiveCount(txns, userId) > 0
            <==> exists i :: 0 <= i < |txns| && txns[i].userId == userId && txns[i].status == Active
  {
    if txns != [] {
      ActiveCountPositive(txns[1..], userId);
      if ActiveCount(txns[1..], userId) > 0 {
        var i :| 0 <= i < |txns[1..]| && txns[1..][i].userId == userId && txns[1..][i].status == Active;
        assert txns[i + 1] == txns[1..][i];
      }
      if exists i :: 0 <= i < |txns| && txns[i].userId == userId && txns[i].status == Active {
        var i :| 0 <= i < |txns| && txns[i].userId == userId && txns[i].status == Active;
        if i > 0 {
          assert txns[1..][i - 1] == txns[i];
        }
      }
    }
  }

  /** The loans counted against the limit are among the user's loans, and
      every one of them is still out (ACTIVE, not OVERDUE or RETURNED). */
  lemma {:induction false} ActiveCountBounds(txns: seq<Transaction>, userId: string)
    ensures ActiveCount(txns, userId) <= |UserTransactions(txns, userId)|
    ensures ActiveCount(txns, userId) <= |ActiveTransactions(txns)|
  {
    if txns != [] {
      ActiveCountBounds(txns[1..], userId);
    }
  }

  /** Appending a loan changes the count only when it is an ACTIVE loan of
      that user, and then by one. */
  lemma {:induction false} ActiveCountAppend(txns: seq<Transaction>, t: Transaction, userId: string)
    ensures ActiveCount(txns + [t], userId)
            == ActiveCount(txns, userId) + (if t.userId == userId && t.status == Active then 1 else 0)
  {
    if txns != [] {
      assert (txns + [t])[1..] == txns[1..] + [t];
      ActiveCountAppend(txns[1..], t, userId);
    } else {
      assert (txns + [t])[1..] == [];
    }
  }

  /** `filter(...).collect(toList())` keeps ledger order: a new record
      joins the end of its user's list, and no other list changes. */
  lemma {:induction false} UserTransactionsAppend(txns: seq<Transaction>, t: Transaction, userId: string)
    ensures UserTransactions(txns + [t], userId)
            == UserTransactions(txns, userId) + (if t.userId == userId then [t] else [])
  {
    if txns != [] {
      assert (txns + [t])[1..] == txns[1..] + [t];
      UserTransactionsAppend(txns[1..], t, userId);
    } else {
      assert (txns + [t])[1..] == [];
    }
  }

  /** Likewise the loans still out keep ledger order: a new record joins the
      end exactly when it is ACTIVE or OVERDUE. */
  lemma {:induction false} ActiveTransactionsAppend(txns: seq<Transaction>, t: Transaction)
    ensures ActiveTransactions(txns + [t])
            == ActiveTransactions(txns) + (if t.status == Active || t.status == Overdue then [t] else [])
  {
    if txns != [] {
      assert (txns + [t])[1..] == txns[1..] + [t];
      ActiveTransactionsAppend(txns[1..], t);
    } else {
      assert (txns + [t])[1..] == [];
    }
  }

  // ---------------------------------------------------------------------
  // Loans still out per ISBN: what a book's on-loan count stands for

  /** The ISBN and status of one record, as a value. */
  datatype LoanState = LoanState(isbn: string, status: TransactionStatus)

  /** The ledger as values: the ISBN and status of each record, in order. */
  function LoanView(txns: seq<Transaction>): (v: seq<LoanState>)
    reads txns
    ensures |v| == |txns|
    ensures forall i :: 0 <= i < |txns| ==> v[i] == LoanState(txns[i].isbn, txns[i].status)
  {
    seq(|txns|, i requires 0 <= i < |txns| reads txns => LoanState(txns[i].isbn, txns[i].status))
  }

  lemma LoanViewAppend(txns: seq<Transaction>, t: Transaction)
    ensures LoanView(txns + [t]) == LoanView(txns) + [LoanState(t.isbn, t.status)]
  {
  }

  /** The number of loans of `isbn` still out (ACTIVE or OVERDUE). */
  function CountOut(v: seq<LoanState>, isbn: string): (n: nat)
    ensures n <= |v|
  {
    if v == [] then 0
    else CountOut(v[..|v| - 1], isbn) + (if v[|v| - 1].isbn == isbn && v[|v| - 1].status != Returned then 1 else 0)
  }

  /** Recording a loan adds one to its ISBN's count exactly when it is out. */
  lemma CountOutAppend(v: seq<LoanState>, e: LoanState, isbn: string)
    ensures CountOut(v + [e], isbn) == CountOut(v, isbn) + (if e.isbn == isbn && e.status != Returned then 1 else 0)
  {
    assert (v + [e])[..|v|] == v;
  }

  /** The count of a concatenation is the sum of the counts. */
  lemma {:induction false} CountOutConcat(v: seq<LoanState>, w: seq<LoanState>, isbn: string)
    ensures CountOut(v + w, isbn) == CountOut(v, isbn) + CountOut(w, isbn)
    decreases |w|
  {
    if w == [] {
      assert v + w == v;
    } else {
      var w' := w[..|w| - 1];
      assert (v + w)[..|v + w| - 1] == v + w';
      CountOutConcat(v, w', isbn);
    }
  }

  /** Marking one record RETURNED takes one off its ISBN's count when that
      loan was out, and changes no other ISBN's count. */
  lemma {:induction false} CountOutReturned(v: seq<LoanState>, f: nat, isbn: string)
    requires f < |v|
    ensures CountOut(v[f := LoanState(v[f].isbn, Returned)], isbn)
            == CountOut(v, isbn) - (if v[f].isbn == isbn && v[f].status != Returned then 1 else 0)
  {
    var w := v[f := LoanState(v[f].isbn, Returned)];
    if f < |v| - 1 {
      assert w[..|w| - 1] == v[..|v| - 1][f := LoanState(v[f].isbn, Returned)];
      CountOutReturned(v[..|v| - 1], f, isbn);
    } else {
      assert w[..|w| - 1] == v[..|v| - 1];
    }
  }

  /** The ledger invariant: every record keeps its own invariant, and
      the records carry strictly increasing counter values between 1 and
      `counter`. */
  ghost predicate LedgerValid(txns: seq<Transaction>, counter: nat)
    reads txns
  {
    && (forall i :: 0 <= i < |txns| ==> txns[i].Valid())
    && (forall i :: 0 <= i < |txns| ==> 1 <= txns[i].serial <= counter)
    && (forall i, j :: 0 <= i < j < |txns| ==> txns[i].serial < txns[j].serial)
  }

  /** Distinct serials make the entry at `i` a different object from
      every other entry of the ledger. */
  lemma SerialsDistinguish(txns: seq<Transaction>, counter: nat, i: nat)
    requires LedgerValid(txns, counter) && i < |txns|
    ensures forall j :: 0 <= j < |txns| && j != i ==> txns[j] != txns[i]
  {
    forall j | 0 <= j < |txns| && j != i
      ensures txns[j] != txns[i]
    {
      if j < i {
        assert txns[j].serial < txns[i].serial;
      } else {
        assert txns[i].serial < txns[j].serial;
      }
    }
  }

  /** Recording a new, valid transaction under the next counter value
      keeps the ledger invariant. */
  lemma LedgerValidAppend(txns: seq<Transaction>, counter: nat, t: Transaction)
    requires LedgerValid(txns, counter) && t.Valid() && t.serial == counter + 1
    ensures LedgerValid(txns + [t], counter + 1)
  {
    var all := txns + [t];
    assert forall i :: 0 <= i < |txns| ==> all[i] == txns[i];
    assert all[|txns|] == t;
  }

  /** The first transaction with this identifier, as `findFirst` finds it. */
  function FindTransaction(txns: seq<Transaction>, transactionId: string): (r: Option<nat>)
    ensures r.Some? ==> r.value < |txns| && txns[r.value].transactionId == transactionId
    ensures r.Some? ==> forall j :: 0 <= j < r.value ==> txns[j].transactionId != transactionId
    ensures r.None? <==> forall j :: 0 <= j < |txns| ==> txns[j].transactionId != transactionId
  {
    if txns == [] then None
    else if txns[0].transactionId == transactionId then Some(0)
    else match FindTransaction(txns[1..], transactionId)
      case None => None
      case Some(i) => Some(i + 1)
  }

  /** Appending a transaction with an identifier no earlier one has makes
      it the one that lookup finds. */
  lemma {:induction false} FindAppended(before: seq<Transaction>, t: Transaction)
    requires forall j :: 0 <= j < |before| ==> before[j].transactionId != t.transactionId
    ensures FindTransaction(before + [t], t.transactionId) == Some(|before|)
  {
    if before != [] {
      assert (before + [t])[1..] == before[1..] + [t];
      FindAppended(before[1..], t);
    } else {
      assert before + [t] == [t];
    }
  }

  /** A transaction whose counter value exceeds every earlier one is found
      at the end once appended. */
  lemma NewIdIsFound(before: seq<Transaction>, t: Transaction)
    requires forall i :: 0 <= i < |before| ==>
               before[i].transactionId == TransactionId(before[i].serial) && before[i].serial < t.serial
    requires t.transactionId == TransactionId(t.serial)
    ensures FindTransaction(before + [t], t.transactionId) == Some(|before|)
  {
    forall j | 0 <= j < |before| ensures before[j].transactionId != t.transactionId {
      TransactionIdInjective(before[j].serial, t.serial);
    }
    FindAppended(before, t);
  }

  /** Appending the transaction created under the next counter value keeps
      the ledger invariant, and its identifier then finds it. */
  lemma RecordedLoanIsFound(txns: seq<Transaction>, counter: nat, t: Transaction)
    requires LedgerValid(txns, counter) && t.Valid() && t.serial == counter + 1
    ensures LedgerValid(txns + [t], counter + 1)
    ensures FindTransaction(txns + [t], t.transactionId) == Some(|txns|)
  {
    LedgerValidAppend(txns, counter, t);
    NewIdIsFound(txns, t);
  }

  // ---------------------------------------------------------------------
  // `getTotalFinesCollected`

  /** Sum of the fines of RETURNED transactions. */
  function TotalFines(txns: seq<Transaction>): (r: int)
    reads txns
    ensures (forall i :: 0 <= i < |txns| ==> txns[i].status != Returned) ==> r == 0
    ensures (forall i :: 0 <= i < |txns| ==> txns[i].fine >= 0) ==> r >= 0
  {
    if txns == [] then 0
    else (if txns[0].status == Returned then txns[0].fine else 0) + TotalFines(txns[1..])
  }

  /** Sum of every fine, whatever the status. */
  function SumOfFines(txns: seq<Transaction>): int
    reads txns
  {
    if txns == [] then 0 else txns[0].fine + SumOfFines(txns[1..])
  }

  /** Since an unreturned loan carries no fine, the total collected is the
      sum of all fines, and it is never negative. */
  lemma {:induction false} TotalFinesIsSumOfFines(txns: seq<Transaction>)
    requires forall t :: t in txns ==> t.Valid()
    ensures TotalFines(txns) == SumOfFines(txns)
    ensures TotalFines(txns) >= 0
  {
    if txns != [] {
      assert txns[0] in txns;
      TotalFinesIsSumOfFines(txns[1..]);
    }
  }

  /** Recording a new, unreturned loan leaves the total collected as it was. */
  lemma {:induction false} TotalFinesAppendActive(txns: seq<Transaction>, t: Transaction)
    requires t.status != Returned
    ensures TotalFines(txns + [t]) == TotalFines(txns)
  {
    if txns != [] {
      assert (txns + [t])[1..] == txns[1..] + [t];
      TotalFinesAppendActive(txns[1..], t);
    } else {
      assert (txns + [t])[1..] == [];
    }
  }

  // ---------------------------------------------------------------------
  // `getMostBorrowedBooks`: group by ISBN and count, sort by count
  // descending, keep the first `limit` entries, look each ISBN up in the
  // catalog and drop the ones no longer there.

  /** One entry of the grouping: an ISBN and how many transactions name it. */
  datatype Tally = Tally(isbn: string, count: nat)

  /** The number of transactions that name `isbn`. */
  function CountFor(txns: seq<Transaction>, isbn: string): (n: nat)
    ensures n <= |txns|
    ensures n > 0 <==> exists i :: 0 <= i < |txns| && txns[i].isbn == isbn
  {
    if txns == [] then 0
    else CountFor(txns[..|txns| - 1], isbn) + (if txns[|txns| - 1].isbn == isbn then 1 else 0)
  }

  /** The ISBNs that occur in the ledger, each once, in order of first
      occurrence (the order of the grouping's entries is otherwise
      unspecified). */
  function BorrowedIsbns(txns: seq<Transaction>): (r: seq<string>)
    ensures forall x :: x in r <==> CountFor(txns, x) > 0
    ensures forall i, j :: 0 <= i < j < |r| ==> r[i] != r[j]
  {
    if txns == [] then []
    else
      var d := BorrowedIsbns(txns[..|txns| - 1]);
      if txns[|txns| - 1].isbn in d then d else d + [txns[|txns| - 1].isbn]
  }

  /** `groupingBy(Transaction::getIsbn, counting())`. */
  function Tallies(txns: seq<Transaction>): (r: seq<Tally>)
    ensures forall x :: x in r ==> x.count == CountFor(txns, x.isbn) && x.count > 0
    ensures forall k :: CountFor(txns, k) > 0 ==> Tally(k, CountFor(txns, k)) in r
    ensures forall i, j :: 0 <= i < j < |r| ==> r[i].isbn != r[j].isbn
  {
    var d := BorrowedIsbns(txns);
    var r := seq(|d|, i requires 0 <= i < |d| => Tally(d[i], CountFor(txns, d[i])));
    assert forall k :: k in d ==> Tally(k, CountFor(txns, k)) in r by {
      forall k | k in d ensures Tally(k, CountFor(txns, k)) in r {
        var i :| 0 <= i < |d| && d[i] == k;
        assert r[i] == Tally(k, CountFor(txns, k));
      }
    }
    r
  }

  ghost predicate NonIncreasing(ts: seq<Tally>) {
    forall i, j :: 0 <= i < j < |ts| ==> ts[i].count >= ts[j].count
  }

  /** Places `t` before the first entry whose count is not larger, so equal
      counts keep their order (the sort is stable). */
  function Insert(t: Tally, ts: seq<Tally>): (r: seq<Tally>)
    requires NonIncreasing(ts)
    ensures multiset(r) == multiset(ts) + multiset{t}
    ensures forall x :: x in r ==> x in ts || x == t
    ensures NonIncreasing(r)
  {
    if ts == [] then
      [t]
    else
      HeadDominates(ts);
      assert ts == [ts[0]] + ts[1..];
      if t.count >= ts[0].count then
        ConsNonIncreasing(t, ts);
        [t] + ts
      else
        var rest := Insert(t, ts[1..]);
        ConsNonIncreasing(ts[0], rest);
        [ts[0]] + rest
  }

  /** An entry counted at least as often as every entry of a sorted list
      may go in front of it. */
  lemma ConsNonIncreasing(t: Tally, ts: seq<Tally>)
    requires NonIncreasing(ts)
    requires forall x :: x in ts ==> t.count >= x.count
    ensures NonIncreasing([t] + ts)
  {
    var r := [t] + ts;
    forall i, j | 0 <= i < j < |r| ensures r[i].count >= r[j].count {
      assert r[j] == ts[j - 1];
      if i > 0 {
        assert r[i] == ts[i - 1];
      } else {
        assert ts[j - 1] in ts;
      }
    }
  }

  /** `sorted(comparingByValue().reversed())`. */
  function SortByCountDesc(ts: seq<Tally>): (r: seq<Tally>)
    ensures multiset(r) == multiset(ts)
    ensures NonIncreasing(r)
  {
    if ts == [] then []
    else
      assert ts == [ts[0]] + ts[1..];
      Insert(ts[0], SortByCountDesc(ts[1..]))
  }

  /** Every entry of the grouping, most borrowed first. */
  function Ranking(txns: seq<Transaction>): (r: seq<Tally>)
    ensures multiset(r) == multiset(Tallies(txns))
    ensures NonIncreasing(r)
  {
    SortByCountDesc(Tallies(txns))
  }

  /** `filter(Objects::nonNull)` after `map(bookCatalog::get)`: the entries
      whose ISBN is still a catalog key, in order. */
  function InCatalog(ts: seq<Tally>, catalog: map<string, Book>): (r: seq<Tally>)
    ensures |r| <= |ts|
    ensures forall x :: x in r ==> x in ts && x.isbn in catalog
    ensures forall x :: x in ts && x.isbn in catalog ==> x in r
  {
    if ts == [] then []
    else
      var rest := InCatalog(ts[1..], catalog);
      assert ts == [ts[0]] + ts[1..];
      (if ts[0].isbn in catalog then [ts[0]] else []) + rest
  }

  /** Dropping entries keeps the order of those that stay. */
  lemma {:induction false} InCatalogNonIncreasing(ts: seq<Tally>, catalog: map<string, Book>)
    requires NonIncreasing(ts)
    ensures NonIncreasing(InCatalog(ts, catalog))
  {
    if ts != [] {
      HeadDominates(ts);
      InCatalogNonIncreasing(ts[1..], catalog);
      if ts[0].isbn in catalog {
        ConsNonIncreasing(ts[0], InCatalog(ts[1..], catalog));
      }
    }
  }

  /** The head of a sorted list is counted at least as often as every later
      entry, and the rest is sorted too. */
  lemma HeadDominates(ts: seq<Tally>)
    requires NonIncreasing(ts) && ts != []
    ensures NonIncreasing(ts[1..])
    ensures forall x :: x in ts[1..] ==> ts[0].count >= x.count
    ensures forall x :: x in ts ==> ts[0].count >= x.count
  {
    forall x | x in ts[1..] ensures ts[0].count >= x.count {
      var k :| 0 <= k < |ts[1..]| && ts[1..][k] == x;
      assert ts[k + 1] == x;
    }
  }

  /** The ranked entries behind `getMostBorrowedBooks(limit)`. The limit is
      applied before absent books are dropped, so fewer than `limit` books
      may come back even when more are in the catalog. */
  function MostBorrowed(txns: seq<Transaction>, catalog: map<string, Book>, limit: nat): (r: seq<Tally>)
    ensures |r| <= limit
    ensures forall x :: x in r ==> x.isbn in catalog
  {
    var ranked := Ranking(txns);
    InCatalog(ranked[..if limit < |ranked| then limit else |ranked|], catalog)
  }

  /** `getMostBorrowedBooks`: a negative limit makes `Stream.limit` throw. */
  function MostBorrowedBooks(txns: seq<Transaction>, catalog: map<string, Book>, limit: int): (r: Result<seq<Book>>)
    ensures r.Err? <==> limit < 0
    ensures r.Err? ==> r.error == IllegalArgument
    ensures r.Ok? ==> |r.value| <= limit
    ensures r.Ok? ==> forall b :: b in r.value ==> b in catalog.Values
    ensures r.Ok? ==> |r.value| == |MostBorrowed(txns, catalog, limit)|
    ensures r.Ok? ==> forall i :: 0 <= i < |r.value| ==>
      r.value[i] == catalog[MostBorrowed(txns, catalog, limit)[i].isbn]
  {
    if limit < 0 then Err(IllegalArgument)
    else
      var m := MostBorrowed(txns, catalog, limit);
      assert forall i :: 0 <= i < |m| ==> m[i] in m;
      Ok(seq(|m|, i requires 0 <= i < |m| => catalog[m[i].isbn]))
  }

  /** The ranking holds exactly the grouping's entries: each with its
      true count, and one for every borrowed ISBN. */
  lemma RankingEntries(txns: seq<Transaction>)
    ensures forall x :: x in Ranking(txns) ==> x.count == CountFor(txns, x.isbn) > 0
    ensures forall k :: CountFor(txns, k) > 0 ==> Tally(k, CountFor(txns, k)) in Ranking(txns)
  {
    var ranked := Ranking(txns);
    var ts := Tallies(txns);
    assert multiset(ranked) == multiset(ts);
    forall x | x in ranked ensures x.count == CountFor(txns, x.isbn) > 0 {
      assert x in multiset(ranked);
      assert x in ts;
    }
    forall k | CountFor(txns, k) > 0 ensures Tally(k, CountFor(txns, k)) in ranked {
      assert Tally(k, CountFor(txns, k)) in multiset(ts);
    }
  }

  /** The ranked entries: at most `limit`, all in the catalog, each with its
      true borrow count, most borrowed first. */
  lemma MostBorrowedIsSorted(txns: seq<Transaction>, catalog: map<string, Book>, limit: nat)
    ensures var r := MostBorrowed(txns, catalog, limit);
      && |r| <= limit
      && (forall i :: 0 <= i < |r| ==> r[i].isbn in catalog)
      && (forall i :: 0 <= i < |r| ==> r[i].count == CountFor(txns, r[i].isbn) > 0)
      && NonIncreasing(r)
  {
    var ranked := Ranking(txns);
    var n := if limit < |ranked| then limit else |ranked|;
    var top := ranked[..n];
    var r := MostBorrowed(txns, catalog, limit);
    assert r == InCatalog(top, catalog);
    InCatalogNonIncreasing(top, catalog);
    RankingEntries(txns);
    forall i | 0 <= i < |r| ensures r[i].isbn in catalog && r[i].count == CountFor(txns, r[i].isbn) > 0 {
      assert r[i] in r;
      assert r[i] in top;
    }
  }

  /** No catalog ISBN left off the list was borrowed more often than one
      that is on it. */
  lemma MostBorrowedIsMaximal(txns: seq<Transaction>, catalog: map<string, Book>, limit: nat, x: Tally, k: string)
    requires x in MostBorrowed(txns, catalog, limit)
    requires k in catalog
    requires forall y :: y in MostBorrowed(txns, catalog, limit) ==> y.isbn != k
    ensures CountFor(txns, k) <= x.count
  {
    var ranked := Ranking(txns);
    var n := if limit < |ranked| then limit else |ranked|;
    if CountFor(txns, k) > 0 {
      var tk := Tally(k, CountFor(txns, k));
      RankingEntries(txns);
      PrefixIsMaximal(ranked, n, catalog, x, tk);
    }
  }

  /** In a list sorted by count, an entry of the kept prefix outranks every
      catalog entry outside it. */
  lemma PrefixIsMaximal(ranked: seq<Tally>, n: nat, catalog: map<string, Book>, x: Tally, t: Tally)
    requires n <= |ranked| && NonIncreasing(ranked)
    requires x in InCatalog(ranked[..n], catalog)
    requires t in ranked && t.isbn in catalog && t !in InCatalog(ranked[..n], catalog)
    ensures t.count <= x.count
  {
    var top := ranked[..n];
    var j :| 0 <= j < |ranked| && ranked[j] == t;
    var i :| 0 <= i < n && top[i] == x;
    assert n <= j;
    assert ranked[i].count >= ranked[j].count;
  }

  /** When the limit covers every borrowed ISBN, each borrowed ISBN still in
      the catalog is on the list. */
  lemma MostBorrowedIsComplete(txns: seq<Transaction>, catalog: map<string, Book>, limit: nat, k: string)
    requires limit >= |Ranking(txns)|
    requires k in catalog && CountFor(txns, k) > 0
    ensures Tally(k, CountFor(txns, k)) in MostBorrowed(txns, catalog, limit)
  {
    var ranked := Ranking(txns);
    assert ranked[..|ranked|] == ranked;
    RankingEntries(txns);
  }
}

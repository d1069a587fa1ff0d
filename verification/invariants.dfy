/**
 Every Admin and Member operation keeps the library invariant `Valid`: the
 catalog stays in ascending id order, availability agrees with the open
 loans, every open loan is of a catalogued book, no book has two open
 loans, and no member exceeds the loan limit.
 */
module Invariants {
  import opened Query
  import opened Records
  import opened Library

  // ----- add_book -----

  lemma AddBookPreservesValid(s: State, title: string, author: string)
    requires Valid(s)
    ensures Valid(AddBook(s, title, author).next)
  {
    var r := AddBook(s, title, author);
    if r.outcome == Ok {
      var added := r.next.books[|s.books|];
      assert r.next.books == s.books + [added];
      forall k | 0 <= k < |s.loans| && IsOpen(s.loans[k])
        ensures s.loans[k].bookId != added.id
      {
        var m :| 0 <= m < |s.books| && s.books[m].id == s.loans[k].bookId;
      }
    }
  }

  // ----- remove_book -----

  /** Removing position `i` from the catalog: the rest shift down by one. */
  lemma RemoveAtShifts(books: seq<Book>, i: nat)
    requires i < |books|
    ensures var books' := books[..i] + books[i + 1..];
            |books'| == |books| - 1
            && forall m :: 0 <= m < |books'| ==> books'[m] == books[if m < i then m else m + 1]
  {
  }

  lemma RemoveAtKeepsCatalogued(books: seq<Book>, i: nat, loans: seq<Loan>)
    requires i < |books|
    requires !OnLoanIn(loans, books[i].id)
    requires OpenLoansCatalogued(books, loans)
    ensures OpenLoansCatalogued(books[..i] + books[i + 1..], loans)
  {
    var books' := books[..i] + books[i + 1..];
    RemoveAtShifts(books, i);
    forall k | 0 <= k < |loans| && IsOpen(loans[k])
      ensures InCatalog(books', loans[k].bookId)
    {
      var m :| 0 <= m < |books| && books[m].id == loans[k].bookId;
      assert m != i;
      if m < i {
        assert books'[m] == books[m];
      } else {
        assert books'[m - 1] == books[m];
      }
    }
  }

  lemma RemoveBookPreservesValid(s: State, id: nat)
    requires Valid(s)
    ensures Valid(RemoveBook(s, id).next)
  {
    var r := RemoveBook(s, id);
    if r.outcome == Ok {
      var i :| FirstWithId(s.books, id, i) && s.books[i].available
               && r.next == s.(books := s.books[..i] + s.books[i + 1..]);
      RemoveAtShifts(s.books, i);
      RemoveAtKeepsCatalogued(s.books, i, s.loans);
    }
  }

  // ----- borrow_book -----

  lemma BorrowKeepsAvailability(s: State, i: nat, loan: Loan)
    requires UniqueBookIds(s.books) && AvailabilityAgrees(s.books, s.loans)
    requires i < |s.books| && IsOpen(loan) && loan.bookId == s.books[i].id
    ensures AvailabilityAgrees(s.books[i := s.books[i].(available := false)], s.loans + [loan])
  {
    var books', loans' := s.books[i := s.books[i].(available := false)], s.loans + [loan];
    forall m | 0 <= m < |books'|
      ensures books'[m].available <==> !OnLoanIn(loans', books'[m].id)
    {
      if m == i {
        assert loans'[|s.loans|] == loan;
      } else {
        assert books'[m] == s.books[m];
        if OnLoanIn(loans', books'[m].id) {
          var k :| 0 <= k < |loans'| && IsOpen(loans'[k]) && loans'[k].bookId == books'[m].id;
          assert k < |s.loans|;
          assert loans'[k] == s.loans[k];
        }
        if OnLoanIn(s.loans, books'[m].id) {
          var k :| 0 <= k < |s.loans| && IsOpen(s.loans[k]) && s.loans[k].bookId == books'[m].id;
          assert loans'[k] == s.loans[k];
        }
      }
    }
  }

  lemma BorrowKeepsCatalogued(s: State, i: nat, loan: Loan)
    requires OpenLoansCatalogued(s.books, s.loans)
    requires i < |s.books| && loan.bookId == s.books[i].id
    ensures OpenLoansCatalogued(s.books[i := s.books[i].(available := false)], s.loans + [loan])
  {
    var books', loans' := s.books[i := s.books[i].(available := false)], s.loans + [loan];
    forall k | 0 <= k < |loans'| && IsOpen(loans'[k])
      ensures InCatalog(books', loans'[k].bookId)
    {
      if k == |s.loans| {
        assert books'[i].id == loan.bookId;
      } else {
        assert loans'[k] == s.loans[k];
        var m :| 0 <= m < |s.books| && s.books[m].id == s.loans[k].bookId;
        assert books'[m].id == s.books[m].id;
      }
    }
  }

  lemma BorrowKeepsOneOpenLoan(loans: seq<Loan>, loan: Loan)
    requires OneOpenLoanPerBook(loans)
    requires !OnLoanIn(loans, loan.bookId)
    ensures OneOpenLoanPerBook(loans + [loan])
  {
  }

  lemma BorrowKeepsLimit(loans: seq<Loan>, userId: nat, loan: Loan)
    requires WithinLoanLimit(loans)
    requires loan.userId == userId
    requires |OpenLoanIndices(loans, userId)| < MaxLoans
    ensures WithinLoanLimit(loans + [loan])
  {
    forall u: nat
      ensures OpenLoanCount(loans + [loan], u) <= MaxLoans
    {
      CountAppend(loans, OpenLoanOf(u), loan);
      assert OpenLoanCount(loans, u) <= MaxLoans;
      if u == userId {
        CountIsCardinality(loans, OpenLoanOf(u));
        assert IndicesWhere(loans, OpenLoanOf(u)) == OpenLoanIndices(loans, u);
      }
    }
  }

  lemma BorrowBookPreservesValid(s: State, userId: nat, bookId: nat)
    requires Valid(s)
    ensures Valid(BorrowBook(s, userId, bookId).next)
  {
    var r := BorrowBook(s, userId, bookId);
    if r.outcome == Ok {
      var i :| FirstWithId(s.books, bookId, i) && s.books[i].available;
      var loan := Loan(NextLoanId(s.loans), userId, bookId, false);
      assert r.next.books == s.books[i := s.books[i].(available := false)];
      BorrowKeepsAvailability(s, i, loan);
      BorrowKeepsCatalogued(s, i, loan);
      BorrowKeepsOneOpenLoan(s.loans, loan);
      BorrowKeepsLimit(s.loans, userId, loan);
    }
  }

  // ----- return_book -----

  /** A catalogued id has a first position. */
  lemma FirstWithIdExists(books: seq<Book>, id: nat) returns (i: nat)
    requires InCatalog(books, id)
    ensures FirstWithId(books, id, i)
  {
    var found := First(books, WithId(id));
    i := found.value;
  }

  lemma ReturnKeepsAvailability(s: State, k: nat, i: nat)
    requires UniqueBookIds(s.books) && AvailabilityAgrees(s.books, s.loans) && OneOpenLoanPerBook(s.loans)
    requires k < |s.loans| && IsOpen(s.loans[k])
    requires i < |s.books| && s.books[i].id == s.loans[k].bookId
    ensures AvailabilityAgrees(s.books[i := s.books[i].(available := true)],
                               s.loans[k := s.loans[k].(returned := true)])
  {
    var books', loans' := s.books[i := s.books[i].(available := true)], s.loans[k := s.loans[k].(returned := true)];
    forall m | 0 <= m < |books'|
      ensures books'[m].available <==> !OnLoanIn(loans', books'[m].id)
    {
      if m == i {
      } else {
        assert books'[m] == s.books[m];
        assert books'[m].id != s.loans[k].bookId;
        if OnLoanIn(loans', books'[m].id) {
          var j :| 0 <= j < |loans'| && IsOpen(loans'[j]) && loans'[j].bookId == books'[m].id;
          assert loans'[j] == s.loans[j];
        }
        if OnLoanIn(s.loans, books'[m].id) {
          var j :| 0 <= j < |s.loans| && IsOpen(s.loans[j]) && s.loans[j].bookId == books'[m].id;
          assert j != k && loans'[j] == s.loans[j];
        }
      }
    }
  }

  lemma CloseKeepsCatalogued(books: seq<Book>, books': seq<Book>, loans: seq<Loan>, k: nat)
    requires k < |loans|
    requires OpenLoansCatalogued(books, loans)
    requires |books'| == |books| && forall m :: 0 <= m < |books| ==> books'[m].id == books[m].id
    ensures OpenLoansCatalogued(books', loans[k := loans[k].(returned := true)])
  {
  }

  lemma CloseKeepsOneOpenLoan(loans: seq<Loan>, k: nat)
    requires k < |loans|
    requires OneOpenLoanPerBook(loans)
    ensures OneOpenLoanPerBook(loans[k := loans[k].(returned := true)])
  {
  }

  lemma CloseKeepsLimit(loans: seq<Loan>, k: nat)
    requires k < |loans|
    requires WithinLoanLimit(loans)
    ensures WithinLoanLimit(loans[k := loans[k].(returned := true)])
  {
    var closed := loans[k].(returned := true);
    var loans' := loans[k := closed];
    forall u: nat
      ensures OpenLoanCount(loans', u) <= MaxLoans
    {
      CountUpdate(loans, OpenLoanOf(u), k, closed);
      assert OpenLoanCount(loans, u) <= MaxLoans;
    }
  }

  /** Returning a book never raises anybody's count of open loans. */
  lemma ReturnLowersLoanCounts(s: State, userId: nat, bookId: nat)
    ensures forall u: nat :: OpenLoanCount(ReturnBook(s, userId, bookId).next.loans, u) <= OpenLoanCount(s.loans, u)
  {
    var r := ReturnBook(s, userId, bookId);
    if r.outcome == Ok {
      var k :| FirstOpenLoanFor(s.loans, userId, bookId, k)
               && r.next.loans == s.loans[k := s.loans[k].(returned := true)];
      forall u: nat
        ensures OpenLoanCount(r.next.loans, u) <= OpenLoanCount(s.loans, u)
      {
        CountUpdate(s.loans, OpenLoanOf(u), k, s.loans[k].(returned := true));
      }
    }
  }

  lemma ReturnBookPreservesValid(s: State, userId: nat, bookId: nat)
    requires Valid(s)
    ensures Valid(ReturnBook(s, userId, bookId).next)
  {
    var r := ReturnBook(s, userId, bookId);
    if r.outcome == Ok {
      var k :| FirstOpenLoanFor(s.loans, userId, bookId, k)
               && r.next.loans == s.loans[k := s.loans[k].(returned := true)];
      var i := FirstWithIdExists(s.books, bookId);
      var books' := s.books[i := s.books[i].(available := true)];
      forall m | 0 <= m < |s.books|
        ensures r.next.books[m] == books'[m]
      {
        if m != i {
          assert !FirstWithId(s.books, bookId, m);
        }
      }
      assert r.next.books == books';
      ReturnKeepsAvailability(s, k, i);
      CloseKeepsCatalogued(s.books, r.next.books, s.loans, k);
      CloseKeepsOneOpenLoan(s.loans, k);
      CloseKeepsLimit(s.loans, k);
    }
  }

  // ----- borrow and return are inverse -----

  /**
   Returning a book just borrowed restores the catalog exactly and leaves
   the new loan in the ledger, closed.
   */
  lemma BorrowThenReturn(s: State, userId: nat, bookId: nat)
    requires Valid(s)
    requires BorrowBook(s, userId, bookId).outcome == Ok
    ensures var back := ReturnBook(BorrowBook(s, userId, bookId).next, userId, bookId);
            && back.outcome == Ok
            && back.next.books == s.books
            && back.next.users == s.users
            && back.next.loans == s.loans + [Loan(NextLoanId(s.loans), userId, bookId, true)]
  {
    var lent := BorrowBook(s, userId, bookId).next;
    var back := ReturnBook(lent, userId, bookId);
    var i :| FirstWithId(s.books, bookId, i) && s.books[i].available;
    var n := |s.loans|;
    assert lent.loans[n] == Loan(NextLoanId(s.loans), userId, bookId, false);
    assert lent.loans[..n] == s.loans;
    assert IsOpenLoanFor(lent.loans[n], userId, bookId);
    var k :| FirstOpenLoanFor(lent.loans, userId, bookId, k)
             && back.next.loans == lent.loans[k := lent.loans[k].(returned := true)];
    assert k == n;
    assert FirstWithId(lent.books, bookId, i);
    forall m | 0 <= m < |s.books|
      ensures back.next.books[m] == s.books[m]
    {
      if m != i {
        assert !FirstWithId(s.books, bookId, m);
        assert !FirstWithId(lent.books, bookId, m);
      }
    }
  }
}

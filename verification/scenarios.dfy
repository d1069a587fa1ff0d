/**
 Worked examples of the operations, proved on concrete states.
 */
module Scenarios {
  import opened Records
  import opened Text
  import opened BookCache
  import opened Library
  import opened Cli

  const Empty := State([], [], [])

  /** "king" matches two titles and one author, ignoring case. */
  lemma SearchKingFindsAll()
    ensures var books := [Book(1, "The King's Men", "A. Smith", true),
                          Book(2, "Kingdom", "B. Lee", true),
                          Book(3, "Other", "C. King", true)];
            Matching(books, "king") == books
  {
    var books := [Book(1, "The King's Men", "A. Smith", true),
                  Book(2, "Kingdom", "B. Lee", true),
                  Book(3, "Other", "C. King", true)];
    assert Lower("king") == "king";
    assert OccursAt("king", Lower(books[0].title), 4);
    assert OccursAt("king", Lower(books[1].title), 0);
    assert Lower(books[2].author) == "c. king";
    assert OccursAt("king", Lower(books[2].author), 3);
    assert Matching(books[3..], "king") == [];
    assert Matching(books[2..], "king") == [books[2]];
    assert Matching(books[1..], "king") == books[1..];
  }

  /** Adding the same title and author twice reports a duplicate and keeps one copy. */
  lemma AddDuneTwice()
    ensures var once := AddBook(Empty, "Dune", "Herbert");
            var twice := AddBook(once.next, "Dune", "Herbert");
            && once.outcome == Ok
            && twice.outcome == Duplicate
            && |twice.next.books| == 1
  {
  }

  /** A member holding three open loans is refused a fourth; nothing changes. */
  lemma FourthLoanRefused()
    ensures var s := State([Book(1, "A", "X", false), Book(2, "B", "X", false),
                            Book(3, "C", "X", false), Book(4, "D", "X", true)],
                           [UserModel(1, "ana", MemberRole)],
                           [Loan(1, 1, 1, false), Loan(2, 1, 2, false), Loan(3, 1, 3, false)]);
            BorrowBook(s, 1, 4) == Reply(s, LimitReached)
  {
  }

  /** An Admin cannot remove a book that is on loan; it stays in the catalog. */
  lemma RemoveLoanedBookRefused()
    ensures var s := State([Book(1, "Dune", "Herbert", false)], [], [Loan(1, 1, 1, false)]);
            RemoveBook(s, 1) == Reply(s, OnLoan)
  {
  }

  /**
   Returning a book never borrowed changes nothing, whatever the state; it
   reports NoActiveLoan unless the id is too large for the database.
   */
  lemma ReturnWithoutLoanIsNoOp(s: State, userId: nat, bookId: nat)
    requires forall k :: 0 <= k < |s.loans| ==> !IsOpenLoanFor(s.loans[k], userId, bookId)
    ensures ReturnBook(s, userId, bookId).next == s
    ensures bookId <= MaxSqlInteger ==> ReturnBook(s, userId, bookId).outcome == NoActiveLoan
  {
  }

  /**
   Any id beyond SQLite's INTEGER range stops the program before anything
   changes: removing, returning, and borrowing once the limit check passes.
   */
  lemma OverflowingIdStops(s: State, userId: nat, id: nat, cmds: seq<Command>)
    requires id > MaxSqlInteger
    ensures RemoveBook(s, id) == Reply(s, IdOverflow)
    ensures ReturnBook(s, userId, id) == Reply(s, IdOverflow)
    ensures CanBorrow(s, Member(userId)) ==> BorrowBook(s, userId, id) == Reply(s, IdOverflow)
    ensures Run(s, Admin, [Remove(id)] + cmds) == s
    ensures Run(s, Member(userId), [Return(id)] + cmds) == s
    ensures CanBorrow(s, Member(userId)) ==> Run(s, Member(userId), [Borrow(id)] + cmds) == s
  {
  }

  /** An Admin session never borrows: the menu has no borrow entry and can_borrow is false. */
  lemma AdminCannotBorrow(s: State, bookId: nat)
    ensures Step(s, Admin, Borrow(bookId)) == Reply(s, InvalidChoice)
    ensures !CanBorrow(s, Admin)
  {
  }
}

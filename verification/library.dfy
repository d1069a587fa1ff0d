/**
 The loan/availability state machine: the catalog, the users and the loan
 ledger, and the Admin and Member operations that change them. Every
 operation either makes its change and reports Ok, or reports why not and
 leaves the state as it was.
 */
module Library {
  import opened Query
  import opened Records

  /** Most loans a member may hold open at once. */
  const MaxLoans: nat := 3

  /**
   Largest value of SQLite's 64-bit INTEGER. The database driver refuses to
   bind a larger number as a query parameter and raises an error that
   nothing catches, so the program stops.
   */
  const MaxSqlInteger: nat := 0x7FFF_FFFF_FFFF_FFFF

  datatype State = State(books: seq<Book>, users: seq<UserModel>, loans: seq<Loan>)

  /** What the operation reports in place of its message. */
  datatype Outcome =
    | Ok
    | Duplicate
    | NotFound
    | OnLoan
    | LimitReached
    | Unavailable
    | NoActiveLoan
    | Listed(found: seq<Book>)
    | InvalidChoice
    | IdOverflow    // the query raised on an id beyond MaxSqlInteger; the program stops

  datatype Reply = Reply(next: State, outcome: Outcome)

  /** The logged-in user: an Admin, or a Member acting as user `userId`. */
  datatype User = Admin | Member(userId: nat)

  /** `get_role`: the role string each variant reports. */
  function GetRole(user: User): (r: Role)
    ensures r.Name() == "Admin" <==> user.Admin?
    ensures r.Name() == "Member" <==> user.Member?
  {
    match user
    case Admin => AdminRole
    case Member(_) => MemberRole
  }

  // ----- the rows the operations look up -----

  function WithId(id: nat): Book -> bool
  {
    (b: Book) => b.id == id
  }

  function WithTitleAuthor(title: string, author: string): Book -> bool
  {
    (b: Book) => b.title == title && b.author == author
  }

  predicate IsOpen(loan: Loan)
  {
    !loan.returned
  }

  function OpenLoanOf(userId: nat): Loan -> bool
  {
    (l: Loan) => l.userId == userId && IsOpen(l)
  }

  predicate IsOpenLoanFor(loan: Loan, userId: nat, bookId: nat)
  {
    loan.userId == userId && loan.bookId == bookId && IsOpen(loan)
  }

  function OpenLoanFor(userId: nat, bookId: nat): Loan -> bool
  {
    (l: Loan) => IsOpenLoanFor(l, userId, bookId)
  }

  /** `i` is the position of the first book with this id. */
  predicate FirstWithId(books: seq<Book>, id: nat, i: int)
  {
    0 <= i < |books| && books[i].id == id && forall j :: 0 <= j < i ==> books[j].id != id
  }

  /** `k` is the position of the first open loan of this user on this book. */
  predicate FirstOpenLoanFor(loans: seq<Loan>, userId: nat, bookId: nat, k: int)
  {
    0 <= k < |loans| && IsOpenLoanFor(loans[k], userId, bookId)
    && forall j :: 0 <= j < k ==> !IsOpenLoanFor(loans[j], userId, bookId)
  }

  function NextBookId(books: seq<Book>): nat
  {
    NextId(books, (b: Book) => b.id)
  }

  function NextLoanId(loans: seq<Loan>): nat
  {
    NextId(loans, (l: Loan) => l.id)
  }

  function OpenLoanCount(loans: seq<Loan>, userId: nat): nat
  {
    Count(loans, OpenLoanOf(userId))
  }

  /** Positions of the loans of `userId` that have no return date. */
  function OpenLoanIndices(loans: seq<Loan>, userId: nat): set<nat>
  {
    set k: nat | k < |loans| && loans[k].userId == userId && !loans[k].returned
  }

  // ----- Admin and Member operations -----

  /** A Member may borrow while holding fewer than MaxLoans open loans; an Admin never. */
  function CanBorrow(s: State, user: User): (b: bool)
    ensures b <==> user.Member? && |OpenLoanIndices(s.loans, user.userId)| < MaxLoans
  {
    match user
    case Admin => false
    case Member(u) =>
      CountIsCardinality(s.loans, OpenLoanOf(u));
      assert IndicesWhere(s.loans, OpenLoanOf(u)) == OpenLoanIndices(s.loans, u);
      OpenLoanCount(s.loans, u) < MaxLoans
  }

  /** Admin: add a book unless one with the same title and author exists. */
  function AddBook(s: State, title: string, author: string): (r: Reply)
    ensures r.outcome == Duplicate <==>
            exists i :: 0 <= i < |s.books| && s.books[i].title == title && s.books[i].author == author
    ensures r.outcome == Duplicate || r.outcome == Ok
    ensures r.outcome == Duplicate ==> r.next == s
    ensures r.outcome == Ok ==>
            && r.next.users == s.users && r.next.loans == s.loans
            && |r.next.books| == |s.books| + 1
            && r.next.books[..|s.books|] == s.books
            && var added := r.next.books[|s.books|];
               && added.title == title && added.author == author && added.available
               && forall j :: 0 <= j < |s.books| ==> s.books[j].id < added.id
  {
    match First(s.books, WithTitleAuthor(title, author))
    case Some(_) => Reply(s, Duplicate)
    case None =>
      Reply(s.(books := s.books + [Book(NextBookId(s.books), title, author, true)]), Ok)
  }

  /** Admin: delete a book, unless it is missing or on loan. */
  function RemoveBook(s: State, id: nat): (r: Reply)
    ensures r.outcome == IdOverflow <==> id > MaxSqlInteger
    ensures r.outcome == NotFound <==>
            id <= MaxSqlInteger && forall i :: 0 <= i < |s.books| ==> s.books[i].id != id
    ensures r.outcome == OnLoan <==>
            id <= MaxSqlInteger && exists i :: FirstWithId(s.books, id, i) && !s.books[i].available
    ensures r.outcome == Ok <==>
            id <= MaxSqlInteger && exists i :: FirstWithId(s.books, id, i) && s.books[i].available
    ensures r.outcome != Ok ==> r.next == s
    ensures r.outcome == Ok ==>
            exists i :: FirstWithId(s.books, id, i) && r.next == s.(books := s.books[..i] + s.books[i + 1..])
  {
    if id > MaxSqlInteger then Reply(s, IdOverflow)
    else match First(s.books, WithId(id))
    case None => Reply(s, NotFound)
    case Some(i) =>
      if !s.books[i].available then Reply(s, OnLoan)
      else Reply(s.(books := s.books[..i] + s.books[i + 1..]), Ok)
  }

  /** Member `userId`: borrow a book if under the limit and the book is available. */
  function BorrowBook(s: State, userId: nat, bookId: nat): (r: Reply)
    ensures r.outcome == LimitReached <==> !CanBorrow(s, Member(userId))
    ensures r.outcome == IdOverflow <==> CanBorrow(s, Member(userId)) && bookId > MaxSqlInteger
    ensures r.outcome == Ok <==>
            && CanBorrow(s, Member(userId)) && bookId <= MaxSqlInteger
            && exists i :: FirstWithId(s.books, bookId, i) && s.books[i].available
    ensures r.outcome == Ok || r.outcome == LimitReached || r.outcome == Unavailable || r.outcome == IdOverflow
    ensures r.outcome != Ok ==> r.next == s
    ensures r.outcome == Ok ==>
            && r.next.users == s.users
            && r.next.loans == s.loans + [Loan(NextLoanId(s.loans), userId, bookId, false)]
            && |r.next.books| == |s.books|
            && forall i :: 0 <= i < |s.books| ==>
                 r.next.books[i] == if FirstWithId(s.books, bookId, i) then s.books[i].(available := false) else s.books[i]
  {
    if !CanBorrow(s, Member(userId)) then Reply(s, LimitReached)
    else if bookId > MaxSqlInteger then Reply(s, IdOverflow)
    else match First(s.books, WithId(bookId))
      case None => Reply(s, Unavailable)
      case Some(i) =>
        if !s.books[i].available then Reply(s, Unavailable)
        else
          var loan := Loan(NextLoanId(s.loans), userId, bookId, false);
          Reply(s.(books := s.books[i := s.books[i].(available := false)], loans := s.loans + [loan]), Ok)
  }

  /** Member `userId`: close the first open loan of this book and make the book available. */
  function ReturnBook(s: State, userId: nat, bookId: nat): (r: Reply)
    ensures r.outcome == IdOverflow <==> bookId > MaxSqlInteger
    ensures r.outcome == NoActiveLoan <==>
            bookId <= MaxSqlInteger && forall k :: 0 <= k < |s.loans| ==> !IsOpenLoanFor(s.loans[k], userId, bookId)
    ensures r.outcome == Ok || r.outcome == NoActiveLoan || r.outcome == IdOverflow
    ensures r.outcome != Ok ==> r.next == s
    ensures r.outcome == Ok ==>
            && r.next.users == s.users
            && exists k :: FirstOpenLoanFor(s.loans, userId, bookId, k)
                           && r.next.loans == s.loans[k := s.loans[k].(returned := true)]
    ensures r.outcome == Ok ==>
            && |r.next.books| == |s.books|
            && forall i :: 0 <= i < |s.books| ==>
                 r.next.books[i] == if FirstWithId(s.books, bookId, i) then s.books[i].(available := true) else s.books[i]
  {
    if bookId > MaxSqlInteger then Reply(s, IdOverflow)
    else match First(s.loans, OpenLoanFor(userId, bookId))
    case None => Reply(s, NoActiveLoan)
    case Some(k) =>
      var loans := s.loans[k := s.loans[k].(returned := true)];
      var books :=
        match First(s.books, WithId(bookId))
        case None => s.books
        case Some(i) => s.books[i := s.books[i].(available := true)];
      Reply(s.(books := books, loans := loans), Ok)
  }

  // ----- the invariant -----

  /** Rows in row-id order, as an unordered `.all()` returns them. */
  predicate IdsAscending(books: seq<Book>)
  {
    forall i, j :: 0 <= i < j < |books| ==> books[i].id < books[j].id
  }

  predicate UniqueBookIds(books: seq<Book>)
  {
    forall i, j :: 0 <= i < j < |books| ==> books[i].id != books[j].id
  }

  predicate InCatalog(books: seq<Book>, id: nat)
  {
    exists i :: 0 <= i < |books| && books[i].id == id
  }

  /** Some open loan references book `id`. */
  predicate OnLoanIn(loans: seq<Loan>, id: nat)
  {
    exists k :: 0 <= k < |loans| && IsOpen(loans[k]) && loans[k].bookId == id
  }

  /** A book is available exactly when no open loan references it. */
  predicate AvailabilityAgrees(books: seq<Book>, loans: seq<Loan>)
  {
    forall i :: 0 <= i < |books| ==> (books[i].available <==> !OnLoanIn(loans, books[i].id))
  }

  /** Every open loan is of a book in the catalog. */
  predicate OpenLoansCatalogued(books: seq<Book>, loans: seq<Loan>)
  {
    forall k :: 0 <= k < |loans| && IsOpen(loans[k]) ==> InCatalog(books, loans[k].bookId)
  }

  /** No book has two open loans. */
  predicate OneOpenLoanPerBook(loans: seq<Loan>)
  {
    forall j, k :: 0 <= j < k < |loans| && IsOpen(loans[j]) && IsOpen(loans[k]) ==>
      loans[j].bookId != loans[k].bookId
  }

  /** Nobody holds more than MaxLoans open loans. */
  ghost predicate WithinLoanLimit(loans: seq<Loan>)
  {
    forall u: nat :: OpenLoanCount(loans, u) <= MaxLoans
  }

  /**
   The invariant the operations keep: the catalog is in ascending id order
   (so ids are unique), a book is
   available exactly when no open loan references it, every open loan is of
   a catalogued book, a book has at most one open loan, and nobody holds
   more than MaxLoans open loans.
   */
  ghost predicate Valid(s: State)
  {
    && IdsAscending(s.books)
    && AvailabilityAgrees(s.books, s.loans)
    && OpenLoansCatalogued(s.books, s.loans)
    && OneOpenLoanPerBook(s.loans)
    && WithinLoanLimit(s.loans)
  }
}

/**
 The session around the operations: logging in under a chosen role, and the
 role's menu dispatching commands to the operations. Input parsing and
 output are not modelled; a command arrives already parsed.
 */
module Cli {
  import opened Records
  import opened Text
  import opened Library
  import opened Users
  import opened BookCache
  import opened Invariants

  datatype Session = Session(next: State, actor: User)

  /**
   Log in under the chosen role: find or create the user by name, then act
   as the chosen role, whatever role the stored user has.
   */
  function Login(s: State, choice: Role, name: string): (r: Session)
    ensures GetRole(r.actor) == choice
    ensures r.next.books == s.books && r.next.loans == s.loans
    ensures s.users <= r.next.users && |r.next.users| <= |s.users| + 1
    ensures exists i :: 0 <= i < |r.next.users| && r.next.users[i].name == name
    ensures r.actor.Member? ==>
            exists i :: 0 <= i < |r.next.users| && r.next.users[i].name == name && r.next.users[i].id == r.actor.userId
  {
    var found := GetOrCreateUser(s.users, name, choice);
    assert found.user in found.users;
    var actor := match choice case AdminRole => Admin case MemberRole => Member(found.user.id);
    Session(s.(users := found.users), actor)
  }

  /**
   Logging in again under an existing name leaves the user table as it was,
   so the stored role is kept even when a different role is chosen.
   */
  lemma LoginKeepsStoredRole(s: State, choice: Role, name: string, i: nat)
    requires i < |s.users| && s.users[i].name == name
    ensures Login(s, choice, name).next.users == s.users
    ensures Login(s, choice, name).next.users[i].role == s.users[i].role
  {
  }

  /** A parsed menu selection. */
  datatype Command =
    | Add(title: string, author: string)
    | Remove(bookId: nat)
    | Borrow(bookId: nat)
    | Return(bookId: nat)
    | Find(keyword: string)

  /** The Admin menu offers add, remove and search; the Member menu borrow, return and search. */
  function InMenu(actor: User, cmd: Command): (offered: bool)
    ensures cmd.Find? ==> offered
    ensures cmd.Add? || cmd.Remove? ==> (offered <==> GetRole(actor).Name() == "Admin")
    ensures cmd.Borrow? || cmd.Return? ==> (offered <==> GetRole(actor).Name() == "Member")
  {
    match actor
    case Admin => cmd.Add? || cmd.Remove? || cmd.Find?
    case Member(_) => cmd.Borrow? || cmd.Return? || cmd.Find?
  }

  /** The loans of `before` are still there, with the same user and book, and none reopened. */
  predicate LedgerExtends(before: seq<Loan>, after: seq<Loan>)
  {
    |before| <= |after|
    && forall k :: 0 <= k < |before| ==>
         && after[k].id == before[k].id
         && after[k].userId == before[k].userId
         && after[k].bookId == before[k].bookId
         && (before[k].returned ==> after[k].returned)
  }

  /** Same books, in the same order, up to availability. */
  predicate SameCatalog(before: seq<Book>, after: seq<Book>)
  {
    |before| == |after|
    && forall i :: 0 <= i < |before| ==>
         after[i].id == before[i].id && after[i].title == before[i].title && after[i].author == before[i].author
  }

  /** One menu selection; searching reads a fresh snapshot of the catalog. */
  function Step(s: State, actor: User, cmd: Command): (r: Reply)
    ensures !InMenu(actor, cmd) ==> r == Reply(s, InvalidChoice)
    ensures InMenu(actor, cmd) ==> match cmd
      case Add(title, author) => r == AddBook(s, title, author)
      case Remove(id) => r == RemoveBook(s, id)
      case Borrow(id) => r == BorrowBook(s, actor.userId, id)
      case Return(id) => r == ReturnBook(s, actor.userId, id)
      case Find(_) => true
    ensures cmd.Find? ==> r.next == s
    ensures cmd.Find? ==>
            (r.outcome == NotFound <==> forall i :: 0 <= i < |s.books| ==> !Matches(s.books[i], Lower(cmd.keyword)))
    ensures cmd.Find? && r.outcome != NotFound ==> r.outcome == Listed(Matching(s.books, cmd.keyword))
    ensures r.next.users == s.users
    ensures actor.Admin? ==> r.next.loans == s.loans
    ensures actor.Member? ==> SameCatalog(s.books, r.next.books)
    ensures LedgerExtends(s.loans, r.next.loans)
  {
    if !InMenu(actor, cmd) then Reply(s, InvalidChoice)
    else match cmd
      case Add(title, author) => AddBook(s, title, author)
      case Remove(id) => RemoveBook(s, id)
      case Borrow(id) => BorrowBook(s, actor.userId, id)
      case Return(id) => ReturnBook(s, actor.userId, id)
      case Find(keyword) =>
        var found := Matching(s.books, keyword);
        MatchingIsExact(s.books, keyword);
        SearchFindsNothingIff(s.books, keyword);
        Reply(s, if |found| == 0 then NotFound else Listed(found))
  }

  /** The search is empty exactly when no book of the snapshot matches. */
  lemma SearchFindsNothingIff(books: seq<Book>, keyword: string)
    ensures |Matching(books, keyword)| == 0 <==>
            forall i :: 0 <= i < |books| ==> !Matches(books[i], Lower(keyword))
  {
  }

  /**
   A session: the commands of one logged-in user, in order, until the user
   leaves or a query raises and the program stops.
   */
  function Run(s: State, actor: User, cmds: seq<Command>): (r: State)
    ensures r.users == s.users
    ensures LedgerExtends(s.loans, r.loans)
    ensures actor.Admin? ==> r.loans == s.loans
    ensures actor.Member? ==> SameCatalog(s.books, r.books)
    decreases |cmds|
  {
    if |cmds| == 0 then s
    else
      var reply := Step(s, actor, cmds[0]);
      if reply.outcome == IdOverflow then reply.next
      else Run(reply.next, actor, cmds[1..])
  }

  lemma StepPreservesValid(s: State, actor: User, cmd: Command)
    requires Valid(s)
    ensures Valid(Step(s, actor, cmd).next)
  {
    if InMenu(actor, cmd) {
      match cmd
      case Add(title, author) => AddBookPreservesValid(s, title, author);
      case Remove(id) => RemoveBookPreservesValid(s, id);
      case Borrow(id) => BorrowBookPreservesValid(s, actor.userId, id);
      case Return(id) => ReturnBookPreservesValid(s, actor.userId, id);
      case Find(_) =>
    }
  }

  /** Whatever the commands, a session keeps the invariant. */
  lemma {:induction false} RunPreservesValid(s: State, actor: User, cmds: seq<Command>)
    requires Valid(s)
    ensures Valid(Run(s, actor, cmds))
    decreases |cmds|
  {
    if |cmds| > 0 {
      StepPreservesValid(s, actor, cmds[0]);
      RunPreservesValid(Step(s, actor, cmds[0]).next, actor, cmds[1..]);
    }
  }

  /** A fresh database, with no books and no loans, is valid whoever has logged in. */
  lemma EmptyLibraryValid(users: seq<UserModel>)
    ensures Valid(State([], users, []))
  {
  }

  /** From a fresh database, every session of any user leaves the library valid. */
  lemma FreshLibraryStaysValid(users: seq<UserModel>, actor: User, cmds: seq<Command>)
    ensures Valid(Run(State([], users, []), actor, cmds))
  {
    EmptyLibraryValid(users);
    RunPreservesValid(State([], users, []), actor, cmds);
  }

  /** Logging in does not touch the catalog or the ledger, so it keeps the invariant too. */
  lemma LoginPreservesValid(s: State, choice: Role, name: string)
    requires Valid(s)
    ensures Valid(Login(s, choice, name).next)
  {
  }
}

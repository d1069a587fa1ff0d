# Library manager core, modelled in Dafny

This project models the in-memory core of a single-file library manager
(`mod.py`). The library keeps a catalog of books, a table of users and a
loan ledger. An Admin adds and removes books. A Member borrows and returns
them, holding at most three open loans. Anyone can search the catalog by
keyword.

Each operation is a pure function from a `State` (books, users, loans,
each a sequence of rows in row-id order) to a `Reply`: the next state plus
an outcome tag. The tag stands in for the message the program prints:
Ok, Duplicate, NotFound, OnLoan, LimitReached, Unavailable, NoActiveLoan,
InvalidChoice, Listed(books) for a search, or IdOverflow when a typed book
id is too large for SQLite's 64-bit INTEGER. In that case the database driver
raises an error nobody catches, and the program stops.

Modules:

- `Query` (query.dfy): the two query shapes the program uses, `filter_by(..).first()` (`First`) and `.count()` (`Count`), plus the id SQLite gives a new row (`NextId`: largest id plus one, or 1 for an empty table).
- `Text` (text.dfy): ASCII lower-casing and Python's substring test `k in s`.
- `Records` (records.dfy): the rows `Book`, `UserModel`, `Loan` and the stored role.
- `BookCache` (book_cache.dfy): the keyword search over a catalog snapshot.
- `Library` (library.dfy): the state, the `Admin | Member(userId)` variant, `CanBorrow`, the four operations, and the invariant `Valid`.
- `Invariants` (invariants.dfy): each operation keeps `Valid`; borrowing then returning restores the catalog.
- `Users` (users.dfy): `get_or_create_user`.
- `Cli` (cli.dfy): login under a chosen role, the per-role menu as a dispatch function, and sessions of commands.
- `Scenarios` (scenarios.dfy): worked examples of the operations, on concrete states.

`Valid` says five things:

- the catalog is in ascending id order, the order in which `.all()` returns rows (mod.py:42), so book ids are unique;
- a book is available exactly when no open loan references it;
- every open loan is of a catalogued book;
- no book has two open loans;
- nobody holds more than three open loans.

`Cli.RunPreservesValid` shows that every sequence of menu commands keeps it.

## Model

| member | source | states |
|---|---|---|
| Query.First | mod.py:80 | `.first()` gives the position of the first row meeting the filter, with no earlier row meeting it; it gives None exactly when no row meets it |
| Query.Count | mod.py:100 | `.count()` is at most the number of rows, and is zero exactly when no row meets the filter |
| Query.CountIsCardinality | mod.py:100 | the count equals the number of positions whose row meets the filter |
| Query.NextId | mod.py:11 | a new row's id is at least 1 and above every existing id; it is 1 or one more than an existing id |
| Text.Lower | mod.py:45 | lower-casing keeps the length, leaves no capital letter, and changes only capital letters |
| Text.Contains | mod.py:48 | the scan answers true exactly when the keyword occurs at some position of the text |
| Text.EmptyIsSubstring | mod.py:48 | the empty keyword occurs in every text |
| BookCache.Matching | mod.py:44-49 | the result is a subsequence of the snapshot, so snapshot order is kept, and every book in it matches the lower-cased keyword in title or author |
| BookCache.MatchingIsExact | mod.py:46-49 | each book appears in the result exactly as often as in the snapshot if it matches, and not at all otherwise |
| BookCache.MatchingAppend | mod.py:46-49 | searching a snapshot with one more book at the end adds that book to the end of the result exactly when it matches |
| BookCache.MatchesKey | mod.py:48 | the short-circuiting test of title then author answers exactly whether the book matches the lower-cased keyword |
| BookCache.Search | mod.py:44-49 | the loop, which lower-cases the keyword once and short-circuits the title/author test, returns exactly the matching subsequence |
| BookCache.SearchEmptyKeyword | mod.py:45-48 | searching for the empty keyword returns the whole snapshot |
| BookCache.SearchIdempotent | mod.py:44-49 | searching a search result again with the same keyword returns it unchanged |
| BookCache.SearchIgnoresKeywordCase | mod.py:45 | lower-casing the keyword first does not change the result |
| Library.GetRole | mod.py:62-63 | an Admin reports "Admin" and a Member reports "Member" (mod.py:95-96), and neither reports the other |
| Library.CanBorrow | mod.py:98-102 | true exactly for a Member whose set of loans without a return date has fewer than 3 elements; always false for an Admin (mod.py:65-66) |
| Library.AddBook | mod.py:68-77 | Duplicate exactly when a book with the same title and author exists, and then nothing changes; otherwise exactly one available book with that title and author and an id above all others is appended, and everything else is kept |
| Library.RemoveBook | mod.py:79-89 | IdOverflow exactly when the id exceeds 2^63-1; otherwise NotFound when no book has the id, OnLoan when the first book with it is unavailable, Ok when it is available; only Ok changes the state, by deleting exactly that book |
| Library.BorrowBook | mod.py:104-116 | LimitReached exactly when the member may not borrow; IdOverflow exactly when they may and the id exceeds 2^63-1; Ok exactly when they may, the id is in range and the first book with it is available; on Ok one open loan for this user and book is appended and only that book becomes unavailable; otherwise nothing changes |
| Library.ReturnBook | mod.py:118-128 | IdOverflow exactly when the id exceeds 2^63-1; otherwise NoActiveLoan exactly when this user has no open loan of this book; neither changes anything; on Ok the first such loan is closed, no other loan changes, and only the first book with the id becomes available |
| Invariants.AddBookPreservesValid | mod.py:68-77 | adding a book keeps the catalog in ascending id order, and the new book, having a fresh id, is on no open loan |
| Invariants.RemoveBookPreservesValid | mod.py:79-89 | deleting an available book keeps the catalog in ascending id order and leaves no open loan without its book |
| Invariants.BorrowBookPreservesValid | mod.py:104-116 | borrowing keeps availability equal to "no open loan", keeps one open loan per book, and keeps every member at 3 open loans or fewer |
| Invariants.ReturnLowersLoanCounts | mod.py:118-128 | in any state, returning never raises any user's count of open loans |
| Invariants.ReturnBookPreservesValid | mod.py:118-128 | returning keeps availability equal to "no open loan", keeps one open loan per book, and keeps every member at 3 open loans or fewer |
| Invariants.BorrowThenReturn | mod.py:104-128 | a successful borrow followed by a return of the same book restores the catalog exactly and leaves one more loan, closed, in the ledger |
| Users.GetOrCreateUser | mod.py:130-136 | an existing name gives the first stored user with it, role unchanged, and the table unchanged; a new name appends one user with that name, the given role and a fresh id |
| Users.GetOrCreateUserIdempotent | mod.py:130-136 | a second call with the same name and any role returns the same user and table as the first |
| Users.GetOrCreateUserKeepsUnique | mod.py:130-136 | unique names and unique ids stay unique |
| Cli.Login | mod.py:144-155 | the session's role is the chosen one; the catalog and ledger are untouched; every earlier user is kept in place and at most one user is added; a user with the name is stored, and a Member acts as that stored user's id |
| Cli.LoginKeepsStoredRole | mod.py:146-155 | logging in under an existing name, with either role, leaves the users table and the stored role as they were |
| Cli.InMenu | mod.py:161-198 | search is on both menus; add and remove are offered exactly to the role reporting "Admin"; borrow and return exactly to the role reporting "Member" |
| Cli.SearchFindsNothingIff | mod.py:184-189 | the search result is empty exactly when no book of the snapshot matches |
| Cli.Step | mod.py:159-231 | a command outside the role's menu is a no-op; a command on it gives exactly the reply of the operation it selects; a search reports NotFound exactly when no book matches and otherwise lists the matching books; search changes nothing; no command touches users; an Admin never changes the ledger; a Member never changes which books exist; no loan is deleted, re-pointed or reopened |
| Cli.Run | mod.py:159-231 | over a whole session, which stops early at an id overflow, users are untouched, the ledger only grows and closes loans, an Admin session keeps the ledger, and a Member session keeps the catalog's books |
| Cli.StepPreservesValid | mod.py:159-231 | every menu command keeps the invariant |
| Cli.RunPreservesValid | mod.py:159-231 | every sequence of commands keeps the invariant |
| Cli.EmptyLibraryValid | mod.py:32-33 | a freshly created database, with no books and no loans, satisfies the invariant |
| Cli.FreshLibraryStaysValid | mod.py:138-231 | starting from a fresh database, any session of any user leaves the library valid |
| Cli.LoginPreservesValid | mod.py:144-155 | logging in keeps the invariant |
| Scenarios.SearchKingFindsAll | mod.py:44-49 | "king" finds "The King's Men", "Kingdom" and the book by "C. King" |
| Scenarios.AddDuneTwice | mod.py:70-73 | adding "Dune"/"Herbert" twice reports Duplicate the second time and keeps one book |
| Scenarios.FourthLoanRefused | mod.py:105-107 | a member with three open loans is refused a fourth, and nothing changes |
| Scenarios.RemoveLoanedBookRefused | mod.py:82-84 | removing a book on loan reports OnLoan and keeps it |
| Scenarios.ReturnWithoutLoanIsNoOp | mod.py:119-122 | returning without an open loan for that user and book changes nothing, and reports NoActiveLoan for any id within range |
| Scenarios.OverflowingIdStops | mod.py:80-119 | for every id above 2^63-1, removing (mod.py:80), returning (mod.py:119), and borrowing once the limit check passes (mod.py:108) report IdOverflow with nothing changed, and the session ends there: later commands are never run |
| Scenarios.AdminCannotBorrow | mod.py:65-66 | an Admin cannot borrow, and the Admin menu has no borrow entry |

## Left out

- The database engine, sessions, table creation and commits (mod.py:1-3, 32-34). Each operation is one atomic step on the state. `can_borrow` opens its own session; since every operation commits, it reads the same state, and the model reads that state.
- Timestamps (`loan_date`, `return_date`). Only "return date is null" is ever tested, so a loan carries a `returned` flag.
- The id overflow is modelled as the outcome IdOverflow that ends the session. The model does not say how the program prints the error as it stops.
- Reading input, printing, and the loops that re-prompt until a book id is all digits (mod.py:138-234). Commands arrive parsed as `Cli.Command`. The number typed in a menu is abstracted to the operation it selects. A command outside the role's menu stands for the "invalid menu" branch.
- Text.Lower: lower-cases ASCII letters only; Python's `str.lower` also folds non-ASCII letters.
- Query.NextId: models SQLite's usual choice of row id; it leaves out the random id chosen once the largest id reaches 2^63-1.
- Users: the stored role is a two-valued datatype rather than a free string; the program only ever stores "Admin" or "Member".
- `BookCache.load_from_db` is the identity on the catalog: each search reads the current catalog, in row order.

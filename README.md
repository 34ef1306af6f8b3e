# Library lending ledger and authentication decisions, in Dafny

This project models the core of a small library web application. Members borrow and return
books. Admins keep the catalogue. Users register and log in.

The database part (`database.py`) becomes an in-memory `Library` object. It has three tables:

- `users`
- `books`
- `borrowed_books`

Beside the tables it keeps the SQLite AUTOINCREMENT counters behind their ids. Each writing
operation is a method that states the new contents of every table. Each method keeps the
invariant `Valid()`. Its central clause is the lending invariant: a book is unavailable
exactly when one open loan (a `borrowed_books` row whose `returned_at` is NULL) names it, and
available exactly when none does. The read queries are functions of the table contents.

The authentication part (`auth.py`) becomes pure outcome functions:

- the registration checks, in their order;
- the login decision and where it sends the user;
- the `login_required` and `role_required` page guards.

`Register` is the one method there. It runs the checks, then `Library.CreateUser`.

Files and modules:

- `optional.dfy` (`Optional`): the `Option` type. It stands for a NULL column, a row that was
  not found, or a form field that was not submitted.
- `seqs.dfy` (`Seqs`): generic sequence operations that stand for the relational parts of the
  queries: filtering (WHERE), the first match (`fetchone`) and a descending sort (ORDER BY ...
  DESC).
- `tables.dfy` (`Tables`): the row types and the SQL statements that write the tables. It also
  holds the consistency predicate `Consistent` and one lemma per writing operation proving that
  the operation preserves it.
- `queries.dfy` (`Queries`): the `get_*` functions, and the join with `books` behind a
  member's loan history.
- `database.dfy` (`Database`): the `Library` class with its operations, and a walk-through of
  one lending cycle. In it, two members borrow the same book and only the first succeeds. A
  second return of the same book fails.
- `auth.dfy` (`Auth`): registration, login and the guards.

Environment inputs become parameters:

- The current time is a natural-number clock value `now`.
- A password hash is the byte string the hashing library produced. Hashing is salted, so the
  hash is an input of `CreateUser`, `SeedData` and `Register`.
- The password check is a function parameter `verify` of `Login`.

Behaviour of the code worth knowing:

- `borrow_book` reports a missing book and an unavailable book alike, as `false`.
- `update_book` and `delete_book` return nothing, even for an unknown id.
- A member's history lists all their loans, returned ones included, and the join with `books`
  drops a loan whose book row is missing.

## Model

| member | source | states |
|---|---|---|
| Database.Library.constructor | database.py:14-56 | a fresh database has three empty tables and all id counters at zero, and is consistent |
| Database.Library.CreateUser | database.py:125-143 | fails (None) exactly when the username is already taken or the role is neither admin nor member, and then writes nothing; otherwise appends one row with the next id and the given role and returns that id |
| Database.Library.AddBook | database.py:172-183 | appends one available book with the next id and returns the id; other tables unchanged; invariant kept |
| Database.Library.UpdateBook | database.py:185-195 | only title and author of the rows with this id change; availability, ids and the ledger are untouched |
| Database.Library.DeleteBook | database.py:197-208 | removes every loan of the book and then the book; all other books and loans are kept; the book is no longer found or listed |
| Database.Library.BorrowBook | database.py:210-233 | succeeds exactly when a book with this id exists and is available. On failure nothing changes. On success it appends one open loan (user, book, now, NULL) with the next id and marks only that book unavailable, leaving exactly one open loan for it |
| Database.Library.Lend | database.py:222-229 | the two writes of a successful borrow for a book that exists and is available: one open loan appended with the next id, only that book's flag cleared, exactly one open loan for it afterwards, invariant kept |
| Database.Library.ReturnBook | database.py:235-263 | succeeds exactly when this user has an open loan of this book; otherwise nothing changes. On success it stamps exactly that loan with `now` and marks the book available. A loan already returned is never changed. With a clock not behind any borrow time, borrowed_at <= returned_at is kept |
| Database.Library.SeedData | database.py:58-97 | when a user called admin exists, changes nothing; otherwise inserts the admin account and then each sample book, in order, with consecutive ids, all available, the user counter advanced by one and the book counter by the number of samples; afterwards an admin exists, so a second call is a no-op |
| Tables.AddUserKeeps | database.py:24-30 | inserting a user with a fresh id, an unused username and an allowed role keeps the tables consistent |
| Tables.AddBookKeeps | database.py:176-181 | inserting an available book with a fresh id keeps the tables consistent (no loan names the new id) |
| Tables.UpdateBookKeeps | database.py:189-193 | changing title and author keeps the tables consistent |
| Tables.DeleteBookKeeps | database.py:202-206 | the cascade (loans first, then the book) keeps the tables consistent, foreign keys included |
| Tables.DropBookKeepsBooks | database.py:202-206 | after the cascade, the remaining book ids stay distinct and in range, and each remaining book's flag still matches its open loans |
| Tables.DropKeepsLoans | database.py:202-206 | after the cascade, loan ids stay distinct and every remaining loan still names an existing book |
| Tables.BorrowKeeps | database.py:222-229 | appending an open loan for an available book and clearing its flag keeps the lending invariant |
| Tables.ReturnKeeps | database.py:251-259 | stamping an open loan and setting its book's flag keeps the lending invariant |
| Tables.ActiveCountAppend | database.py:223-226 | an appended row adds one open loan to its own book only if it is open |
| Tables.ActiveCountUnnamed | database.py:176-181 | a book id that no loan names has no open loan |
| Tables.ActiveCountPositive | database.py:241-245 | an open loan in the table counts toward its book |
| Tables.ActiveCountDrop | database.py:203 | deleting a book's loans leaves it no open loan and every other book its count |
| Tables.ActiveCountMark | database.py:252-256 | stamping the loan with a given id closes that loan only |
| Tables.MarkReturnedAt | database.py:252-256 | with unique loan ids, the update by id changes exactly the matched row |
| Queries.GetUserByUsername | database.py:107-114 | finds a row with exactly this username, and finds none only when no row has it |
| Queries.GetUserById | database.py:116-123 | finds a row with this id, and finds none only when no row has it |
| Queries.ListedIffFound | database.py:145-170 | with unique book ids, the full catalogue listing and the lookup by id agree: a row is listed exactly when looking up its id finds that very row |
| Queries.GetAvailableBooks | database.py:154-161 | exactly the books whose flag is set, each as often as in the table |
| Queries.AvailableIffNoOpenLoan | database.py:158 | under the lending invariant, a book is listed as available exactly when no open loan names it |
| Queries.GetBookById | database.py:163-170 | finds a book with this id, and finds none only when no book has it |
| Queries.OpenLoan | database.py:241-245 | finds an open loan of this user and book, and finds none only when there is none |
| Queries.Join | database.py:270-273 | every joined row comes from a loan and the book it names; with unique book ids every such pair appears; when every loan's book exists, no loan is dropped |
| Queries.JoinRowByRow | database.py:270-273 | when every loan's book exists, the join has exactly one row per loan, in loan order, and row k is built from loan k and the book its id names |
| Queries.GetBorrowedBooksByUser | database.py:265-278 | newest first; every row is one of this user's loans joined with its book; every such loan appears; the result is a permutation of the join of the user's loans (one row per loan, by the row-by-row lemma) |
| Queries.GetActiveBorrowedBooksByUser | database.py:280-293 | newest first; exactly this user's open loans joined with their books; the result is a permutation of the join of those loans, so one row per open loan |
| Seqs.SortDesc | database.py:274 | the result is ordered largest key first and is a permutation of the input |
| Auth.CheckRegistration | auth.py:51-65 | missing username or password is reported first; then a password that differs from its confirmation; then one shorter than 6 characters; otherwise the checks pass |
| Auth.MismatchBeforeLength | auth.py:59-65 | a password that is both too short and unconfirmed is reported as a mismatch |
| Auth.SixCharactersPass | auth.py:63-65 | a confirmed password of exactly 6 characters passes the checks |
| Auth.Register | auth.py:47-76 | a failed check is returned and the users table is untouched; otherwise, when the username is free, a member row with the given username and hash is appended, the outcome is success with the next user id and the user counter moves to it, while books, loans and their counters stay as they were; "username taken" (nothing written) happens exactly when that username already existed |
| Auth.Login | auth.py:8-45 | missing fields are reported first. Success needs a user with that username whose stored hash verifies the password, and the session gets that user's id, name and role. The admin role goes to the admin dashboard, any other role to the member dashboard. With unique usernames a verifying user always logs in, and when no row with that username verifies, the result is invalid credentials |
| Auth.LoginRequired | auth.py:85-93 | proceeds exactly when the session holds a user id, otherwise asks to log in |
| Auth.RoleRequired | auth.py:95-110 | asks to log in without a user id; denies permission when the session role differs from the required one; proceeds exactly when logged in with that role |
| Auth.LoginLandsOnPermittedDashboard | auth.py:38-41 | after a successful login, the session written passes the login guard and the role guard of the dashboard the user is sent to |

## Left out

- SQLite connections, `commit`/`close`, and `init_db`'s check whether the database file exists are left out, because they are I/O. The constructor models a fresh, empty database.
- bcrypt is a foreign library and is left out. `hash_password` is salted and random, so its output is an input of `CreateUser`, `SeedData` and `Register`. `verify_password` is the function parameter `verify` of `Login`.
- `datetime.now()` is replaced by a clock parameter `now`. The model does not assume a monotone clock. `ReturnBook` states borrowed_at <= returned_at only when `now` is not behind any borrow time.
- Concurrency is left out. The check-then-write in `borrow_book` runs without a lock, but the model is strictly sequential.
- The literal list of sample books in `seed_data` is data, so `SeedData` takes the list as a parameter.
- Flask routing, flash messages, redirects, templates and JWT creation are web plumbing and are left out. So are the session writes at login, which appear only as the returned `SessionData`, and `logout`, which only clears the session. The GET branches of `login` and `register`, which only render a form, are left out too.
- The route handlers in `member.py` and `admin.py` are left out. They repeat `borrow_book`'s checks, count rows, or call the modelled operations. The member delete page reports failure even after deleting, because `delete_book` returns nothing; only `delete_book` itself is modelled.
- The order of `SELECT * FROM books` is taken to be insertion order. SQL does not promise this, but SQLite returns rows in rowid order.
- Queries.GetBorrowedBooksByUser: rows with equal `borrowed_at` come in ledger order in the model. SQL leaves their order unspecified, so the contract states only the descending order.
- Queries.GetActiveBorrowedBooksByUser: the same as for the history query applies to rows with equal `borrowed_at`.
- Database.Library.CreateUser: it receives the hash rather than the plain password, because hashing is random.
- NOT NULL violations from Python `None` arguments to the database functions are not modelled. The model's parameters are never NULL, and their callers never pass `None`.
- Ids and timestamps are unbounded naturals; SQLite's 64-bit integer range and the timestamp text format are not modelled.

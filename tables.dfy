/** The three tables of the library database as sequences of rows, the SQL statements that
    change them as functions on those sequences, the consistency the schema and the
    lending code keep between them, and one preservation lemma per writing operation. */
module Tables {
  import opened Optional
  import opened Seqs

  /** A bcrypt hash, stored as the bytes the hashing library returns. */
  type Hash = seq<bv8>

  const ADMIN: string := "admin"
  const MEMBER: string := "member"

  /** The CHECK constraint on users.role. */
  predicate AllowedRole(role: string) {
    role == ADMIN || role == MEMBER
  }

  datatype User = User(id: nat, username: string, password: Hash, role: string)

  datatype Book = Book(id: nat, title: string, author: string, available: bool)

  /** One row of borrowed_books; `returnedAt` is NULL while the loan is open. */
  datatype BorrowRecord = BorrowRecord(id: nat, userId: nat, bookId: nat, borrowedAt: nat, returnedAt: Option<nat>)
  {
    predicate Active() {
      returnedAt.None?
    }
  }

  // Keys of the rows, as first-class functions for Distinct.
  function UserId(u: User): nat { u.id }
  function Username(u: User): string { u.username }
  function BookId(b: Book): nat { b.id }
  function RecordId(r: BorrowRecord): nat { r.id }

  /** Some book row has this id. */
  predicate HasBook(books: seq<Book>, id: nat) {
    exists k :: 0 <= k < |books| && books[k].id == id
  }

  /** Some user row has this username. */
  predicate HasUsername(users: seq<User>, username: string) {
    exists k :: 0 <= k < |users| && users[k].username == username
  }

  /** Number of open loans of book `bookId`. */
  function ActiveCount(records: seq<BorrowRecord>, bookId: nat): nat {
    if records == [] then 0
    else (if records[0].bookId == bookId && records[0].Active() then 1 else 0) + ActiveCount(records[1..], bookId)
  }

  // ---------------------------------------------------------------------------------------
  // The statements that write the tables.

  /** UPDATE books SET available = flag WHERE id = bookId */
  function SetAvailable(books: seq<Book>, bookId: nat, flag: bool): seq<Book> {
    seq(|books|, k requires 0 <= k < |books| =>
      if books[k].id == bookId then books[k].(available := flag) else books[k])
  }

  /** UPDATE books SET title = title, author = author WHERE id = bookId */
  function SetTitleAuthor(books: seq<Book>, bookId: nat, title: string, author: string): seq<Book> {
    seq(|books|, k requires 0 <= k < |books| =>
      if books[k].id == bookId then books[k].(title := title, author := author) else books[k])
  }

  /** UPDATE borrowed_books SET returned_at = now WHERE id = recordId */
  function MarkReturned(records: seq<BorrowRecord>, recordId: nat, now: nat): seq<BorrowRecord> {
    seq(|records|, k requires 0 <= k < |records| =>
      if records[k].id == recordId then records[k].(returnedAt := Some(now)) else records[k])
  }

  /** DELETE FROM borrowed_books WHERE book_id = bookId */
  function DropLoans(records: seq<BorrowRecord>, bookId: nat): seq<BorrowRecord> {
    Filter(records, (r: BorrowRecord) => r.bookId != bookId)
  }

  /** DELETE FROM books WHERE id = bookId */
  function DropBook(books: seq<Book>, bookId: nat): seq<Book> {
    Filter(books, (b: Book) => b.id != bookId)
  }

  // ---------------------------------------------------------------------------------------
  // What the schema and the code keep true of the tables.

  /** users: AUTOINCREMENT ids up to the counter, UNIQUE usernames, the role CHECK. */
  ghost predicate UsersOk(users: seq<User>, lastUserId: nat) {
    && Distinct(users, UserId)
    && Distinct(users, Username)
    && forall k :: 0 <= k < |users| ==> 1 <= users[k].id <= lastUserId && AllowedRole(users[k].role)
  }

  /** books: AUTOINCREMENT ids up to the counter. */
  ghost predicate BooksOk(books: seq<Book>, lastBookId: nat) {
    && Distinct(books, BookId)
    && forall k :: 0 <= k < |books| ==> 1 <= books[k].id <= lastBookId
  }

  /** borrowed_books: AUTOINCREMENT ids up to the counter, and every row names a book that
      exists (borrow_book only inserts for an existing book, delete_book cascades). */
  ghost predicate LoansOk(records: seq<BorrowRecord>, books: seq<Book>, lastRecordId: nat) {
    && Distinct(records, RecordId)
    && forall k :: 0 <= k < |records| ==> 1 <= records[k].id <= lastRecordId && HasBook(books, records[k].bookId)
  }

  /** The lending invariant: a book is unavailable exactly when one open loan names it,
      and available exactly when none does. */
  ghost predicate AvailabilityOk(books: seq<Book>, records: seq<BorrowRecord>) {
    forall k :: 0 <= k < |books| ==> ActiveCount(records, books[k].id) == if books[k].available then 0 else 1
  }

  ghost predicate Consistent(users: seq<User>, books: seq<Book>, records: seq<BorrowRecord>,
                             lastUserId: nat, lastBookId: nat, lastRecordId: nat) {
    && UsersOk(users, lastUserId)
    && BooksOk(books, lastBookId)
    && LoansOk(records, books, lastRecordId)
    && AvailabilityOk(books, records)
  }

  /** Every returned loan was returned no earlier than it was borrowed. */
  ghost predicate StampsOrdered(records: seq<BorrowRecord>) {
    forall k :: 0 <= k < |records| && records[k].returnedAt.Some? ==> records[k].borrowedAt <= records[k].returnedAt.value
  }

  // ---------------------------------------------------------------------------------------
  // Counting open loans.

  lemma {:induction false} ActiveCountAppend(records: seq<BorrowRecord>, r: BorrowRecord, bookId: nat)
    ensures ActiveCount(records + [r], bookId)
         == ActiveCount(records, bookId) + if r.bookId == bookId && r.Active() then 1 else 0
  {
    if records != [] {
      assert (records + [r])[1..] == records[1..] + [r];
      ActiveCountAppend(records[1..], r, bookId);
    }
  }

  /** A book that no row names has no open loan. */
  lemma {:induction false} ActiveCountUnnamed(records: seq<BorrowRecord>, bookId: nat)
    requires forall k :: 0 <= k < |records| ==> records[k].bookId != bookId
    ensures ActiveCount(records, bookId) == 0
  {
    if records != [] {
      ActiveCountUnnamed(records[1..], bookId);
    }
  }

  /** An open loan in the table counts toward its book. */
  lemma {:induction false} ActiveCountPositive(records: seq<BorrowRecord>, r: BorrowRecord)
    requires r in records && r.Active()
    ensures ActiveCount(records, r.bookId) >= 1
  {
    if records[0] != r {
      ActiveCountPositive(records[1..], r);
    }
  }

  /** Deleting the loans of one book leaves that book none and every other book its own. */
  lemma {:induction false} ActiveCountDrop(records: seq<BorrowRecord>, dropped: nat, bookId: nat)
    ensures ActiveCount(DropLoans(records, dropped), bookId) == if bookId == dropped then 0 else ActiveCount(records, bookId)
  {
    if records != [] {
      ActiveCountDrop(records[1..], dropped, bookId);
      assert records == [records[0]] + records[1..];
      if records[0].bookId != dropped {
        assert DropLoans(records, dropped) == [records[0]] + DropLoans(records[1..], dropped);
      } else {
        assert DropLoans(records, dropped) == DropLoans(records[1..], dropped);
      }
    }
  }

  /** Stamping the one row with `r`'s id closes `r`'s loan and no other. */
  lemma {:induction false} ActiveCountMark(records: seq<BorrowRecord>, r: BorrowRecord, now: nat, bookId: nat)
    requires Distinct(records, RecordId)
    requires r in records && r.Active()
    ensures ActiveCount(MarkReturned(records, r.id, now), bookId)
         == ActiveCount(records, bookId) - if r.bookId == bookId then 1 else 0
  {
    var marked := MarkReturned(records, r.id, now);
    assert marked[1..] == MarkReturned(records[1..], r.id, now);
    if records[0] == r {
      assert forall k :: 1 <= k < |records| ==> records[k].id != r.id by {
        forall k | 1 <= k < |records| ensures records[k].id != r.id {
          assert RecordId(records[0]) != RecordId(records[k]);
        }
      }
      assert MarkReturned(records[1..], r.id, now) == records[1..];
    } else {
      assert r in records[1..];
      assert records[0].id != r.id by {
        var k :| 0 <= k < |records| && records[k] == r;
        assert RecordId(records[0]) != RecordId(records[k]);
      }
      assert Distinct(records[1..], RecordId) by {
        forall i, j | 0 <= i < j < |records| - 1
          ensures RecordId(records[1..][i]) != RecordId(records[1..][j])
        {
          assert RecordId(records[i + 1]) != RecordId(records[j + 1]);
        }
      }
      ActiveCountMark(records[1..], r, now, bookId);
    }
  }

  /** With unique record ids, stamping by id changes exactly the row at `k`. */
  lemma MarkReturnedAt(records: seq<BorrowRecord>, k: nat, now: nat)
    requires Distinct(records, RecordId)
    requires k < |records|
    ensures MarkReturned(records, records[k].id, now) == records[k := records[k].(returnedAt := Some(now))]
  {
    forall j | 0 <= j < |records| && j != k ensures records[j].id != records[k].id {
      if j < k {
        assert RecordId(records[j]) != RecordId(records[k]);
      } else {
        assert RecordId(records[k]) != RecordId(records[j]);
      }
    }
  }

  // ---------------------------------------------------------------------------------------
  // Each writing operation keeps the tables consistent.

  /** An update that keeps every book id keeps the ids distinct and every loan's book present. */
  lemma SameBookIds(books: seq<Book>, books': seq<Book>, records: seq<BorrowRecord>, lastBookId: nat, lastRecordId: nat)
    requires BooksOk(books, lastBookId) && LoansOk(records, books, lastRecordId)
    requires |books'| == |books| && forall k :: 0 <= k < |books| ==> books'[k].id == books[k].id
    ensures BooksOk(books', lastBookId) && LoansOk(records, books', lastRecordId)
  {
    DistinctSameKeys(books, books', BookId);
    forall k | 0 <= k < |records| ensures HasBook(books', records[k].bookId) {
      var m :| 0 <= m < |books| && books[m].id == records[k].bookId;
      assert books'[m].id == records[k].bookId;
    }
  }

  /** add_book: a fresh id and available = 1. */
  lemma AddBookKeeps(users: seq<User>, books: seq<Book>, records: seq<BorrowRecord>,
                     lastUserId: nat, lastBookId: nat, lastRecordId: nat, title: string, author: string)
    requires Consistent(users, books, records, lastUserId, lastBookId, lastRecordId)
    ensures Consistent(users, books + [Book(lastBookId + 1, title, author, true)], records,
                       lastUserId, lastBookId + 1, lastRecordId)
  {
    var b := Book(lastBookId + 1, title, author, true);
    var books' := books + [b];
    DistinctAppend(books, b, BookId);
    forall k | 0 <= k < |records| ensures records[k].bookId != b.id && HasBook(books', records[k].bookId) {
      var m :| 0 <= m < |books| && books[m].id == records[k].bookId;
      assert books'[m] == books[m];
    }
    ActiveCountUnnamed(records, b.id);
    forall k | 0 <= k < |books'| ensures ActiveCount(records, books'[k].id) == if books'[k].available then 0 else 1 {
      if k < |books| {
        assert books'[k] == books[k];
      }
    }
  }

  /** update_book: only title and author change. */
  lemma UpdateBookKeeps(users: seq<User>, books: seq<Book>, records: seq<BorrowRecord>,
                        lastUserId: nat, lastBookId: nat, lastRecordId: nat,
                        bookId: nat, title: string, author: string)
    requires Consistent(users, books, records, lastUserId, lastBookId, lastRecordId)
    ensures Consistent(users, SetTitleAuthor(books, bookId, title, author), records,
                       lastUserId, lastBookId, lastRecordId)
  {
    var books' := SetTitleAuthor(books, bookId, title, author);
    SameBookIds(books, books', records, lastBookId, lastRecordId);
    assert forall k :: 0 <= k < |books| ==> books'[k].available == books[k].available;
  }

  /** delete_book: the loans of the book go first, then the book; the rest is kept. */
  lemma DeleteBookKeeps(users: seq<User>, books: seq<Book>, records: seq<BorrowRecord>,
                        lastUserId: nat, lastBookId: nat, lastRecordId: nat, bookId: nat)
    requires Consistent(users, books, records, lastUserId, lastBookId, lastRecordId)
    ensures Consistent(users, DropBook(books, bookId), DropLoans(records, bookId),
                       lastUserId, lastBookId, lastRecordId)
  {
    DropBookKeepsBooks(books, records, lastBookId, bookId);
    DropKeepsLoans(books, records, lastRecordId, bookId);
  }

  /** Removing a book keeps the other books' ids and their open-loan counts. */
  lemma DropBookKeepsBooks(books: seq<Book>, records: seq<BorrowRecord>, lastBookId: nat, bookId: nat)
    requires BooksOk(books, lastBookId) && AvailabilityOk(books, records)
    ensures BooksOk(DropBook(books, bookId), lastBookId)
    ensures AvailabilityOk(DropBook(books, bookId), DropLoans(records, bookId))
  {
    var books', records' := DropBook(books, bookId), DropLoans(records, bookId);
    DistinctFilter(books, BookId, (b: Book) => b.id != bookId);
    forall k | 0 <= k < |books'|
      ensures 1 <= books'[k].id <= lastBookId
      ensures ActiveCount(records', books'[k].id) == if books'[k].available then 0 else 1
    {
      assert books'[k] in books';
      var m :| 0 <= m < |books| && books[m] == books'[k];
      ActiveCountDrop(records, bookId, books'[k].id);
    }
  }

  /** Removing a book together with its loans leaves every remaining loan's book in place. */
  lemma DropKeepsLoans(books: seq<Book>, records: seq<BorrowRecord>, lastRecordId: nat, bookId: nat)
    requires LoansOk(records, books, lastRecordId)
    ensures LoansOk(DropLoans(records, bookId), DropBook(books, bookId), lastRecordId)
  {
    var books', records' := DropBook(books, bookId), DropLoans(records, bookId);
    DistinctFilter(records, RecordId, (r: BorrowRecord) => r.bookId != bookId);
    forall k | 0 <= k < |records'| ensures 1 <= records'[k].id <= lastRecordId && HasBook(books', records'[k].bookId) {
      assert records'[k] in records';
      var m :| 0 <= m < |records| && records[m] == records'[k];
      var n :| 0 <= n < |books| && books[n].id == records[m].bookId;
      assert books[n] in books';
      var n' :| 0 <= n' < |books'| && books'[n'] == books[n];
    }
  }

  /** borrow_book: a new open loan for an available book, and the book marked unavailable. */
  lemma BorrowKeeps(users: seq<User>, books: seq<Book>, records: seq<BorrowRecord>,
                    lastUserId: nat, lastBookId: nat, lastRecordId: nat,
                    userId: nat, book: Book, now: nat)
    requires Consistent(users, books, records, lastUserId, lastBookId, lastRecordId)
    requires book in books && book.available
    ensures Consistent(users, SetAvailable(books, book.id, false),
                       records + [BorrowRecord(lastRecordId + 1, userId, book.id, now, None)],
                       lastUserId, lastBookId, lastRecordId + 1)
    ensures ActiveCount(records + [BorrowRecord(lastRecordId + 1, userId, book.id, now, None)], book.id) == 1
  {
    var loan := BorrowRecord(lastRecordId + 1, userId, book.id, now, None);
    var books', records' := SetAvailable(books, book.id, false), records + [loan];
    var m :| 0 <= m < |books| && books[m] == book;
    SameBookIds(books, books', records, lastBookId, lastRecordId);
    DistinctAppend(records, loan, RecordId);
    assert books'[m].id == book.id;
    forall k | 0 <= k < |records'| ensures 1 <= records'[k].id <= lastRecordId + 1 && HasBook(books', records'[k].bookId) {
      if k < |records| {
        assert records'[k] == records[k];
      }
    }
    forall k | 0 <= k < |books'| ensures ActiveCount(records', books'[k].id) == if books'[k].available then 0 else 1 {
      ActiveCountAppend(records, loan, books[k].id);
      if books[k].id == book.id {
        DistinctAt(books, BookId, k, m);
      }
    }
    ActiveCountAppend(records, loan, book.id);
  }

  /** return_book: the matched open loan is stamped and its book marked available. */
  lemma ReturnKeeps(users: seq<User>, books: seq<Book>, records: seq<BorrowRecord>,
                    lastUserId: nat, lastBookId: nat, lastRecordId: nat,
                    loan: BorrowRecord, now: nat)
    requires Consistent(users, books, records, lastUserId, lastBookId, lastRecordId)
    requires loan in records && loan.Active()
    ensures Consistent(users, SetAvailable(books, loan.bookId, true), MarkReturned(records, loan.id, now),
                       lastUserId, lastBookId, lastRecordId)
  {
    var books', records' := SetAvailable(books, loan.bookId, true), MarkReturned(records, loan.id, now);
    DistinctSameKeys(records, records', RecordId);
    assert LoansOk(records', books, lastRecordId);
    SameBookIds(books, books', records', lastBookId, lastRecordId);
    ActiveCountPositive(records, loan);
    forall k | 0 <= k < |books'| ensures ActiveCount(records', books'[k].id) == if books'[k].available then 0 else 1 {
      ActiveCountMark(records, loan, now, books[k].id);
    }
  }

  /** create_user: a fresh id, a username not yet taken and an allowed role. */
  lemma AddUserKeeps(users: seq<User>, books: seq<Book>, records: seq<BorrowRecord>,
                     lastUserId: nat, lastBookId: nat, lastRecordId: nat,
                     username: string, password: Hash, role: string)
    requires Consistent(users, books, records, lastUserId, lastBookId, lastRecordId)
    requires !HasUsername(users, username) && AllowedRole(role)
    ensures Consistent(users + [User(lastUserId + 1, username, password, role)], books, records,
                       lastUserId + 1, lastBookId, lastRecordId)
  {
    var u := User(lastUserId + 1, username, password, role);
    DistinctAppend(users, u, UserId);
    DistinctAppend(users, u, Username);
    assert forall k :: 0 <= k < |users| ==> (users + [u])[k] == users[k];
  }
}

/** The read-only queries of the library database: lookups by key, the catalogue listings and
    a member's loan history, each a function of the table contents. */
module Queries {
  import opened Optional
  import opened Seqs
  import opened Tables

  /** SELECT * FROM users WHERE username = ?, first row. */
  function GetUserByUsername(users: seq<User>, username: string): (r: Option<User>)
    ensures r.Some? ==> r.value in users && r.value.username == username
    ensures r.None? <==> !HasUsername(users, username)
  {
    match IndexOf(users, (u: User) => u.username == username)
    case None => None
    case Some(k) => Some(users[k])
  }

  /** SELECT * FROM users WHERE id = ?, first row. */
  function GetUserById(users: seq<User>, userId: nat): (r: Option<User>)
    ensures r.Some? ==> r.value in users && r.value.id == userId
    ensures r.None? <==> forall u :: u in users ==> u.id != userId
  {
    match IndexOf(users, (u: User) => u.id == userId)
    case None => None
    case Some(k) => Some(users[k])
  }

  /** SELECT * FROM books WHERE id = ?, first row. */
  function GetBookById(books: seq<Book>, bookId: nat): (r: Option<Book>)
    ensures r.Some? ==> r.value in books && r.value.id == bookId
    ensures r.None? <==> !HasBook(books, bookId)
  {
    match IndexOf(books, (b: Book) => b.id == bookId)
    case None => None
    case Some(k) => Some(books[k])
  }

  /** With unique book ids, the row found by id tells whether the book exists and is available. */
  lemma FoundBookIsAvailableBook(books: seq<Book>, bookId: nat)
    requires Distinct(books, BookId)
    ensures (exists b :: b in books && b.id == bookId && b.available)
        <==> GetBookById(books, bookId).Some? && GetBookById(books, bookId).value.available
  {
    var found := GetBookById(books, bookId);
    if found.Some? {
      forall b | b in books && b.id == bookId ensures b == found.value {
        var i :| 0 <= i < |books| && books[i] == b;
        var j :| 0 <= j < |books| && books[j] == found.value;
        DistinctAt(books, BookId, i, j);
      }
    }
  }

  /** SELECT * FROM books, in table order. */
  function GetAllBooks(books: seq<Book>): seq<Book> {
    books
  }

  /** With unique book ids, the catalogue listing and the lookup by id agree: a row is listed
      exactly when looking up its id finds that very row. */
  lemma ListedIffFound(books: seq<Book>, b: Book)
    requires Distinct(books, BookId)
    ensures b in GetAllBooks(books) <==> GetBookById(books, b.id) == Some(b)
  {
    var found := GetBookById(books, b.id);
    if b in books {
      var i :| 0 <= i < |books| && books[i] == b;
      var j :| 0 <= j < |books| && books[j] == found.value;
      DistinctAt(books, BookId, i, j);
    }
  }

  /** SELECT * FROM books WHERE available = 1 */
  function GetAvailableBooks(books: seq<Book>): (r: seq<Book>)
    ensures forall b :: b in r <==> b in books && b.available
    ensures forall b :: multiset(r)[b] == if b.available then multiset(books)[b] else 0
  {
    Filter(books, (b: Book) => b.available)
  }

  /** With the lending invariant, the available listing is exactly the books with no open loan. */
  lemma AvailableIffNoOpenLoan(books: seq<Book>, records: seq<BorrowRecord>, b: Book)
    requires AvailabilityOk(books, records)
    ensures b in GetAvailableBooks(books) <==> b in books && ActiveCount(records, b.id) == 0
  {
  }

  /** SELECT id FROM borrowed_books WHERE user_id = ? AND book_id = ? AND returned_at IS NULL,
      first row: the open loan that return_book closes. */
  function OpenLoan(records: seq<BorrowRecord>, userId: nat, bookId: nat): (r: Option<BorrowRecord>)
    ensures r.Some? ==> r.value in records && r.value.userId == userId && r.value.bookId == bookId && r.value.Active()
    ensures r.None? <==> forall rec :: rec in records ==> !(rec.userId == userId && rec.bookId == bookId && rec.Active())
  {
    match IndexOf(records, (rec: BorrowRecord) => rec.userId == userId && rec.bookId == bookId && rec.Active())
    case None => None
    case Some(k) => Some(records[k])
  }

  // ---------------------------------------------------------------------------------------
  // A member's loans, joined with the book they name and newest first.

  /** b.id, b.title, b.author, bb.borrowed_at, bb.returned_at */
  datatype HistoryRow = HistoryRow(bookId: nat, title: string, author: string, borrowedAt: nat, returnedAt: Option<nat>)

  /** b.id, b.title, b.author, bb.borrowed_at */
  datatype ActiveRow = ActiveRow(bookId: nat, title: string, author: string, borrowedAt: nat)

  function HistoryRowOf(b: Book, rec: BorrowRecord): HistoryRow {
    HistoryRow(b.id, b.title, b.author, rec.borrowedAt, rec.returnedAt)
  }

  function ActiveRowOf(b: Book, rec: BorrowRecord): ActiveRow {
    ActiveRow(b.id, b.title, b.author, rec.borrowedAt)
  }

  function HistoryKey(row: HistoryRow): nat { row.borrowedAt }

  function ActiveKey(row: ActiveRow): nat { row.borrowedAt }

  /** WHERE bb.user_id = ? */
  function OwnedBy(userId: nat): BorrowRecord -> bool {
    (rec: BorrowRecord) => rec.userId == userId
  }

  /** WHERE bb.user_id = ? AND bb.returned_at IS NULL */
  function OpenAndOwnedBy(userId: nat): BorrowRecord -> bool {
    (rec: BorrowRecord) => rec.userId == userId && rec.Active()
  }

  /** JOIN books b ON bb.book_id = b.id: one row per loan whose book exists, in loan order. */
  function Join<R(!new)>(books: seq<Book>, records: seq<BorrowRecord>, row: (Book, BorrowRecord) -> R): (r: seq<R>)
    ensures |r| <= |records|
    ensures forall x :: x in r ==>
      exists rec, b :: rec in records && b in books && b.id == rec.bookId && x == row(b, rec)
    ensures Distinct(books, BookId) ==> forall rec, b ::
      rec in records && b in books && b.id == rec.bookId ==> row(b, rec) in r
    ensures (forall rec :: rec in records ==> HasBook(books, rec.bookId)) ==> |r| == |records|
  {
    if records == [] then []
    else
      var rest := Join(books, records[1..], row);
      assert records == [records[0]] + records[1..];
      match GetBookById(books, records[0].bookId)
      case None => rest
      case Some(b) => [row(b, records[0])] + rest
  }

  /** When every loan's book exists, the join has exactly one row per loan, in loan order:
      row k is built from loan k and the book that the lookup by its book id finds. */
  lemma {:induction false} JoinRowByRow<R(!new)>(books: seq<Book>, records: seq<BorrowRecord>,
                                                 row: (Book, BorrowRecord) -> R)
    requires forall k :: 0 <= k < |records| ==> HasBook(books, records[k].bookId)
    ensures var r := Join(books, records, row);
      && |r| == |records|
      && forall k :: 0 <= k < |r| ==>
           GetBookById(books, records[k].bookId).Some?
           && r[k] == row(GetBookById(books, records[k].bookId).value, records[k])
  {
    if records != [] {
      var tail := records[1..];
      JoinRowByRow(books, tail, row);
      var rest := Join(books, tail, row);
      var found := GetBookById(books, records[0].bookId);
      var r := Join(books, records, row);
      assert r == [row(found.value, records[0])] + rest;
      forall k | 1 <= k < |r|
        ensures GetBookById(books, records[k].bookId).Some?
        ensures r[k] == row(GetBookById(books, records[k].bookId).value, records[k])
      {
        assert r[k] == rest[k - 1] && records[k] == tail[k - 1];
      }
    }
  }

  /** get_borrowed_books_by_user: every loan of the member, open or returned, newest first. */
  function GetBorrowedBooksByUser(books: seq<Book>, records: seq<BorrowRecord>, userId: nat): (r: seq<HistoryRow>)
    ensures SortedDesc(r, HistoryKey)
    ensures forall x :: x in r ==>
      exists rec, b :: rec in records && b in books && rec.userId == userId && b.id == rec.bookId && x == HistoryRowOf(b, rec)
    ensures Distinct(books, BookId) ==> forall rec, b ::
      rec in records && b in books && rec.userId == userId && b.id == rec.bookId ==> HistoryRowOf(b, rec) in r
    ensures (forall rec :: rec in records ==> HasBook(books, rec.bookId)) ==> |r| == |Filter(records, OwnedBy(userId))|
    ensures multiset(r) == multiset(Join(books, Filter(records, OwnedBy(userId)), HistoryRowOf))
  {
    var joined := Join(books, Filter(records, OwnedBy(userId)), HistoryRowOf);
    var r := SortDesc(joined, HistoryKey);
    assert forall x :: x in r <==> x in joined by {
      forall x ensures x in r <==> x in joined {
        assert x in r <==> x in multiset(r);
      }
    }
    r
  }

  /** get_active_borrowed_books_by_user: the member's open loans, newest first. */
  function GetActiveBorrowedBooksByUser(books: seq<Book>, records: seq<BorrowRecord>, userId: nat): (r: seq<ActiveRow>)
    ensures SortedDesc(r, ActiveKey)
    ensures forall x :: x in r ==>
      exists rec, b :: rec in records && b in books && rec.userId == userId && rec.Active() && b.id == rec.bookId
                       && x == ActiveRowOf(b, rec)
    ensures Distinct(books, BookId) ==> forall rec, b ::
      rec in records && b in books && rec.userId == userId && rec.Active() && b.id == rec.bookId ==> ActiveRowOf(b, rec) in r
    ensures (forall rec :: rec in records ==> HasBook(books, rec.bookId)) ==> |r| == |Filter(records, OpenAndOwnedBy(userId))|
    ensures multiset(r) == multiset(Join(books, Filter(records, OpenAndOwnedBy(userId)), ActiveRowOf))
  {
    var joined := Join(books, Filter(records, OpenAndOwnedBy(userId)), ActiveRowOf);
    var r := SortDesc(joined, ActiveKey);
    assert forall x :: x in r <==> x in joined by {
      forall x ensures x in r <==> x in joined {
        assert x in r <==> x in multiset(r);
      }
    }
    r
  }
}

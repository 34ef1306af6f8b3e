/** The library database as one object: the users, books and borrowed_books tables and the
    AUTOINCREMENT counters behind their ids, with the operations that write them. Every
    operation keeps `Valid()`, which includes the lending invariant (a book is unavailable
    exactly when one open loan names it). */
module Database {
  import opened Optional
  import opened Tables
  import opened Queries

  /** The rows that the seeding loop inserts, ids counted on from `lastBookId`. */
  function SampleRows(lastBookId: nat, samples: seq<(string, string)>): (r: seq<Book>)
    ensures |r| == |samples|
  {
    seq(|samples|, k requires 0 <= k < |samples| => Book(lastBookId + 1 + k, samples[k].0, samples[k].1, true))
  }

  class Library {
    var users: seq<User>
    var books: seq<Book>
    var borrowed: seq<BorrowRecord>
    // sqlite_sequence: the largest id ever handed out in each table.
    var lastUserId: nat
    var lastBookId: nat
    var lastRecordId: nat

    ghost predicate Valid()
      reads this
    {
      Consistent(users, books, borrowed, lastUserId, lastBookId, lastRecordId)
    }

    /** init_db on a fresh database file: three empty tables. */
    constructor ()
      ensures Valid()
      ensures users == [] && books == [] && borrowed == []
      ensures lastUserId == 0 && lastBookId == 0 && lastRecordId == 0
    {
      users, books, borrowed := [], [], [];
      lastUserId, lastBookId, lastRecordId := 0, 0, 0;
    }

    /** create_user with an already-hashed password. The INSERT fails with an integrity error,
        and the result is None with nothing written, when the username is taken (UNIQUE) or
        the role is neither admin nor member (CHECK). */
    method CreateUser(username: string, password: Hash, role: string) returns (id: Option<nat>)
      requires Valid()
      modifies this
      ensures Valid()
      ensures id.None? <==> old(HasUsername(users, username)) || !AllowedRole(role)
      ensures id.None? ==> unchanged(this)
      ensures id.Some? ==> id.value == old(lastUserId) + 1 && lastUserId == id.value
      ensures id.Some? ==> users == old(users) + [User(id.value, username, password, role)]
      ensures books == old(books) && borrowed == old(borrowed)
      ensures lastBookId == old(lastBookId) && lastRecordId == old(lastRecordId)
    {
      if !AllowedRole(role) || GetUserByUsername(users, username).Some? {
        return None;
      }
      var newUsers := users + [User(lastUserId + 1, username, password, role)];
      AddUserKeeps(users, books, borrowed, lastUserId, lastBookId, lastRecordId, username, password, role);
      lastUserId, users := lastUserId + 1, newUsers;
      id := Some(lastUserId);
    }

    /** add_book: a new row with a fresh id, available. */
    method AddBook(title: string, author: string) returns (id: nat)
      requires Valid()
      modifies this
      ensures Valid()
      ensures id == old(lastBookId) + 1 && lastBookId == id
      ensures books == old(books) + [Book(id, title, author, true)]
      ensures users == old(users) && borrowed == old(borrowed)
      ensures lastUserId == old(lastUserId) && lastRecordId == old(lastRecordId)
    {
      var newBooks := books + [Book(lastBookId + 1, title, author, true)];
      AddBookKeeps(users, books, borrowed, lastUserId, lastBookId, lastRecordId, title, author);
      lastBookId, books := lastBookId + 1, newBooks;
      id := lastBookId;
    }

    /** update_book: title and author of the book with this id; nothing else changes, and an
        unknown id changes nothing. */
    method UpdateBook(bookId: nat, title: string, author: string)
      requires Valid()
      modifies this
      ensures Valid()
      ensures books == SetTitleAuthor(old(books), bookId, title, author)
      ensures users == old(users) && borrowed == old(borrowed)
      ensures lastUserId == old(lastUserId) && lastBookId == old(lastBookId) && lastRecordId == old(lastRecordId)
    {
      UpdateBookKeeps(users, books, borrowed, lastUserId, lastBookId, lastRecordId, bookId, title, author);
      books := SetTitleAuthor(books, bookId, title, author);
    }

    /** delete_book: first every loan of the book, then the book itself. */
    method DeleteBook(bookId: nat)
      requires Valid()
      modifies this
      ensures Valid()
      ensures borrowed == DropLoans(old(borrowed), bookId)
      ensures books == DropBook(old(books), bookId)
      ensures forall r :: r in borrowed <==> r in old(borrowed) && r.bookId != bookId
      ensures forall b :: b in GetAllBooks(books) <==> b in old(books) && b.id != bookId
      ensures GetBookById(books, bookId).None?
      ensures users == old(users)
      ensures lastUserId == old(lastUserId) && lastBookId == old(lastBookId) && lastRecordId == old(lastRecordId)
    {
      DeleteBookKeeps(users, books, borrowed, lastUserId, lastBookId, lastRecordId, bookId);
      borrowed := DropLoans(borrowed, bookId);
      books := DropBook(books, bookId);
    }

    /** borrow_book: fails, writing nothing, when the book is missing or unavailable; otherwise
        records an open loan stamped `now` and marks the book unavailable. */
    method BorrowBook(userId: nat, bookId: nat, now: nat) returns (ok: bool)
      requires Valid()
      modifies this
      ensures Valid()
      ensures ok <==> exists b :: b in old(books) && b.id == bookId && b.available
      ensures !ok ==> unchanged(this)
      ensures ok ==> lastRecordId == old(lastRecordId) + 1
      ensures ok ==> borrowed == old(borrowed) + [BorrowRecord(lastRecordId, userId, bookId, now, None)]
      ensures ok ==> books == SetAvailable(old(books), bookId, false)
      ensures ok ==> ActiveCount(borrowed, bookId) == 1
      ensures users == old(users) && lastUserId == old(lastUserId) && lastBookId == old(lastBookId)
      ensures old(StampsOrdered(borrowed)) ==> StampsOrdered(borrowed)
    {
      var book := GetBookById(books, bookId);
      FoundBookIsAvailableBook(books, bookId);
      if book.None? || !book.value.available {
        return false;
      }
      Lend(userId, book.value, now);
      ok := true;
    }

    /** The two writes of a successful borrow_book: the INSERT of the open loan and the
        UPDATE that clears the book's flag. */
    method Lend(userId: nat, book: Book, now: nat)
      requires Valid() && book in books && book.available
      modifies this
      ensures Valid()
      ensures lastRecordId == old(lastRecordId) + 1
      ensures borrowed == old(borrowed) + [BorrowRecord(lastRecordId, userId, book.id, now, None)]
      ensures books == SetAvailable(old(books), book.id, false)
      ensures ActiveCount(borrowed, book.id) == 1
      ensures users == old(users) && lastUserId == old(lastUserId) && lastBookId == old(lastBookId)
      ensures old(StampsOrdered(borrowed)) ==> StampsOrdered(borrowed)
    {
      var loan := BorrowRecord(lastRecordId + 1, userId, book.id, now, None);
      var newBooks, newBorrowed := SetAvailable(books, book.id, false), borrowed + [loan];
      BorrowKeeps(users, books, borrowed, lastUserId, lastBookId, lastRecordId, userId, book, now);
      assert StampsOrdered(borrowed) ==> StampsOrdered(newBorrowed) by {
        assert forall k :: 0 <= k < |borrowed| ==> newBorrowed[k] == borrowed[k];
      }
      lastRecordId, borrowed, books := lastRecordId + 1, newBorrowed, newBooks;
    }

    /** return_book: fails, writing nothing, unless this user has an open loan of this book
        (never borrowed, borrowed by someone else and already returned all fail alike);
        otherwise stamps that loan `now` and marks the book available. */
    method ReturnBook(userId: nat, bookId: nat, now: nat) returns (ok: bool)
      requires Valid()
      modifies this
      ensures Valid()
      ensures ok <==> exists r :: r in old(borrowed) && r.userId == userId && r.bookId == bookId && r.Active()
      ensures !ok ==> unchanged(this)
      ensures ok ==> (exists k :: 0 <= k < |old(borrowed)| && old(borrowed)[k].userId == userId
                        && old(borrowed)[k].bookId == bookId && old(borrowed)[k].Active()
                        && borrowed == old(borrowed)[k := old(borrowed)[k].(returnedAt := Some(now))])
      ensures ok ==> books == SetAvailable(old(books), bookId, true)
      ensures |borrowed| == |old(borrowed)|
      ensures forall k :: 0 <= k < |borrowed| && !old(borrowed)[k].Active() ==> borrowed[k] == old(borrowed)[k]
      ensures users == old(users)
      ensures lastUserId == old(lastUserId) && lastBookId == old(lastBookId) && lastRecordId == old(lastRecordId)
      ensures old(StampsOrdered(borrowed)) && (forall r :: r in old(borrowed) ==> r.borrowedAt <= now)
              ==> StampsOrdered(borrowed)
    {
      var loan := OpenLoan(borrowed, userId, bookId);
      if loan.None? {
        return false;
      }
      var k :| 0 <= k < |borrowed| && borrowed[k] == loan.value;
      var newBorrowed, newBooks := MarkReturned(borrowed, loan.value.id, now), SetAvailable(books, bookId, true);
      MarkReturnedAt(borrowed, k, now);
      ReturnKeeps(users, books, borrowed, lastUserId, lastBookId, lastRecordId, loan.value, now);
      borrowed, books := newBorrowed, newBooks;
      ok := true;
    }

    /** seed_data: when no user is called admin, inserts the admin account and then the
        sample books one by one; when one is, returns at once, so a second call changes
        nothing. */
    method SeedData(adminPassword: Hash, samples: seq<(string, string)>)
      requires Valid()
      modifies this
      ensures Valid()
      ensures HasUsername(users, ADMIN)
      ensures old(HasUsername(users, ADMIN)) ==> unchanged(this)
      ensures !old(HasUsername(users, ADMIN)) ==>
        && users == old(users) + [User(old(lastUserId) + 1, ADMIN, adminPassword, ADMIN)]
        && books == old(books) + SampleRows(old(lastBookId), samples)
        && lastUserId == old(lastUserId) + 1
        && lastBookId == old(lastBookId) + |samples|
      ensures borrowed == old(borrowed) && lastRecordId == old(lastRecordId)
    {
      if GetUserByUsername(users, ADMIN).Some? {
        return;
      }
      var admin := CreateUser(ADMIN, adminPassword, ADMIN);
      assert users[|users| - 1].username == ADMIN;
      ghost var seededUsers := users;
      var i := 0;
      while i < |samples|
        invariant 0 <= i <= |samples|
        invariant Valid()
        invariant users == seededUsers && HasUsername(users, ADMIN)
        invariant books == old(books) + SampleRows(old(lastBookId), samples[..i])
        invariant lastUserId == old(lastUserId) + 1
        invariant lastBookId == old(lastBookId) + i
        invariant borrowed == old(borrowed) && lastRecordId == old(lastRecordId)
      {
        var _ := AddBook(samples[i].0, samples[i].1);
        assert SampleRows(old(lastBookId), samples[..i + 1])
            == SampleRows(old(lastBookId), samples[..i]) + [Book(lastBookId, samples[i].0, samples[i].1, true)];
        i := i + 1;
      }
      assert samples[..i] == samples;
    }
  }

  /** The lending walk-through: one book, two members, a refused second borrow and a refused
      second return. */
  method LendingScenario() {
    var lib := new Library();
    var id := lib.AddBook("The Midnight Kite of Varanasi", "Arunika Senapati");
    assert GetBookById(lib.books, id) == Some(Book(id, "The Midnight Kite of Varanasi", "Arunika Senapati", true));
    var ok := lib.BorrowBook(7, id, 1);
    assert ok;
    assert lib.books == [Book(id, "The Midnight Kite of Varanasi", "Arunika Senapati", false)];
    ok := lib.BorrowBook(9, id, 2);
    assert !ok;
    ok := lib.ReturnBook(7, id, 3);
    assert ok;
    assert lib.books == [Book(id, "The Midnight Kite of Varanasi", "Arunika Senapati", true)];
    ok := lib.ReturnBook(7, id, 4);
    assert !ok;
    assert |lib.borrowed| == 1 && lib.borrowed[0].returnedAt == Some(3);
  }
}

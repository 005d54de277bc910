/** BookRepository: the catalog operations, each the effect of one SQL statement on `books`
    (and, for the delete, on `rentals` through ON DELETE CASCADE). */
module Books {
  import opened Models
  import opened Schema

  /** The row after an update whose null fields keep their old values. */
  function Patched(row: BookRow, title: Option<string>, author: Option<string>): (r: BookRow)
    ensures r.id == row.id && r.availability == row.availability
    ensures title == Some(r.title) || (title.None? && r.title == row.title)
    ensures author == Some(r.author) || (author.None? && r.author == row.author)
  {
    row.(title := title.GetOr(row.title), author := author.GetOr(row.author))
  }

  lemma NullPatchKeepsRow(row: BookRow)
    ensures Patched(row, None, None) == row
  {
  }

  class BookRepository {
    const db: Database

    constructor (db: Database)
      ensures this.db == db
    {
      this.db := db;
    }

    /** `SELECT * FROM books WHERE <where>`: a scan of the table in id order. */
    method Select(where: BookRow -> bool) returns (rows: seq<BookRow>)
      requires db.Valid()
      ensures forall b :: b in rows <==> StoredBook(db.books, b) && where(b)
      ensures forall i, j :: 0 <= i < j < |rows| ==> rows[i].id != rows[j].id
    {
      rows := [];
      for id := 1 to db.nextBookId
        invariant forall b :: b in rows ==> StoredBook(db.books, b) && where(b) && b.id < id
        invariant forall k :: 1 <= k < id && k in db.books && where(db.books[k]) ==> db.books[k] in rows
        invariant forall i, j :: 0 <= i < j < |rows| ==> rows[i].id < rows[j].id
      {
        if id in db.books && where(db.books[id]) {
          rows := rows + [db.books[id]];
        }
      }
    }

    /** `INSERT INTO books (title, author)`. A null field violates NOT NULL and throws; the
        default ABORT rolls the statement back, counter included. Otherwise SQLite draws the
        next AUTOINCREMENT id before it checks the UNIQUE index: a pair already present is then
        dropped by ON CONFLICT IGNORE (no row changed, false), but the statement completes and
        the id it drew stays used, leaving a gap. A new pair is added under that id with
        availability defaulting to true. The passed id and availability are not used. */
    method AddBook(book: Book) returns (r: Outcome<bool>)
      requires db.Valid()
      modifies db
      ensures db.Valid()
      ensures r.Error? <==> book.title.None? || book.author.None?
      ensures r == Success(true) <==>
        book.title.Some? && book.author.Some?
        && !Catalogued(old(db.books), book.title.value, book.author.value)
      ensures r == Success(true) ==>
        && db.books == old(db.books)[old(db.nextBookId) :=
             BookRow(old(db.nextBookId), book.title.value, book.author.value, true)]
        && db.nextBookId == old(db.nextBookId) + 1
      ensures r == Success(false) ==> db.books == old(db.books) && db.nextBookId == old(db.nextBookId) + 1
      ensures r.Error? ==> db.books == old(db.books) && db.nextBookId == old(db.nextBookId)
      ensures db.users == old(db.users) && db.rentals == old(db.rentals)
      ensures db.nextUserId == old(db.nextUserId)
      ensures old(db.LendingConsistent()) ==> db.LendingConsistent()
    {
      if book.title.None? || book.author.None? {
        return Error;
      }
      var title, author := book.title.value, book.author.value;
      var id := db.nextBookId;
      db.nextBookId := id + 1;
      if Catalogued(db.books, title, author) {
        return Success(false);
      }
      db.books := db.books[id := BookRow(id, title, author, true)];
      r := Success(true);
    }

    /** `DELETE FROM books WHERE id=?` with foreign keys on: the rentals of that book go too. */
    method DeleteBookById(id: int) returns (deleted: bool)
      requires db.Valid()
      modifies db
      ensures db.Valid()
      ensures deleted <==> id in old(db.books)
      ensures db.books == old(db.books) - {id}
      ensures db.rentals == set r | r in old(db.rentals) && r.1 != id
      ensures db.users == old(db.users)
      ensures db.nextBookId == old(db.nextBookId) && db.nextUserId == old(db.nextUserId)
      ensures old(db.LendingConsistent()) ==> db.LendingConsistent()
    {
      deleted := id in db.books;
      if deleted {
        db.books := db.books - {id};
        db.rentals := set r | r in db.rentals && r.1 != id;
      } else {
        assert db.rentals == set r | r in db.rentals && r.1 != id;
        assert db.books == db.books - {id};
      }
    }

    /** updateBookById. It fails when the book is missing, the patch is null, or the patch
        equals the stored book under Book.equals, which compares the patch's fields BEFORE its
        nulls are filled in. Otherwise the patch object itself has its null title and author
        overwritten with the stored ones, and `UPDATE books SET title=?, author=?` runs; a pair
        held by ANOTHER row makes UNIQUE ... ON CONFLICT IGNORE skip the row (false).
        Availability is never written. */
    method UpdateBookById(id: int, newBook: Book?) returns (updated: bool)
      requires db.Valid()
      modifies db, newBook
      ensures db.Valid()
      ensures id !in old(db.books) || newBook == null ==> !updated && db.books == old(db.books)
      ensures id !in old(db.books) && newBook != null ==>
        newBook.title == old(newBook.title) && newBook.author == old(newBook.author)
      ensures id in old(db.books) && newBook != null ==>
        var row := old(db.books[id]);
        var patched := Patched(row, old(newBook.title), old(newBook.author));
        var equal := old(newBook.title) == Some(row.title) && old(newBook.author) == Some(row.author);
        && (updated <==> !equal && !CataloguedElsewhere(old(db.books), id, patched.title, patched.author))
        && db.books == (if updated then old(db.books)[id := patched] else old(db.books))
        && newBook.title == (if equal then old(newBook.title) else Some(patched.title))
        && newBook.author == (if equal then old(newBook.author) else Some(patched.author))
      ensures newBook != null ==> newBook.id == old(newBook.id) && newBook.availability == old(newBook.availability)
      ensures db.users == old(db.users) && db.rentals == old(db.rentals)
      ensures db.nextBookId == old(db.nextBookId) && db.nextUserId == old(db.nextUserId)
      ensures old(db.LendingConsistent()) ==> db.LendingConsistent()
    {
      var found := FindBookById(id);
      if found.None? || newBook == null {
        return false;
      }
      var row := found.value;
      var oldBook := new Book.Full(row.id, Some(row.title), Some(row.author), row.availability);
      if oldBook.Equals(newBook) {
        return false;
      }
      if newBook.title.None? {
        newBook.SetTitle(Some(row.title));
      }
      if newBook.author.None? {
        newBook.SetAuthor(Some(row.author));
      }
      var title, author := newBook.title.value, newBook.author.value;
      if CataloguedElsewhere(db.books, id, title, author) {
        return false;
      }
      db.books := db.books[id := row.(title := title, author := author)];
      updated := true;
    }

    /** `UPDATE books SET availability=? WHERE id=?`: true iff the row exists. */
    method UpdateBookAvailability(id: int, availability: bool) returns (updated: bool)
      requires db.Valid()
      modifies db
      ensures db.Valid()
      ensures updated <==> id in old(db.books)
      ensures db.books == if updated then old(db.books)[id := old(db.books[id]).(availability := availability)]
                          else old(db.books)
      ensures db.users == old(db.users) && db.rentals == old(db.rentals)
      ensures db.nextBookId == old(db.nextBookId) && db.nextUserId == old(db.nextUserId)
    {
      updated := id in db.books;
      if updated {
        db.books := db.books[id := db.books[id].(availability := availability)];
      }
    }

    /** `SELECT * FROM books`. */
    method GetAllBooks() returns (rows: seq<BookRow>)
      requires db.Valid()
      ensures forall b :: b in rows <==> StoredBook(db.books, b)
      ensures forall i, j :: 0 <= i < j < |rows| ==> rows[i].id != rows[j].id
    {
      rows := Select((b: BookRow) => true);
    }

    /** `SELECT * FROM books WHERE title=?`: the rows whose title is exactly `title`. */
    method FindBooksByTitle(title: string) returns (rows: seq<BookRow>)
      requires db.Valid()
      ensures forall b :: b in rows <==> StoredBook(db.books, b) && b.title == title
      ensures forall i, j :: 0 <= i < j < |rows| ==> rows[i].id != rows[j].id
    {
      rows := Select((b: BookRow) => b.title == title);
    }

    /** `SELECT * FROM books WHERE author=?`: the rows whose author is exactly `author`. */
    method FindBooksByAuthor(author: string) returns (rows: seq<BookRow>)
      requires db.Valid()
      ensures forall b :: b in rows <==> StoredBook(db.books, b) && b.author == author
      ensures forall i, j :: 0 <= i < j < |rows| ==> rows[i].id != rows[j].id
    {
      rows := Select((b: BookRow) => b.author == author);
    }

    /** `SELECT * FROM books WHERE id=?`, keeping the last row read (there is at most one). */
    method FindBookById(id: int) returns (r: Option<BookRow>)
      requires db.Valid()
      ensures r.Some? <==> id in db.books
      ensures r.Some? ==> r.value == db.books[id] && r.value.id == id
    {
      var rows := Select((b: BookRow) => b.id == id);
      assert id in db.books ==> StoredBook(db.books, db.books[id]);
      if |rows| == 0 {
        r := None;
      } else {
        assert rows[|rows| - 1] in rows;
        r := Some(rows[|rows| - 1]);
      }
    }

    /** isAvailable: the book exists and its availability flag is set. */
    method IsAvailable(id: int) returns (available: bool)
      requires db.Valid()
      ensures available <==> id in db.books && db.books[id].availability
    {
      var found := FindBookById(id);
      available := found.Some? && found.value.availability;
    }
  }
}

/** BookAPI: the `/api/books` endpoints. The read endpoints delegate to the repository with no
    authentication; add, delete and update first authenticate the caller and require an admin. */
module BookEndpoints {
  import opened Models
  import opened Schema
  import opened Books
  import opened Users
  import opened Security
  import opened Http

  class BookApi {
    const db: Database
    const bookRepository: BookRepository
    const userRepository: UserRepository
    const crypto: Crypto

    /** Both repositories work on this controller's store. */
    predicate Wired()
    {
      bookRepository.db == db && userRepository.db == db
    }

    constructor (bookRepository: BookRepository, userRepository: UserRepository, crypto: Crypto)
      requires bookRepository.db == userRepository.db
      ensures Wired() && db == bookRepository.db && this.crypto == crypto
      ensures this.bookRepository == bookRepository && this.userRepository == userRepository
    {
      this.db := bookRepository.db;
      this.bookRepository := bookRepository;
      this.userRepository := userRepository;
      this.crypto := crypto;
    }

    /** GET /api/books: every stored book. */
    method GetAllBooks() returns (books: seq<BookRow>)
      requires Wired() && db.Valid()
      ensures forall b :: b in books <==> StoredBook(db.books, b)
    {
      books := bookRepository.GetAllBooks();
    }

    /** GET /api/books/title/{title}. */
    method GetBooksByTitle(title: string) returns (books: seq<BookRow>)
      requires Wired() && db.Valid()
      ensures forall b :: b in books <==> StoredBook(db.books, b) && b.title == title
    {
      books := bookRepository.FindBooksByTitle(title);
    }

    /** GET /api/books/author/{author}. */
    method GetBooksByAuthor(author: string) returns (books: seq<BookRow>)
      requires Wired() && db.Valid()
      ensures forall b :: b in books <==> StoredBook(db.books, b) && b.author == author
    {
      books := bookRepository.FindBooksByAuthor(author);
    }

    /** GET /api/books/id/{id} (an overload of getBooksByAuthor in the controller): the stored
        book, or NOT_FOUND from `orElseThrow`. */
    method GetBookById(id: int) returns (status: Status, book: Option<BookRow>)
      requires Wired() && db.Valid()
      ensures status == Ok <==> id in db.books
      ensures status == Ok ==> book == Some(db.books[id])
      ensures status != Ok ==> status == NotFound && book == None
    {
      book := bookRepository.FindBookById(id);
      status := if book.Some? then Ok else NotFound;
    }

    /** POST /api/books/add. 401 for unknown credentials and 403 for a non-admin, with the store
        untouched; for an admin, 201 when addBook inserted the book and 409 when the pair was
        already catalogued (the id drawn for it stays used). A header that fails to decode, and
        a book with a null field, throw (500). */
    method AddBook(book: Book, header: Option<string>) returns (status: Status)
      requires Wired() && db.Valid()
      modifies db
      ensures db.Valid()
      ensures DecodeAuthHeader(crypto, header).Error? ==> status == InternalServerError && db.Tables() == old(db.Tables())
      ensures DecodeAuthHeader(crypto, header).Success? && !Authenticated(old(db.users), crypto, header) ==>
        status == Unauthorized && db.Tables() == old(db.Tables())
      ensures Authenticated(old(db.users), crypto, header) && !AuthenticatedAdmin(old(db.users), crypto, header) ==>
        status == Forbidden && db.Tables() == old(db.Tables())
      ensures AuthenticatedAdmin(old(db.users), crypto, header) && (book.title.None? || book.author.None?) ==>
        status == InternalServerError && db.Tables() == old(db.Tables())
      ensures AuthenticatedAdmin(old(db.users), crypto, header) && book.title.Some? && book.author.Some? ==>
        if Catalogued(old(db.books), book.title.value, book.author.value) then
          status == Conflict && db.books == old(db.books) && db.nextBookId == old(db.nextBookId) + 1
        else
          && status == Created
          && db.books == old(db.books)[old(db.nextBookId) :=
               BookRow(old(db.nextBookId), book.title.value, book.author.value, true)]
          && db.nextBookId == old(db.nextBookId) + 1
      ensures db.users == old(db.users) && db.rentals == old(db.rentals) && db.nextUserId == old(db.nextUserId)
    {
      var auth := Authenticate(userRepository, crypto, header);
      if auth.Undecodable? {
        return InternalServerError;
      }
      if auth.Rejected? {
        return Unauthorized;
      }
      if !auth.user.admin {
        return Forbidden;
      }
      var added := bookRepository.AddBook(book);
      if added.Error? {
        status := InternalServerError;
      } else if added.value {
        status := Created;
      } else {
        status := Conflict;
      }
    }

    /** POST /api/books/delete/{id}. The same gate; for an admin, 200 when a book was deleted
        (its rentals going with it) and 404 when there was none. */
    method DeleteBook(id: int, header: Option<string>) returns (status: Status)
      requires Wired() && db.Valid()
      modifies db
      ensures db.Valid()
      ensures DecodeAuthHeader(crypto, header).Error? ==> status == InternalServerError && db.Tables() == old(db.Tables())
      ensures DecodeAuthHeader(crypto, header).Success? && !Authenticated(old(db.users), crypto, header) ==>
        status == Unauthorized && db.Tables() == old(db.Tables())
      ensures Authenticated(old(db.users), crypto, header) && !AuthenticatedAdmin(old(db.users), crypto, header) ==>
        status == Forbidden && db.Tables() == old(db.Tables())
      ensures AuthenticatedAdmin(old(db.users), crypto, header) ==>
        && status == (if id in old(db.books) then Ok else NotFound)
        && db.books == old(db.books) - {id}
        && db.rentals == set r | r in old(db.rentals) && r.1 != id
      ensures db.users == old(db.users)
      ensures db.nextBookId == old(db.nextBookId) && db.nextUserId == old(db.nextUserId)
    {
      var auth := Authenticate(userRepository, crypto, header);
      if auth.Undecodable? {
        return InternalServerError;
      }
      if auth.Rejected? {
        return Unauthorized;
      }
      if !auth.user.admin {
        return Forbidden;
      }
      var deleted := bookRepository.DeleteBookById(id);
      status := if deleted then Ok else NotFound;
    }

    /** POST /api/books/update/{id}. The same gate; for an admin, 200 when updateBookById
        succeeded, otherwise 404 when the book is missing and 304 when it is there. */
    method UpdateBookById(id: int, newBook: Book?, header: Option<string>) returns (status: Status)
      requires Wired() && db.Valid()
      modifies db, newBook
      ensures db.Valid()
      ensures DecodeAuthHeader(crypto, header).Error? ==>
        status == InternalServerError && db.Tables() == old(db.Tables()) && (newBook != null ==> unchanged(newBook))
      ensures DecodeAuthHeader(crypto, header).Success? && !Authenticated(old(db.users), crypto, header) ==>
        status == Unauthorized && db.Tables() == old(db.Tables()) && (newBook != null ==> unchanged(newBook))
      ensures Authenticated(old(db.users), crypto, header) && !AuthenticatedAdmin(old(db.users), crypto, header) ==>
        status == Forbidden && db.Tables() == old(db.Tables()) && (newBook != null ==> unchanged(newBook))
      ensures AuthenticatedAdmin(old(db.users), crypto, header) ==>
        if id !in old(db.books) then
          && status == NotFound && db.books == old(db.books)
          && (newBook != null ==> newBook.title == old(newBook.title) && newBook.author == old(newBook.author))
        else if newBook == null then
          status == NotModified && db.books == old(db.books)
        else
          var row := old(db.books[id]);
          var patched := Patched(row, old(newBook.title), old(newBook.author));
          var equal := old(newBook.title) == Some(row.title) && old(newBook.author) == Some(row.author);
          var updated := !equal && !CataloguedElsewhere(old(db.books), id, patched.title, patched.author);
          && status == (if updated then Ok else NotModified)
          && db.books == (if updated then old(db.books)[id := patched] else old(db.books))
      ensures db.users == old(db.users) && db.rentals == old(db.rentals)
      ensures db.nextBookId == old(db.nextBookId) && db.nextUserId == old(db.nextUserId)
    {
      var auth := Authenticate(userRepository, crypto, header);
      if auth.Undecodable? {
        return InternalServerError;
      }
      if auth.Rejected? {
        return Unauthorized;
      }
      if !auth.user.admin {
        return Forbidden;
      }
      var updated := bookRepository.UpdateBookById(id, newBook);
      if updated {
        return Ok;
      }
      var found := bookRepository.FindBookById(id);
      status := if found.None? then NotFound else NotModified;
    }
  }
}

/** Concrete runs of the store: the startup seeding of `main`, and the inputs that show where
    the lending operations as written differ from what they are meant to do. */
module Scenarios {
  import opened Models
  import opened Schema
  import opened Books
  import opened Users
  import opened Rentals

  /** A fresh store with its three repositories wired to it. */
  method FreshStore() returns (db: Database, users: UserRepository, books: BookRepository, rentals: RentalRepository)
    ensures fresh(db) && db.Valid() && db.LendingConsistent()
    ensures db.books == map[] && db.users == map[] && db.rentals == {}
    ensures db.nextBookId == 1 && db.nextUserId == 1
    ensures users.db == db && books.db == db && rentals.Wired() && rentals.db == db
    ensures rentals.userRepository == users && rentals.bookRepository == books
  {
    db := new Database();
    users := new UserRepository(db);
    books := new BookRepository(db);
    rentals := new RentalRepository(users, books);
  }

  /** The seeding in `main`: two users, two books, and book 1 rented to user 1. The rental is
      recorded, yet book 1 is still flagged available afterwards. */
  method StartupSeeding() returns (rented: Outcome<bool>, db: Database)
    ensures rented == Success(true)
    ensures db.users == map[1 := User(1, "admin", "admin", true), 2 := User(2, "user", "user", false)]
    ensures db.books == map[1 := BookRow(1, "The Lord of the Rings", "J.R.R. Tolkien", true),
                            2 := BookRow(2, "The Hobbit", "J.R.R. Tolkien", true)]
    ensures db.rentals == {(1, 1)}
    ensures !db.LendingConsistent()
  {
    var users, books, rentals;
    db, users, books, rentals := FreshStore();
    var r1 := users.RegisterUser(User(0, "admin", "admin", true));
    var r2 := users.RegisterUser(User(0, "user", "user", false));
    var lotr := new Book(Some("The Lord of the Rings"), Some("J.R.R. Tolkien"));
    var hobbit := new Book(Some("The Hobbit"), Some("J.R.R. Tolkien"));
    var a1 := books.AddBook(lotr);
    var a2 := books.AddBook(hobbit);
    rented := rentals.RentBook(Rental(1, 1));
    assert (1, 1) in db.rentals && db.books[1].availability;
  }

  /** Two users both rent book 1 and both succeed: rentBook as written never marks the book
      unavailable, so its guard lets the second rental through. */
  method DoubleRental() returns (first: Outcome<bool>, second: Outcome<bool>, db: Database)
    ensures first == Success(true) && second == Success(true)
    ensures db.rentals == {(1, 1), (2, 1)}
    ensures !db.LendingConsistent()
  {
    var users, books, rentals;
    db, users, books, rentals := FreshStore();
    var r1 := users.RegisterUser(User(0, "ann", "h1", false));
    var r2 := users.RegisterUser(User(0, "bob", "h2", false));
    var book := new Book(Some("Dune"), Some("Frank Herbert"));
    var added := books.AddBook(book);
    first := rentals.RentBook(Rental(1, 1));
    second := rentals.RentBook(Rental(1, 2));
    assert (1, 1) in db.rentals && (2, 1) in db.rentals;
  }

  /** The same two requests against the corrected rentBook: the second is refused and the
      store stays consistent. */
  method DoubleRentalCorrected() returns (first: Outcome<bool>, second: Outcome<bool>, db: Database)
    ensures first == Success(true) && second == Success(false)
    ensures db.rentals == {(1, 1)} && 1 in db.books && !db.books[1].availability
    ensures db.LendingConsistent()
  {
    var users, books, rentals;
    db, users, books, rentals := FreshStore();
    var r1 := users.RegisterUser(User(0, "ann", "h1", false));
    var r2 := users.RegisterUser(User(0, "bob", "h2", false));
    var book := new Book(Some("Dune"), Some("Frank Herbert"));
    var added := books.AddBook(book);
    first := rentals.RentBookCorrected(Rental(1, 1));
    second := rentals.RentBookCorrected(Rental(1, 2));
  }

  /** existsRental as written reports a rental in an empty store; the corrected one does not. */
  method PhantomRental() returns (asWritten: bool, corrected: bool)
    ensures asWritten && !corrected
  {
    var db, users, books, rentals := FreshStore();
    asWritten := rentals.ExistsRental(Rental(7, 3));
    corrected := rentals.ExistsRentalCorrected(Rental(7, 3));
  }

  /** User 1 rents book 2. getAllRentals as written lists it as book 1 rented by user 2; the
      corrected listing gives the rental that was made. */
  method SwappedListing() returns (asWritten: seq<Rental>, corrected: seq<Rental>)
    ensures Rental(1, 2) in asWritten && Rental(2, 1) !in asWritten
    ensures Rental(2, 1) in corrected && Rental(1, 2) !in corrected
  {
    var db, users, books, rentals := FreshStore();
    var r1 := users.RegisterUser(User(0, "ann", "h1", false));
    var first := new Book(Some("Dune"), Some("Frank Herbert"));
    var second := new Book(Some("Emma"), Some("Jane Austen"));
    var a1 := books.AddBook(first);
    var a2 := books.AddBook(second);
    var rented := rentals.RentBook(Rental(2, 1));
    assert db.rentals == {(1, 2)};
    asWritten := rentals.GetAllRentals();
    corrected := rentals.GetAllRentalsCorrected();
  }

  /** The same book added twice, then another: the refused duplicate still used up id 2, so
      the next book is stored under id 3. */
  method DuplicateLeavesGap() returns (first: Outcome<bool>, again: Outcome<bool>, other: Outcome<bool>, db: Database)
    ensures first == Success(true)
    ensures again == Success(false)
    ensures other == Success(true)
    ensures db.books == map[1 := BookRow(1, "Dune", "Frank Herbert", true),
                            3 := BookRow(3, "Emma", "Jane Austen", true)]
  {
    var users, books, rentals;
    db, users, books, rentals := FreshStore();
    var dune := new Book(Some("Dune"), Some("Frank Herbert"));
    var emma := new Book(Some("Emma"), Some("Jane Austen"));
    first := books.AddBook(dune);
    assert Catalogued(db.books, "Dune", "Frank Herbert") by { assert 1 in db.books; }
    again := books.AddBook(dune);
    assert again.Success? && !again.value;
    other := books.AddBook(emma);
  }

  /** A patch with a null title and the current author: Book.equals sees a difference (null
      against the stored title), so updateBookById reports success, yet once the null is filled
      in the row is written back as it was. */
  method HalfNullPatch() returns (updated: bool, db: Database)
    ensures updated
    ensures db.books == map[1 := BookRow(1, "Dune", "Frank Herbert", true)]
  {
    var users, books, rentals;
    db, users, books, rentals := FreshStore();
    var book := new Book(Some("Dune"), Some("Frank Herbert"));
    var added := books.AddBook(book);
    var patch := new Book(None, Some("Frank Herbert"));
    updated := books.UpdateBookById(1, patch);
    assert db.books[1 := db.books[1]] == db.books;
  }
}

/** RentalRepository: lending and returning books. The as-written operations are followed by
    corrected variants that keep the books' availability in step with the rentals. */
module Rentals {
  import opened Models
  import opened Schema
  import opened Books
  import opened Users

  /** The guard of rentBook: the user exists and the book is available (present and flagged). */
  ghost predicate MayRent(users: map<int, User>, books: map<int, BookRow>, rental: Rental)
  {
    rental.userId in users && rental.bookId in books && books[rental.bookId].availability
  }

  /** The rentals primary key of a rental object: (user_id, book_id). */
  function Key(rental: Rental): (int, int)
  {
    (rental.userId, rental.bookId)
  }

  class RentalRepository {
    const db: Database
    const userRepository: UserRepository
    const bookRepository: BookRepository

    /** All three repositories work on the same store. */
    predicate Wired()
    {
      userRepository.db == db && bookRepository.db == db
    }

    constructor (userRepository: UserRepository, bookRepository: BookRepository)
      requires userRepository.db == bookRepository.db
      ensures Wired() && db == bookRepository.db
      ensures this.userRepository == userRepository && this.bookRepository == bookRepository
    {
      this.db := bookRepository.db;
      this.userRepository := userRepository;
      this.bookRepository := bookRepository;
    }

    /** rentBook as written. The guard failing gives false; a pair already in `rentals` breaks
        its primary key and throws; otherwise the pair is inserted and `updateBookById` is called
        with a patch whose title and author are null, which rewrites the row's own title and
        author: the books table, availability included, is left as it was. */
    method RentBook(rental: Rental) returns (r: Outcome<bool>)
      requires Wired() && db.Valid()
      modifies db
      ensures db.Valid()
      ensures !MayRent(old(db.users), old(db.books), rental) ==>
        r == Success(false) && db.rentals == old(db.rentals)
      ensures MayRent(old(db.users), old(db.books), rental) && Key(rental) in old(db.rentals) ==>
        r == Error && db.rentals == old(db.rentals)
      ensures MayRent(old(db.users), old(db.books), rental) && Key(rental) !in old(db.rentals) ==>
        r == Success(true) && db.rentals == old(db.rentals) + {Key(rental)}
      ensures db.books == old(db.books) && db.users == old(db.users)
      ensures db.nextBookId == old(db.nextBookId) && db.nextUserId == old(db.nextUserId)
    {
      var user := userRepository.FindUserById(rental.userId);
      var available := bookRepository.IsAvailable(rental.bookId);
      if user.None? || !available {
        return Success(false);
      }
      if Key(rental) in db.rentals {
        // INSERT INTO rentals violates PRIMARY KEY (user_id, book_id): SQLException
        return Error;
      }
      db.rentals := db.rentals + {Key(rental)};
      ghost var books := db.books;
      var patch := new Book.Full(rental.bookId, None, None, false);
      var updated := bookRepository.UpdateBookById(rental.bookId, patch);
      assert books[rental.bookId := books[rental.bookId]] == books;
      r := Success(true);
    }

    /** returnBook as written. `existsRental` lets every pair through; the DELETE then decides:
        true iff the pair was rented. The follow-up `updateBookById` with a null title and
        author leaves the books table as it was. */
    method ReturnBook(rental: Rental) returns (returned: bool)
      requires Wired() && db.Valid()
      modifies db
      ensures db.Valid()
      ensures returned <==> Key(rental) in old(db.rentals)
      ensures db.rentals == old(db.rentals) - {Key(rental)}
      ensures db.books == old(db.books) && db.users == old(db.users)
      ensures db.nextBookId == old(db.nextBookId) && db.nextUserId == old(db.nextUserId)
    {
      var found := ExistsRental(rental);
      if !found {
        return false;
      }
      if Key(rental) !in db.rentals {
        // DELETE FROM rentals WHERE user_id=? AND book_id=? removed no row
        return false;
      }
      db.rentals := db.rentals - {Key(rental)};
      ghost var books := db.books;
      var patch := new Book.Full(rental.bookId, None, None, true);
      var updated := bookRepository.UpdateBookById(rental.bookId, patch);
      assert rental.bookId in books ==> books[rental.bookId := books[rental.bookId]] == books;
      returned := true;
    }

    /** existsRental as written: it returns `execute()`, which reports that the SELECT produced
        a result set, so the answer is true for every pair. */
    method ExistsRental(rental: Rental) returns (found: bool)
      ensures found
    {
      found := true;
    }

    /** getAllRentals as written: one entry per stored rental, but built as
        `new Rental(user_id, book_id)`, whose first parameter is the BOOK id, so each entry
        carries the user id as its bookId and the book id as its userId. */
    method GetAllRentals() returns (listed: seq<Rental>)
      ensures forall e :: e in listed <==> (e.bookId, e.userId) in db.rentals
      ensures |listed| == |db.rentals|
    {
      listed := [];
      var unread := db.rentals;
      while unread != {}
        invariant unread <= db.rentals
        invariant forall e :: e in listed <==> (e.bookId, e.userId) in db.rentals - unread
        invariant |listed| + |unread| == |db.rentals|
        decreases |unread|
      {
        var row :| row in unread;
        listed := listed + [Rental(row.0, row.1)];
        unread := unread - {row};
      }
    }

    /** rentBook that also marks the book unavailable once rented: the same guard and insert,
        then `updateBookAvailability(bookId, false)`. From a consistent store it never throws
        and keeps availability in step with the rentals. */
    method RentBookCorrected(rental: Rental) returns (r: Outcome<bool>)
      requires Wired() && db.Valid()
      modifies db
      ensures db.Valid()
      ensures !MayRent(old(db.users), old(db.books), rental) ==>
        r == Success(false) && db.rentals == old(db.rentals) && db.books == old(db.books)
      ensures MayRent(old(db.users), old(db.books), rental) && Key(rental) in old(db.rentals) ==>
        r == Error && db.rentals == old(db.rentals) && db.books == old(db.books)
      ensures MayRent(old(db.users), old(db.books), rental) && Key(rental) !in old(db.rentals) ==>
        && r == Success(true)
        && db.rentals == old(db.rentals) + {Key(rental)}
        && db.books == old(db.books)[rental.bookId := old(db.books[rental.bookId]).(availability := false)]
      ensures db.users == old(db.users)
      ensures db.nextBookId == old(db.nextBookId) && db.nextUserId == old(db.nextUserId)
      ensures old(db.LendingConsistent()) ==> db.LendingConsistent() && r != Error
    {
      var user := userRepository.FindUserById(rental.userId);
      var available := bookRepository.IsAvailable(rental.bookId);
      if user.None? || !available {
        return Success(false);
      }
      if Key(rental) in db.rentals {
        return Error;
      }
      ghost var before := db.rentals;
      db.rentals := db.rentals + {Key(rental)};
      var updated := bookRepository.UpdateBookAvailability(rental.bookId, false);
      if old(db.LendingConsistent()) {
        // an available book is referenced by no rental, so the new one is its only holder
        assert forall u :: (u, rental.bookId) !in before;
        forall p, q | p in db.rentals && q in db.rentals && p.1 == q.1
          ensures p == q
        {
        }
      }
      r := Success(true);
    }

    /** returnBook with a real existence check and the availability flip back to true. */
    method ReturnBookCorrected(rental: Rental) returns (returned: bool)
      requires Wired() && db.Valid()
      modifies db
      ensures db.Valid()
      ensures returned <==> Key(rental) in old(db.rentals)
      ensures db.rentals == old(db.rentals) - {Key(rental)}
      ensures db.books == if returned
        then old(db.books)[rental.bookId := old(db.books[rental.bookId]).(availability := true)]
        else old(db.books)
      ensures db.users == old(db.users)
      ensures db.nextBookId == old(db.nextBookId) && db.nextUserId == old(db.nextUserId)
      ensures old(db.LendingConsistent()) ==> db.LendingConsistent()
    {
      var found := ExistsRentalCorrected(rental);
      if !found {
        return false;
      }
      db.rentals := db.rentals - {Key(rental)};
      var updated := bookRepository.UpdateBookAvailability(rental.bookId, true);
      returned := true;
    }

    /** existsRental as intended: whether the SELECT finds a row. */
    method ExistsRentalCorrected(rental: Rental) returns (found: bool)
      ensures found <==> Key(rental) in db.rentals
    {
      found := Key(rental) in db.rentals;
    }

    /** getAllRentals as intended: entries built with the book id as bookId. */
    method GetAllRentalsCorrected() returns (listed: seq<Rental>)
      ensures forall e :: e in listed <==> Key(e) in db.rentals
      ensures |listed| == |db.rentals|
    {
      listed := [];
      var unread := db.rentals;
      while unread != {}
        invariant unread <= db.rentals
        invariant forall e :: e in listed <==> Key(e) in db.rentals - unread
        invariant |listed| + |unread| == |db.rentals|
        decreases |unread|
      {
        var row :| row in unread;
        listed := listed + [Rental(row.1, row.0)];
        unread := unread - {row};
      }
    }
  }
}

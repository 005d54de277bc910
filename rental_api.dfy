/** RentalAPI: the `/api/rentals` endpoints. Listing needs no authentication; renting and
    returning need an authenticated caller but no admin flag, and act for that caller only. */
module RentalEndpoints {
  import opened Models
  import opened Schema
  import opened Users
  import opened Rentals
  import opened Security
  import opened Http

  class RentalApi {
    const db: Database
    const rentalRepository: RentalRepository
    const userRepository: UserRepository
    const crypto: Crypto

    /** Every repository works on this controller's store. */
    predicate Wired()
    {
      rentalRepository.Wired() && rentalRepository.db == db && userRepository.db == db
    }

    constructor (rentalRepository: RentalRepository, userRepository: UserRepository, crypto: Crypto)
      requires rentalRepository.Wired() && rentalRepository.db == userRepository.db
      ensures Wired() && db == rentalRepository.db && this.crypto == crypto
      ensures this.rentalRepository == rentalRepository && this.userRepository == userRepository
    {
      this.db := rentalRepository.db;
      this.rentalRepository := rentalRepository;
      this.userRepository := userRepository;
      this.crypto := crypto;
    }

    /** GET /api/rentals: the listing of getAllRentals, ids swapped as it builds them. */
    method GetAllRentals() returns (rentals: seq<Rental>)
      requires Wired()
      ensures forall e :: e in rentals <==> (e.bookId, e.userId) in db.rentals
      ensures |rentals| == |db.rentals|
    {
      rentals := rentalRepository.GetAllRentals();
    }

    /** POST /api/rentals/rent/{id}: 401 for unknown credentials with the store untouched;
        otherwise book `id` is rented to the caller: 201 when rentBook returned true, 409 when
        it returned false, 500 when it threw. */
    method RentBook(id: int, header: Option<string>) returns (status: Status)
      requires Wired() && db.Valid()
      modifies db
      ensures db.Valid()
      ensures DecodeAuthHeader(crypto, header).Error? ==>
        status == InternalServerError && db.Tables() == old(db.Tables())
      ensures DecodeAuthHeader(crypto, header).Success? && !Authenticated(old(db.users), crypto, header) ==>
        status == Unauthorized && db.Tables() == old(db.Tables())
      ensures Authenticated(old(db.users), crypto, header) ==>
        var rental := Rental(id, CallerId(old(db.users), crypto, header));
        if !MayRent(old(db.users), old(db.books), rental) then
          status == Conflict && db.rentals == old(db.rentals)
        else if Key(rental) in old(db.rentals) then
          status == InternalServerError && db.rentals == old(db.rentals)
        else
          status == Created && db.rentals == old(db.rentals) + {Key(rental)}
      ensures db.books == old(db.books) && db.users == old(db.users)
      ensures db.nextBookId == old(db.nextBookId) && db.nextUserId == old(db.nextUserId)
    {
      var auth := Authenticate(userRepository, crypto, header);
      if auth.Undecodable? {
        return InternalServerError;
      }
      if auth.Rejected? {
        return Unauthorized;
      }
      var rental := Rental(id, auth.user.id);
      var rented := rentalRepository.RentBook(rental);
      if rented.Error? {
        status := InternalServerError;
      } else if rented.value {
        status := Created;
      } else {
        status := Conflict;
      }
    }

    /** POST /api/rentals/return/{id}: 401 for unknown credentials with the store untouched;
        otherwise the caller's rental of book `id` is returned: 200 when returnBook returned
        true, 404 when it returned false. */
    method ReturnBook(id: int, header: Option<string>) returns (status: Status)
      requires Wired() && db.Valid()
      modifies db
      ensures db.Valid()
      ensures DecodeAuthHeader(crypto, header).Error? ==>
        status == InternalServerError && db.Tables() == old(db.Tables())
      ensures DecodeAuthHeader(crypto, header).Success? && !Authenticated(old(db.users), crypto, header) ==>
        status == Unauthorized && db.Tables() == old(db.Tables())
      ensures Authenticated(old(db.users), crypto, header) ==>
        var rental := Rental(id, CallerId(old(db.users), crypto, header));
        && status == (if Key(rental) in old(db.rentals) then Ok else NotFound)
        && db.rentals == old(db.rentals) - {Key(rental)}
      ensures db.books == old(db.books) && db.users == old(db.users)
      ensures db.nextBookId == old(db.nextBookId) && db.nextUserId == old(db.nextUserId)
    {
      var auth := Authenticate(userRepository, crypto, header);
      if auth.Undecodable? {
        return InternalServerError;
      }
      if auth.Rejected? {
        return Unauthorized;
      }
      var rental := Rental(id, auth.user.id);
      var returned := rentalRepository.ReturnBook(rental);
      status := if returned then Ok else NotFound;
    }
  }
}

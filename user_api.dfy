/** UserAPI: the `/api/users` endpoints. Neither needs authentication. */
module UserEndpoints {
  import opened Models
  import opened Schema
  import opened Users
  import opened Security
  import opened Http

  class UserApi {
    const db: Database
    const userRepository: UserRepository
    const crypto: Crypto

    predicate Wired()
    {
      userRepository.db == db
    }

    constructor (userRepository: UserRepository, crypto: Crypto)
      ensures Wired() && db == userRepository.db && this.crypto == crypto
      ensures this.userRepository == userRepository
    {
      this.db := userRepository.db;
      this.userRepository := userRepository;
      this.crypto := crypto;
    }

    /** GET /api/users: every stored user. */
    method GetAllUsers() returns (users: seq<User>)
      requires Wired() && db.Valid()
      ensures forall u :: u in users <==> StoredUser(db.users, u)
    {
      users := userRepository.GetAllUsers();
    }

    /** POST /api/users/register: the password is hashed first and only the hash is stored,
        with the requested name and admin flag; 201 when registerUser returned true, 409 when
        the name was taken. */
    method RegisterUser(registerInfo: RegisterInfo) returns (status: Status)
      requires Wired() && db.Valid()
      modifies db
      ensures db.Valid()
      ensures status == Created <==> !UsernameTaken(old(db.users), registerInfo.username)
      ensures status != Created ==> status == Conflict && db.Tables() == old(db.Tables())
      ensures status == Created ==>
        && db.users == old(db.users)[old(db.nextUserId) :=
             User(old(db.nextUserId), registerInfo.username,
                  HexEncode(crypto.sha256(registerInfo.password)), registerInfo.admin)]
        && db.nextUserId == old(db.nextUserId) + 1
      ensures db.books == old(db.books) && db.rentals == old(db.rentals)
      ensures db.nextBookId == old(db.nextBookId)
    {
      var hashedPassword := HashString(crypto.sha256, registerInfo.password);
      // `new User(username, hash, admin)`: the id keeps its default, the store assigns its own
      var user := User(0, registerInfo.username, hashedPassword, registerInfo.admin);
      var registered := userRepository.RegisterUser(user);
      status := if registered then Created else Conflict;
    }
  }
}

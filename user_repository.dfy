/** UserRepository: registration and the lookups of the `users` table. */
module Users {
  import opened Models
  import opened Schema

  /** The user's stored name and password hash equal the given ones. */
  predicate HasCredentials(u: User, username: string, passwordHash: string)
  {
    u.username == username && u.passwordHash == passwordHash
  }

  class UserRepository {
    const db: Database

    constructor (db: Database)
      ensures this.db == db
    {
      this.db := db;
    }

    /** `SELECT * FROM users WHERE <where>`: a scan of the table in id order. */
    method Select(where: User -> bool) returns (rows: seq<User>)
      requires db.Valid()
      ensures forall u :: u in rows <==> StoredUser(db.users, u) && where(u)
      ensures forall i, j :: 0 <= i < j < |rows| ==> rows[i].id != rows[j].id
    {
      rows := [];
      for id := 1 to db.nextUserId
        invariant forall u :: u in rows ==> StoredUser(db.users, u) && where(u) && u.id < id
        invariant forall k :: 1 <= k < id && k in db.users && where(db.users[k]) ==> db.users[k] in rows
        invariant forall i, j :: 0 <= i < j < |rows| ==> rows[i].id < rows[j].id
      {
        if id in db.users && where(db.users[id]) {
          rows := rows + [db.users[id]];
        }
      }
    }

    /** The last row a scan with this filter reads, if any (the finders' result-set loop). */
    method SelectLast(where: User -> bool) returns (r: Option<User>)
      requires db.Valid()
      ensures r.Some? <==> exists id :: id in db.users && where(db.users[id])
      ensures r.Some? ==> StoredUser(db.users, r.value) && where(r.value)
    {
      var rows := Select(where);
      assert forall id :: id in db.users ==> StoredUser(db.users, db.users[id]);
      if |rows| == 0 {
        r := None;
      } else {
        assert rows[|rows| - 1] in rows;
        r := Some(rows[|rows| - 1]);
      }
    }

    /** registerUser: a lookup of the username first; if it is free, one row is inserted under
        the next AUTOINCREMENT id with the given name, password field and admin flag. */
    method RegisterUser(user: User) returns (registered: bool)
      requires db.Valid()
      modifies db
      ensures db.Valid()
      ensures registered <==> !UsernameTaken(old(db.users), user.username)
      ensures registered ==>
        && db.users == old(db.users)[old(db.nextUserId) :=
             User(old(db.nextUserId), user.username, user.passwordHash, user.admin)]
        && db.nextUserId == old(db.nextUserId) + 1
      ensures !registered ==> db.users == old(db.users) && db.nextUserId == old(db.nextUserId)
      ensures db.books == old(db.books) && db.rentals == old(db.rentals)
      ensures db.nextBookId == old(db.nextBookId)
      ensures old(db.LendingConsistent()) ==> db.LendingConsistent()
    {
      var registeredUser := FindUserByUsername(user.username);
      if registeredUser.Some? {
        return false;
      }
      var id := db.nextUserId;
      db.users := db.users[id := User(id, user.username, user.passwordHash, user.admin)];
      db.nextUserId := id + 1;
      registered := true;
    }

    /** `SELECT * FROM users WHERE username=?`: the user with that name, or none. */
    method FindUserByUsername(username: string) returns (r: Option<User>)
      requires db.Valid()
      ensures r.Some? <==> UsernameTaken(db.users, username)
      ensures r.Some? ==> StoredUser(db.users, r.value) && r.value.username == username
    {
      r := SelectLast((u: User) => u.username == username);
    }

    /** `SELECT * FROM users WHERE id=?`: the user with that id, or none. */
    method FindUserById(id: int) returns (r: Option<User>)
      requires db.Valid()
      ensures r.Some? <==> id in db.users
      ensures r.Some? ==> r.value == db.users[id] && r.value.id == id
    {
      r := SelectLast((u: User) => u.id == id);
    }

    /** `SELECT * FROM users WHERE username=? AND password=?`: a user is returned iff some
        stored user has both that name and that password hash. */
    method AuthenticateUser(username: string, password: string) returns (r: Option<User>)
      requires db.Valid()
      ensures r.Some? <==> exists id :: id in db.users && HasCredentials(db.users[id], username, password)
      ensures r.Some? ==> StoredUser(db.users, r.value) && HasCredentials(r.value, username, password)
    {
      r := SelectLast((u: User) => HasCredentials(u, username, password));
    }

    /** `SELECT * FROM users`: every stored user, each once. */
    method GetAllUsers() returns (rows: seq<User>)
      requires db.Valid()
      ensures forall u :: u in rows <==> StoredUser(db.users, u)
      ensures forall i, j :: 0 <= i < j < |rows| ==> rows[i].id != rows[j].id
    {
      rows := Select((u: User) => true);
    }
  }
}

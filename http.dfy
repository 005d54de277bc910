/** The part the three controllers share: response statuses and Basic authentication of the
    caller against the `users` table. */
module Http {
  import opened Models
  import opened Schema
  import opened Users
  import opened Security

  /** The response statuses the controllers produce; an escaping exception becomes
      InternalServerError. */
  datatype Status = Ok | Created | NotModified | Unauthorized | Forbidden | NotFound | Conflict | InternalServerError

  /** The numeric HTTP code of each status. */
  function Code(s: Status): (code: int)
    ensures 200 <= code < 600
    ensures code < 300 <==> s in {Ok, Created}
  {
    match s
    case Ok => 200
    case Created => 201
    case NotModified => 304
    case Unauthorized => 401
    case Forbidden => 403
    case NotFound => 404
    case Conflict => 409
    case InternalServerError => 500
  }

  /** The header decodes and some stored user has the decoded name and password hash. */
  predicate Authenticated(users: map<int, User>, crypto: Crypto, header: Option<string>): (ok: bool)
    ensures ok ==> header.Some? && DecodeAuthHeader(crypto, header).Success?
    ensures ok ==> UsernameTaken(users, DecodeAuthHeader(crypto, header).value.username)
  {
    var decoded := DecodeAuthHeader(crypto, header);
    decoded.Success? &&
    exists id :: id in users && HasCredentials(users[id], decoded.value.username, decoded.value.passwordHash)
  }

  /** The id of the authenticated caller: the user whose credentials the header carries (there
      is one such user, as usernames are unique). */
  ghost function CallerId(users: map<int, User>, crypto: Crypto, header: Option<string>): (id: int)
    requires Authenticated(users, crypto, header)
    ensures id in users
    ensures HasCredentials(users[id], DecodeAuthHeader(crypto, header).value.username,
                           DecodeAuthHeader(crypto, header).value.passwordHash)
  {
    var c := DecodeAuthHeader(crypto, header).value;
    var id :| id in users && HasCredentials(users[id], c.username, c.passwordHash);
    id
  }

  /** The caller is authenticated and an admin. */
  ghost predicate AuthenticatedAdmin(users: map<int, User>, crypto: Crypto, header: Option<string>)
  {
    Authenticated(users, crypto, header) && users[CallerId(users, crypto, header)].admin
  }

  /** Who sent a request: a header that throws while decoding, credentials no user has, or the
      stored user they belong to. */
  datatype Auth = Undecodable | Rejected | Caller(user: User)

  /** The first lines of every guarded endpoint: decodeAuthHeader, then authenticateUser with
      the decoded name and hash. */
  method Authenticate(userRepository: UserRepository, crypto: Crypto, header: Option<string>)
    returns (auth: Auth)
    requires userRepository.db.Valid()
    ensures auth == Undecodable <==> DecodeAuthHeader(crypto, header).Error?
    ensures auth.Caller? <==> Authenticated(userRepository.db.users, crypto, header)
    ensures auth.Caller? ==>
      auth.user == userRepository.db.users[CallerId(userRepository.db.users, crypto, header)]
  {
    var decoded := DecodeAuthHeader(crypto, header);
    if decoded.Error? {
      return Undecodable;
    }
    var user := userRepository.AuthenticateUser(decoded.value.username, decoded.value.passwordHash);
    if user.None? {
      return Rejected;
    }
    ghost var users := userRepository.db.users;
    ghost var id := CallerId(users, crypto, header);
    // usernames are unique, so both rows are the same one
    assert users[user.value.id].username == users[id].username;
    auth := Caller(user.value);
  }
}

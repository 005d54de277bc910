# Library store model

This project models the core of a small library-management web service. The service keeps
three SQLite tables:

- `books`: id, title, author, availability;
- `users`: id, username, password hash, admin flag;
- `rentals`: (user_id, book_id) pairs.

Three repositories work on those tables, and three REST controllers sit on top of them.

The store is the class `Schema.Database`. It holds the three tables as maps and a set, plus the
two AUTOINCREMENT counters. Its invariant `Valid` states the constraints of the table
definitions:

- ids are stored under their own keys and lie below the counter;
- the pair (title, author) is unique;
- usernames are unique;
- every rental references an existing user and an existing book.

Each repository method is an imperative method on that store. Its postconditions state the
new contents of every table and counter, what happens to a `Book` object it is handed, and
that `Valid` is preserved. The `books` and `users` scans are `for` loops over the ids, and the
`rentals` listings are `while` loops that take the stored pairs one at a time; their
invariants prove that exactly the matching rows are returned.

The two counters stand for SQLite's AUTOINCREMENT: the next row of a table receives the
counter's value. Ids are increasing but need not be consecutive. An `INSERT` into `books` draws
its id before the UNIQUE (title, author) index is consulted, and ON CONFLICT IGNORE lets the
statement complete, so a refused duplicate still uses up an id (`Scenarios.DuplicateLeavesGap`).
An insert that breaks NOT NULL is rolled back and uses none.

`Models.Book` is a class, because `updateBookById` overwrites the caller's patch object through
its setters. SQL exceptions and the other exceptions that escape become the `Error` outcome,
and the controllers report it as status 500.

The model follows the code as written. Places where the code falls short of its evident intent
are listed under Findings, each with a corrected variant beside it. The service is meant to do
more than the code does:

- A book should be unavailable exactly while a rental references it, so availability should
  flip on rent and return. The code never flips it.
- A repeated rental of the same pair should give Conflict. In the code the second rental passes
  the availability guard. It then breaks the rentals primary key and throws, which is status 500.

The model follows the code in both cases.

The following are not modelled as behaviour:

- SHA-256 and Base64 enter as function values in `Security.Crypto`.
- The `Authorization` header is an `Option<string>`; `None` stands for a missing header.

## Model

| member | source | states |
|---|---|---|
| Models.Wrap32 | src/main/java/com/example/LibraryManagement/models/Book.java:170-172 | Java `int` arithmetic: the result lies in [-2^31, 2^31) and is congruent to the input modulo 2^32 |
| Models.StringHashCode | src/main/java/com/example/LibraryManagement/models/Book.java:170-172 | `String.hashCode` is a 32-bit value |
| Models.NullableHashCode | src/main/java/com/example/LibraryManagement/models/Book.java:170-172 | the null-safe hash of a nullable field is a 32-bit value (0 for null) |
| Models.PairHashCode | src/main/java/com/example/LibraryManagement/models/Book.java:170-172 | `Objects.hash(title, author)` is a 32-bit value |
| Models.Book.Empty | src/main/java/com/example/LibraryManagement/models/Book.java:33 | the no-argument constructor leaves id 0, null title and author, and availability false |
| Models.Book.constructor | src/main/java/com/example/LibraryManagement/models/Book.java:41-44 | the two-argument constructor stores title and author and leaves id 0 and availability false |
| Models.Book.Full | src/main/java/com/example/LibraryManagement/models/Book.java:54-59 | the four-argument constructor stores all four fields as given |
| Models.Book.SetId | src/main/java/com/example/LibraryManagement/models/Book.java:75-77 | sets the id and changes no other field |
| Models.Book.SetTitle | src/main/java/com/example/LibraryManagement/models/Book.java:93-95 | sets the title and changes no other field |
| Models.Book.SetAuthor | src/main/java/com/example/LibraryManagement/models/Book.java:111-113 | sets the author and changes no other field |
| Models.Book.SetAvailability | src/main/java/com/example/LibraryManagement/models/Book.java:129-131 | sets the availability and changes no other field |
| Models.Book.Equals | src/main/java/com/example/LibraryManagement/models/Book.java:157-161 | a book equals only another `Book`, and books that are equal have equal hash codes |
| Models.Book.HashCode | src/main/java/com/example/LibraryManagement/models/Book.java:170-172 | the hash code is a 32-bit value computed from title and author only |
| Models.EqualsIgnoresIdAndAvailability | src/main/java/com/example/LibraryManagement/models/Book.java:157-161 | books with the same title and author are equal both ways, whatever their ids and availability; two null titles or authors count as equal |
| Models.EqualBooksHaveEqualHashCodes | src/main/java/com/example/LibraryManagement/models/Book.java:157-172 | books equal under `equals` have the same `hashCode` |
| Models.NotEqualToNull | src/main/java/com/example/LibraryManagement/models/Book.java:158 | a book is never equal to null |
| Schema.Database.constructor | src/main/java/com/example/LibraryManagement/database/DatabaseInitializer.java:53-112 | a new store has empty tables and both counters at 1; it is valid and consistent |
| Schema.Database.Valid | src/main/java/com/example/LibraryManagement/database/DatabaseInitializer.java:53-112 | in a valid store the counters never point at a stored row: the next id AUTOINCREMENT hands out is free |
| Books.Patched | src/main/java/com/example/LibraryManagement/database/BookRepository.java:119-122 | a patch keeps the row's id and availability, and each field takes the patch's value when it is not null and the stored value when it is |
| Books.NullPatchKeepsRow | src/main/java/com/example/LibraryManagement/database/BookRepository.java:119-122 | filling a patch whose title and author are both null gives back the row unchanged |
| Books.BookRepository.Select | src/main/java/com/example/LibraryManagement/database/BookRepository.java:179-206 | a scan returns exactly the stored rows that satisfy the filter, each once |
| Books.BookRepository.AddBook | src/main/java/com/example/LibraryManagement/database/BookRepository.java:57-73 | a null field throws; otherwise it returns true iff no book has the same (title, author), and then exactly one row is added under the next id with availability true; on false no row changes but the id drawn for the refused row is used up; on a throw nothing changes; the passed id and availability are ignored; validity and lending consistency are kept |
| Books.BookRepository.DeleteBookById | src/main/java/com/example/LibraryManagement/database/BookRepository.java:82-99 | returns true iff the book existed; afterwards that id is gone, and so is every rental of that book (ON DELETE CASCADE); other books, rentals and users are unchanged |
| Books.BookRepository.UpdateBookById | src/main/java/com/example/LibraryManagement/database/BookRepository.java:112-142 | false and no change to the table for a missing id, a null patch, or a patch equal to the row before its nulls are filled; for a missing id the patch object is left as it was; otherwise null fields take the old values, and the patch object is overwritten with them; the row is rewritten unless another row holds the resulting pair (then false); availability is never written |
| Books.BookRepository.UpdateBookAvailability | src/main/java/com/example/LibraryManagement/database/BookRepository.java:154-172 | returns true iff the book exists, and then changes only that book's availability |
| Books.BookRepository.GetAllBooks | src/main/java/com/example/LibraryManagement/database/BookRepository.java:179-206 | returns every stored book once and changes nothing |
| Books.BookRepository.FindBooksByTitle | src/main/java/com/example/LibraryManagement/database/BookRepository.java:214-243 | returns exactly the stored books whose title equals the argument, and changes nothing |
| Books.BookRepository.FindBooksByAuthor | src/main/java/com/example/LibraryManagement/database/BookRepository.java:251-280 | returns exactly the stored books whose author equals the argument, and changes nothing |
| Books.BookRepository.FindBookById | src/main/java/com/example/LibraryManagement/database/BookRepository.java:288-315 | returns the book with that id iff it is stored, and changes nothing |
| Books.BookRepository.IsAvailable | src/main/java/com/example/LibraryManagement/database/BookRepository.java:324-327 | true iff the book exists and its availability flag is set |
| Users.UserRepository.Select | src/main/java/com/example/LibraryManagement/database/UserRepository.java:140-167 | a scan returns exactly the stored users that satisfy the filter, each once |
| Users.UserRepository.SelectLast | src/main/java/com/example/LibraryManagement/database/UserRepository.java:51-78 | the finders' result loop yields a stored matching user iff one exists |
| Users.UserRepository.RegisterUser | src/main/java/com/example/LibraryManagement/database/UserRepository.java:25-48 | returns false and changes nothing when the username is taken; otherwise adds one user under the next id with the given name, password field and admin flag; usernames stay unique |
| Users.UserRepository.FindUserByUsername | src/main/java/com/example/LibraryManagement/database/UserRepository.java:51-78 | returns a stored user with that name iff one exists, and changes nothing |
| Users.UserRepository.FindUserById | src/main/java/com/example/LibraryManagement/database/UserRepository.java:80-107 | returns the user with that id iff it is stored, and changes nothing |
| Users.UserRepository.AuthenticateUser | src/main/java/com/example/LibraryManagement/database/UserRepository.java:109-137 | returns a user iff some stored user has both that username and that password hash |
| Users.UserRepository.GetAllUsers | src/main/java/com/example/LibraryManagement/database/UserRepository.java:140-167 | returns every stored user once and changes nothing |
| Rentals.RentalRepository.constructor | src/main/java/com/example/LibraryManagement/database/RentalRepository.java:11-21 | the lending repository works on the same store as the user and book repositories |
| Rentals.RentalRepository.RentBook | src/main/java/com/example/LibraryManagement/database/RentalRepository.java:30-55 | false and no change when the user is unknown or the book is missing or unavailable; an error when the pair is already rented; otherwise exactly that pair is added; the books table is unchanged in every case |
| Rentals.RentalRepository.ReturnBook | src/main/java/com/example/LibraryManagement/database/RentalRepository.java:57-81 | returns true iff the pair was rented; afterwards it is absent and all other rentals are unchanged; the books table is unchanged |
| Rentals.RentalRepository.ExistsRental | src/main/java/com/example/LibraryManagement/database/RentalRepository.java:83-100 | true for every pair |
| Rentals.RentalRepository.GetAllRentals | src/main/java/com/example/LibraryManagement/database/RentalRepository.java:102-127 | one entry per stored rental, with each entry's bookId holding the user id and its userId holding the book id |
| Rentals.RentalRepository.RentBookCorrected | src/main/java/com/example/LibraryManagement/database/RentalRepository.java:30-55 | as rentBook, but marks the book unavailable; from a consistent store it never throws and keeps availability in step with the rentals |
| Rentals.RentalRepository.ReturnBookCorrected | src/main/java/com/example/LibraryManagement/database/RentalRepository.java:57-81 | as returnBook with a real existence check, and marks the book available again; keeps the store consistent |
| Rentals.RentalRepository.ExistsRentalCorrected | src/main/java/com/example/LibraryManagement/database/RentalRepository.java:83-100 | true iff the pair is rented |
| Rentals.RentalRepository.GetAllRentalsCorrected | src/main/java/com/example/LibraryManagement/database/RentalRepository.java:102-127 | lists exactly the stored rentals with their ids the right way round |
| Security.Unsigned | src/main/java/com/example/LibraryManagement/security/Utils.java:20 | `0xff & b` lies in [0, 256) |
| Security.Signed | src/main/java/com/example/LibraryManagement/security/Utils.java:20 | the inverse of `0xff & b` |
| Security.ToHexString | src/main/java/com/example/LibraryManagement/security/Utils.java:20 | `Integer.toHexString` of a value below 256 is one or two hex digits, one exactly below 16, with no leading zero |
| Security.HexValue | src/main/java/com/example/LibraryManagement/security/Utils.java:20 | the value of a lower-case hex digit is the index of that digit |
| Security.ByteHex | src/main/java/com/example/LibraryManagement/security/Utils.java:20-24 | each digest byte becomes exactly two lower-case hex digits |
| Security.ByteHexDigits | src/main/java/com/example/LibraryManagement/security/Utils.java:20-24 | those two digits are the high and low digit of the unsigned value, the first being '0' exactly when the value is below 16 |
| Security.HexEncode | src/main/java/com/example/LibraryManagement/security/Utils.java:17-26 | the hex string is twice as long as the digest and holds hex digits only |
| Security.HashString | src/main/java/com/example/LibraryManagement/security/Utils.java:14-30 | the loop builds the hex encoding of the SHA-256 digest of the input |
| Security.HexEncodeAt | src/main/java/com/example/LibraryManagement/security/Utils.java:19-25 | the characters at 2i and 2i+1 are the rendering of byte i |
| Security.HexDecode | src/main/java/com/example/LibraryManagement/security/Utils.java:19-25 | reading digit pairs back gives one byte per two characters |
| Security.ByteHexDecodes | src/main/java/com/example/LibraryManagement/security/Utils.java:20-24 | the two digits of a byte read back as that byte |
| Security.HexDecodeAt | src/main/java/com/example/LibraryManagement/security/Utils.java:19-25 | byte i of the decoding is read from characters 2i and 2i+1 |
| Security.HexEncodePairAt | src/main/java/com/example/LibraryManagement/security/Utils.java:19-25 | characters 2i and 2i+1 of the encoding read back as byte i |
| Security.HexDecodeEncodeAt | src/main/java/com/example/LibraryManagement/security/Utils.java:17-26 | byte i of the digest survives encoding and decoding |
| Security.HexDecodeEncode | src/main/java/com/example/LibraryManagement/security/Utils.java:17-26 | decoding the hex string gives the digest back |
| Security.HexEncodeInjective | src/main/java/com/example/LibraryManagement/security/Utils.java:17-26 | different digests never give the same hex string |
| Security.FirstIndex | src/main/java/com/example/LibraryManagement/security/Utils.java:37-39 | the position of the first separator, with none before it |
| Security.Before | src/main/java/com/example/LibraryManagement/security/Utils.java:39-40 | the text before the first separator holds no separator |
| Security.FirstIndexAfter | src/main/java/com/example/LibraryManagement/security/Utils.java:39-42 | in `u + c + t` with no c in u, the text before the first c is u and the text after it is t |
| Security.Pieces | src/main/java/com/example/LibraryManagement/security/Utils.java:37-39 | splitting gives at least one piece, none holding the separator, the first being the text before the first separator |
| Security.JoinPieces | src/main/java/com/example/LibraryManagement/security/Utils.java:37-39 | joining the pieces with the separator gives the string back |
| Security.DropTrailingEmpty | src/main/java/com/example/LibraryManagement/security/Utils.java:37-39 | the result is a prefix of the pieces that ends in a non-empty piece, and every piece dropped is empty |
| Security.JavaSplit | src/main/java/com/example/LibraryManagement/security/Utils.java:37-39 | `split` gives parts free of the separator, and the whole string when the separator does not occur |
| Security.PiecesAllEmpty | src/main/java/com/example/LibraryManagement/security/Utils.java:39-42 | every piece is empty exactly when the string is made of separators only |
| Security.SplitFirstTwo | src/main/java/com/example/LibraryManagement/security/Utils.java:37-42 | a split has two or more parts exactly when something other than the separator follows the first separator; the first two parts are then the text before and the text after that separator, up to the next one |
| Security.SplitHasTwoParts | src/main/java/com/example/LibraryManagement/security/Utils.java:37-42 | two or more parts mean something other than the separator follows the first one, and give the first two parts as the text before it and the text up to the next one |
| Security.OtherAfterSeparatorGivesTwoParts | src/main/java/com/example/LibraryManagement/security/Utils.java:37-42 | something other than the separator after the first one leaves at least two parts |
| Security.DecodeAuthHeader | src/main/java/com/example/LibraryManagement/security/Utils.java:35-44 | a missing header throws; on success the username holds no ':' and the password is a hex string |
| Security.DecodeAuthHeaderSpec | src/main/java/com/example/LibraryManagement/security/Utils.java:35-44 | decodeAuthHeader succeeds exactly when the second space-separated token decodes to text holding a ':' followed by something other than ':'; it then returns the text before the first ':' and the hash of the text between the first and second ':' |
| Security.BasicHeaderToken | src/main/java/com/example/LibraryManagement/security/Utils.java:37-39 | in `Basic <token>` the token is the second space-separated part |
| Security.NothingAfterColonFails | src/main/java/com/example/LibraryManagement/security/Utils.java:39-42 | decoded credentials `name:` throw instead of hashing an empty password |
| Security.SecondColonDropped | src/main/java/com/example/LibraryManagement/security/Utils.java:39-43 | `name:pass:extra` gives the name and the hash of `pass`; the text after the second ':' is dropped, and the plaintext is never returned |
| Http.Code | src/main/java/com/example/LibraryManagement/api/BookAPI.java:59-122 | each status has its HTTP code; only Ok and Created are success codes |
| Http.Authenticated | src/main/java/com/example/LibraryManagement/api/BookAPI.java:52-58 | a caller is authenticated only with a present header that decodes to the name of a stored user |
| Http.CallerId | src/main/java/com/example/LibraryManagement/api/BookAPI.java:57 | the authenticated caller is a stored user with the decoded name and hash |
| Http.Authenticate | src/main/java/com/example/LibraryManagement/api/BookAPI.java:52-57 | the guarded endpoints' opening: undecodable exactly when decodeAuthHeader throws; a caller exactly when a stored user has the decoded credentials, and then that user |
| BookEndpoints.BookApi.GetAllBooks | src/main/java/com/example/LibraryManagement/api/BookAPI.java:29-32 | lists every stored book with no authentication and changes nothing |
| BookEndpoints.BookApi.GetBooksByTitle | src/main/java/com/example/LibraryManagement/api/BookAPI.java:34-37 | lists the books with that title with no authentication and changes nothing |
| BookEndpoints.BookApi.GetBooksByAuthor | src/main/java/com/example/LibraryManagement/api/BookAPI.java:39-42 | lists the books by that author with no authentication and changes nothing |
| BookEndpoints.BookApi.GetBookById | src/main/java/com/example/LibraryManagement/api/BookAPI.java:44-47 | Ok with the stored book iff it exists, otherwise NotFound; changes nothing |
| BookEndpoints.BookApi.AddBook | src/main/java/com/example/LibraryManagement/api/BookAPI.java:49-72 | 401 for unknown credentials and 403 for a non-admin, both with the store unchanged; for an admin, 201 iff the book was inserted, and 409 for a duplicate with no row changed and the drawn id used up |
| BookEndpoints.BookApi.DeleteBook | src/main/java/com/example/LibraryManagement/api/BookAPI.java:74-96 | the same gate; for an admin, 200 iff the book existed and is now deleted with its rentals, otherwise 404 |
| BookEndpoints.BookApi.UpdateBookById | src/main/java/com/example/LibraryManagement/api/BookAPI.java:98-124 | the same gate; for an admin, 200 when the update succeeded, 404 when it failed and the book is absent (the patch object untouched), otherwise 304 |
| RentalEndpoints.RentalApi.GetAllRentals | src/main/java/com/example/LibraryManagement/api/RentalAPI.java:45-48 | delegates with no authentication and changes nothing |
| RentalEndpoints.RentalApi.RentBook | src/main/java/com/example/LibraryManagement/api/RentalAPI.java:58-79 | 401 and no change for unknown credentials; otherwise the path id is rented to the authenticated caller, whatever their admin flag: 201 iff rentBook returned true, 409 when it returned false, 500 when it threw on a repeated rental |
| RentalEndpoints.RentalApi.ReturnBook | src/main/java/com/example/LibraryManagement/api/RentalAPI.java:89-110 | 401 and no change for unknown credentials; otherwise the caller's rental of the path id is returned: 200 iff it existed, otherwise 404 |
| UserEndpoints.UserApi.GetAllUsers | src/main/java/com/example/LibraryManagement/api/UserAPI.java:25-28 | lists every stored user with no authentication and changes nothing |
| UserEndpoints.UserApi.RegisterUser | src/main/java/com/example/LibraryManagement/api/UserAPI.java:30-40 | stores the hex SHA-256 hash of the password, never the plaintext, with the requested admin flag; 201 iff the username was free, otherwise 409 and no change |
| Scenarios.FreshStore | src/main/java/com/example/LibraryManagement/database/DatabaseInitializer.java:53-112 | a new store with its three repositories wired to it |
| Scenarios.StartupSeeding | src/main/java/com/example/LibraryManagement/LibraryManagement.java:23-30 | the startup seeding ends with two users, two books and the rental (1, 1), yet book 1 is still flagged available |
| Scenarios.DoubleRental | src/main/java/com/example/LibraryManagement/database/RentalRepository.java:30-49 | two users both rent book 1 successfully; the store is left inconsistent |
| Scenarios.DoubleRentalCorrected | src/main/java/com/example/LibraryManagement/database/RentalRepository.java:30-49 | with the corrected rentBook the second rental is refused and the store stays consistent |
| Scenarios.PhantomRental | src/main/java/com/example/LibraryManagement/database/RentalRepository.java:83-100 | existsRental reports a rental in an empty store; the corrected version does not |
| Scenarios.SwappedListing | src/main/java/com/example/LibraryManagement/database/RentalRepository.java:113-116 | user 1 renting book 2 is listed as book 1 rented by user 2 |
| Scenarios.DuplicateLeavesGap | src/main/java/com/example/LibraryManagement/database/BookRepository.java:57-73 | adding a book twice and then another: the duplicate is refused, yet the next book is stored under id 3 |
| Scenarios.HalfNullPatch | src/main/java/com/example/LibraryManagement/database/BookRepository.java:112-137 | a patch with a null title and the current author reports success, and leaves the row exactly as it was |

## Left out

- JDBC plumbing (connections, SQL text, statement binding, result sets, `PRAGMA foreign_keys`) is not modelled. Each statement is modelled by its effect on the in-memory tables.
- Creating the tables is I/O and is not modelled. The constraints of the table definitions are the invariant `Schema.Database.Valid`.
- SHA-256, `String.getBytes`, Base64 decoding and `new String(bytes)` are library code. They enter as the function values of `Security.Crypto`.
- Spring wiring, the singleton `getInstance` methods and the database URL configuration are not modelled. HTTP request and response types are reduced to a header string and a `Http.Status`; response body texts are not modelled.
- An exception escaping a controller is taken to become status 500. The framework's error handling is not part of this model.
- Concurrency and transactions are not modelled: the check-then-act races in `registerUser` and `rentBook` cannot occur in a sequential model.
- The stored password column is treated as the hash field. The name mismatch between the insert and the table definition, and the missing `getPassword` accessor, are plumbing defects outside the model.
- `toString` of the records and the printing in `main` are output only.
- A null username, password or header field inside `User` or `RegisterInfo` is not modelled; those strings are never null here. Null is modelled for the Book title and author and for a missing `Authorization` header.
- Ids are unbounded integers: the 32-bit range of Java `int` ids and of SQLite's counter is not modelled.
- Models.StringHashCode: works on Dafny characters (Unicode scalar values). It equals Java's UTF-16 `hashCode` only for text in the Basic Multilingual Plane.
- The readers return `BookRow`/`User` values rather than freshly allocated model objects. The order of the rows they return is not stated.
- The controllers call the as-written lending operations, because they model the deployed service. The corrected variants are exercised by `Scenarios.DoubleRentalCorrected` and `Scenarios.PhantomRental`.

## Findings

| source | as written | input that shows it | evidently intended | confidence | as-written member | corrected member |
|---|---|---|---|---|---|---|
| src/main/java/com/example/LibraryManagement/database/RentalRepository.java:47 | after inserting the rental, rentBook calls updateBookById with a null title and author; that update writes only the title and author, so availability stays true | two users rent book 1 one after the other: both get true and the store holds two rentals of book 1 | the book is marked unavailable, so the second request is refused | not executed | Scenarios.DoubleRental | Rentals.RentalRepository.RentBookCorrected |
| src/main/java/com/example/LibraryManagement/database/RentalRepository.java:73 | after deleting the rental, returnBook calls updateBookById in the same way, so availability is never set back | a book whose flag is false, once returned, stays unavailable | the book is marked available again | not executed | Rentals.RentalRepository.ReturnBook | Rentals.RentalRepository.ReturnBookCorrected |
| src/main/java/com/example/LibraryManagement/database/RentalRepository.java:95 | existsRental returns `execute()`, which is true for any SELECT | an empty store, pair (user 3, book 7): true | true only when the pair is rented | not executed | Scenarios.PhantomRental | Rentals.RentalRepository.ExistsRentalCorrected |
| src/main/java/com/example/LibraryManagement/database/RentalRepository.java:113-116 | getAllRentals builds `new Rental(user_id, book_id)`, and that constructor takes the book id first | user 1 rents book 2: listed with bookId 1 and userId 2 | listed with bookId 2 and userId 1 | not executed | Scenarios.SwappedListing | Rentals.RentalRepository.GetAllRentalsCorrected |

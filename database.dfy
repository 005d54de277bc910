/** The store: the `books`, `users` and `rentals` tables created by DatabaseInitializer, with the
    constraints of their definitions stated as the invariant `Valid`. */
module Schema {
  import opened Models

  /** Some row of `books` already holds the pair (title, author). */
  predicate Catalogued(books: map<int, BookRow>, title: string, author: string)
  {
    exists id :: id in books && books[id].title == title && books[id].author == author
  }

  /** A row other than `self` already holds the pair (title, author). */
  predicate CataloguedElsewhere(books: map<int, BookRow>, self: int, title: string, author: string)
  {
    exists id :: id in books && id != self && books[id].title == title && books[id].author == author
  }

  /** Some row of `users` already holds this username. */
  predicate UsernameTaken(users: map<int, User>, username: string)
  {
    exists id :: id in users && users[id].username == username
  }

  /** Every row is stored under its own id, and ids lie in [1, next): AUTOINCREMENT issues
      1, 2, 3, ... and never hands out an id below the counter again. */
  ghost predicate BooksKeyed(books: map<int, BookRow>, next: int)
  {
    forall id :: id in books ==> books[id].id == id && 1 <= id < next
  }

  ghost predicate UsersKeyed(users: map<int, User>, next: int)
  {
    forall id :: id in users ==> users[id].id == id && 1 <= id < next
  }

  /** UNIQUE (title, author). */
  ghost predicate UniqueTitleAuthor(books: map<int, BookRow>)
  {
    forall i, j ::
      i in books && j in books && books[i].title == books[j].title && books[i].author == books[j].author
      ==> i == j
  }

  /** username TEXT UNIQUE. */
  ghost predicate UniqueUsernames(users: map<int, User>)
  {
    forall i, j :: i in users && j in users && users[i].username == users[j].username ==> i == j
  }

  /** b is the row stored under its id. */
  predicate StoredBook(books: map<int, BookRow>, b: BookRow)
  {
    b.id in books && books[b.id] == b
  }

  /** u is the row stored under its id. */
  predicate StoredUser(users: map<int, User>, u: User)
  {
    u.id in users && users[u.id] == u
  }

  /** The contents of the store at one moment. */
  datatype Snapshot = Snapshot(
    books: map<int, BookRow>, users: map<int, User>, rentals: set<(int, int)>,
    nextBookId: int, nextUserId: int)

  class Database {
    var books: map<int, BookRow>
    var users: map<int, User>
    /** Pairs (user_id, book_id): PRIMARY KEY (user_id, book_id). */
    var rentals: set<(int, int)>
    /** The AUTOINCREMENT counters: the id the next inserted row receives. */
    var nextBookId: int
    var nextUserId: int

    /** The constraints of the three table definitions. Both foreign keys of `rentals` hold:
        users are never deleted, and deleting a book cascades to its rentals. */
    ghost predicate Valid(): (v: bool)
      reads this
      ensures v ==> nextBookId !in books && nextUserId !in users
    {
      && 1 <= nextBookId && 1 <= nextUserId
      && BooksKeyed(books, nextBookId)
      && UsersKeyed(users, nextUserId)
      && UniqueTitleAuthor(books)
      && UniqueUsernames(users)
      && (forall r :: r in rentals ==> r.0 in users && r.1 in books)
    }

    /** Lending consistency: a book is unavailable exactly when a rental references it, and at
        most one rental references a book. */
    ghost predicate LendingConsistent()
      reads this
    {
      && (forall id :: id in books ==> (!books[id].availability <==> exists u :: (u, id) in rentals))
      && (forall r, s :: r in rentals && s in rentals && r.1 == s.1 ==> r == s)
    }

    /** The whole store as one value: two snapshots agree exactly when nothing was changed. */
    function Tables(): Snapshot
      reads this
    {
      Snapshot(books, users, rentals, nextBookId, nextUserId)
    }

    /** Empty tables, counters at their start. */
    constructor ()
      ensures Valid() && LendingConsistent()
      ensures books == map[] && users == map[] && rentals == {}
      ensures nextBookId == 1 && nextUserId == 1
    {
      books, users, rentals := map[], map[], {};
      nextBookId, nextUserId := 1, 1;
    }
  }
}

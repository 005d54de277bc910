/** The library's records: Book (a mutable object), and the value records User, Rental, RegisterInfo. */
module Models {

  /** A nullable value: `None` stands for Java's `null`. */
  datatype Option<T> = None | Some(value: T) {
    function GetOr(default: T): T {
      match this
      case Some(v) => v
      case None => default
    }
  }

  /** The outcome of a call that may throw: `Error` stands for an escaping exception
      (an `SQLException` wrapped in a `RuntimeException`, an index failure, a decoding failure). */
  datatype Outcome<T> = Success(value: T) | Error

  /** A row of the `books` table; its columns are NOT NULL, so title and author are plain strings. */
  datatype BookRow = BookRow(id: int, title: string, author: string, availability: bool)

  /** A row of the `users` table (the password column holds the hex SHA-256 hash). */
  datatype User = User(id: int, username: string, passwordHash: string, admin: bool)

  /** A rental object; note that the constructor takes the book id FIRST. */
  datatype Rental = Rental(bookId: int, userId: int)

  /** The body of a registration request. */
  datatype RegisterInfo = RegisterInfo(username: string, password: string, admin: bool)

  const TwoTo31: int := 0x8000_0000
  const TwoTo32: int := 0x1_0000_0000

  /** Java `int` arithmetic: the two's-complement value of x modulo 2^32. */
  function Wrap32(x: int): (r: int)
    ensures -TwoTo31 <= r < TwoTo31
    ensures (r - x) % TwoTo32 == 0
  {
    var m := (x + TwoTo31) % TwoTo32;
    assert x + TwoTo31 == ((x + TwoTo31) / TwoTo32) * TwoTo32 + m;
    m - TwoTo31
  }

  /** `String.hashCode`: h = 31 * h + c over the characters, in `int` arithmetic. */
  function StringHashCode(s: string): (h: int)
    ensures -TwoTo31 <= h < TwoTo31
  {
    if s == [] then 0 else Wrap32(31 * StringHashCode(s[..|s| - 1]) + s[|s| - 1] as int)
  }

  /** The hash a null-safe hash (`Objects.hashCode`) gives a nullable string. */
  function NullableHashCode(s: Option<string>): (h: int)
    ensures -TwoTo31 <= h < TwoTo31
  {
    match s
    case None => 0
    case Some(t) => StringHashCode(t)
  }

  /** `Objects.hash(a, b)`, that is `Arrays.hashCode` of {a, b}: 31 * (31 * 1 + h(a)) + h(b). */
  function PairHashCode(a: Option<string>, b: Option<string>): (h: int)
    ensures -TwoTo31 <= h < TwoTo31
  {
    Wrap32(31 * Wrap32(31 * 1 + NullableHashCode(a)) + NullableHashCode(b))
  }

  /** The Book model object. Request bodies are read into it field by field, so title and
      author may be null; id and availability have Java's defaults 0 and false. */
  class Book {
    var id: int
    var title: Option<string>
    var author: Option<string>
    var availability: bool

    /** `Book()`: every field keeps its default. */
    constructor Empty()
      ensures id == 0 && title == None && author == None && !availability
    {
      id, title, author, availability := 0, None, None, false;
    }

    /** `Book(title, author)`: id stays 0 and availability stays false. */
    constructor (title: Option<string>, author: Option<string>)
      ensures this.title == title && this.author == author
      ensures id == 0 && !availability
    {
      this.id, this.title, this.author, this.availability := 0, title, author, false;
    }

    /** `Book(id, title, author, availability)`: all four fields as given. */
    constructor Full(id: int, title: Option<string>, author: Option<string>, availability: bool)
      ensures this.id == id && this.title == title && this.author == author
      ensures this.availability == availability
    {
      this.id, this.title, this.author, this.availability := id, title, author, availability;
    }

    method SetId(id: int)
      modifies this
      ensures this.id == id
      ensures title == old(title) && author == old(author) && availability == old(availability)
    {
      this.id := id;
    }

    method SetTitle(title: Option<string>)
      modifies this
      ensures this.title == title
      ensures id == old(id) && author == old(author) && availability == old(availability)
    {
      this.title := title;
    }

    method SetAuthor(author: Option<string>)
      modifies this
      ensures this.author == author
      ensures id == old(id) && title == old(title) && availability == old(availability)
    {
      this.author := author;
    }

    method SetAvailability(availability: bool)
      modifies this
      ensures this.availability == availability
      ensures id == old(id) && title == old(title) && author == old(author)
    {
      this.availability := availability;
    }

    /** `Book.equals`: false for null and for an object of another class; otherwise the titles
        and the authors are compared null-safely (two nulls are equal). */
    predicate Equals(o: object?): (eq: bool)
      reads this, o
      ensures eq ==> o is Book && (o as Book).HashCode() == HashCode()
    {
      o != null && o is Book && title == (o as Book).title && author == (o as Book).author
    }

    /** `Book.hashCode`: `Objects.hash(title, author)`. */
    function HashCode(): (h: int)
      reads this
      ensures -TwoTo31 <= h < TwoTo31
    {
      PairHashCode(title, author)
    }
  }

  /** equals looks at title and author only: id and availability never matter. */
  lemma EqualsIgnoresIdAndAvailability(a: Book, b: Book)
    requires a.title == b.title && a.author == b.author
    ensures a.Equals(b) && b.Equals(a)
  {
  }

  /** Books that are equal under equals have the same hash code. */
  lemma EqualBooksHaveEqualHashCodes(a: Book, b: Book)
    requires a.Equals(b)
    ensures a.HashCode() == b.HashCode()
  {
  }

  /** A Book is never equal to null. */
  lemma NotEqualToNull(a: Book)
    ensures !a.Equals(null)
  {
  }
}

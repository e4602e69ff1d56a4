/** The records the bookstore keeps and the outcomes its handlers report. */
module Bookstore {
  import opened Seqs

  /** A review as stored on a book. The seed catalogue carries rated reviews;
      the add-review handler stores free text. Both carry the reviewer's name. */
  datatype Review =
    | Rated(username: string, rating: int, comment: string)
    | Written(username: string, text: string)

  /** A catalogue entry; `owner` is the username the listing was created under. */
  datatype Book = Book(isbn: string, title: string, author: string, reviews: seq<Review>, owner: string)

  /** A registered account; the password is kept and compared as plain text. */
  datatype User = User(username: string, password: string)

  /** Every way a handler can refuse a request. */
  datatype Error =
    | BookNotFound
    | NoBooksForAuthor
    | NoBooksForTitle
    | CredentialsRequired
    | UserExists
    | InvalidCredentials
    | ReviewFieldsRequired
    | UnauthorizedUser
    | FetchFailed

  /** The text the handler sends back with each error. */
  function Message(e: Error): (r: string)
    ensures |r| > 0
  {
    match e
    case BookNotFound => "Book not found"
    case NoBooksForAuthor => "No books found for this author"
    case NoBooksForTitle => "No books found for this title"
    case CredentialsRequired => "Username and password required"
    case UserExists => "User already exists"
    case InvalidCredentials => "Invalid credentials"
    case ReviewFieldsRequired => "Username and review required"
    case UnauthorizedUser => "Unauthorized user"
    case FetchFailed => "Error fetching books"
  }

  /** The answer of a lookup: a value, or the error it was refused with. */
  datatype Result<T> = Ok(value: T) | Err(error: Error)

  /** The answer of a handler that changes state and returns no value. */
  datatype Outcome = Done | Failed(error: Error)

  /** A request-body field counts as given when it is there and is not the empty string. */
  predicate Present(field: Option<string>)
  {
    field.Some? && field.value != ""
  }

  /** Distinct errors are sent with distinct texts, so a rejection text identifies its error. */
  lemma MessageInjective(e1: Error, e2: Error)
    requires Message(e1) == Message(e2)
    ensures e1 == e2
  {
  }
}

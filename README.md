# Bookstore catalogue and review service, modelled in Dafny

The service keeps two in-memory stores. The first is a catalogue of five books. Each book
has an ISBN, a title, an author, a list of reviews and an owner username. The second is a
list of registered users, each a username and a plain-text password. HTTP handlers work on
these stores:

- lookups by ISBN, by author (case-insensitive exact match) and by title (case-insensitive
  substring), and the reviews of one book;
- registration and login;
- adding a review, and deleting every review a user left on a book;
- a delayed, callback-style listing of the catalogue;
- Promise-style copies of the three lookups.

The model is split into six modules:

- `seqs.dfy` (module `Seqs`): `Array.prototype.find` as `Find` (the index of the first
  match) and `Array.prototype.filter` as `Filter`. Also the predicate `OrderedMatches`, which
  says that a result holds exactly the matching elements, in storage order.
- `text.dfy` (module `Text`): `toLowerCase` as the per-character `Lower`, and `includes`
  as the left-to-right scan `Includes`.
- `bookstore.dfy` (module `Bookstore`): the records (`Book`, `User`, and `Review` as a
  tagged variant), the `Error` taxonomy with the text each handler sends, `Result`/`Outcome`,
  and `Present`. `Present` is the handlers' test that a body field was given.
- `catalog.dfy` (module `Catalog`): the seed catalogue and the read-only handlers as pure
  functions over `seq<Book>`, including the callback and Promise variants.
- `accounts.dfy` (module `Accounts`): user lookup, the uniqueness invariant, and login as a
  pure function over `seq<User>`.
- `store.dfy` (module `Service`): class `Store` with fields `books` and `users`, and the
  three handlers that change them (`Register`, `AddReview`, `DeleteReview`) as methods.
  Each method's postcondition gives every outcome as an if-and-only-if over the old state,
  and states the whole new state.

The source's field names `ISBN`, `review` and `username` (on a book) appear here as `isbn`,
`reviews` and `owner`. A missing request-body field is `None`. A field counts as given when
it is present and is not the empty string.

## Model

| member | source | states |
|---|---|---|
| `Seqs.Find` | index.js:24 | the result is the index of the first element satisfying the predicate; it is None exactly when no element satisfies it |
| `Seqs.Filter` | index.js:31 | every element of the result is an element of the input that satisfies the predicate, and every such element of the input appears in the result |
| `Seqs.FilterOrdered` | index.js:38 | the filtered sequence is exactly the matching elements, at strictly increasing positions of the input, so catalogue order is kept |
| `Seqs.FilterIdempotent` | index.js:88 | filtering a second time with the same predicate returns the same sequence |
| `Seqs.FilterCongruent` | index.js:31 | two predicates that agree on every element select the same subsequence |
| `Text.LowerChar` | index.js:31 | the result is never an upper-case ASCII letter; an upper-case letter becomes the same letter in lower case; every other character is kept |
| `Text.Lower` | index.js:31 | (also index.js:38) the lower-cased string has the same length; each upper-case ASCII letter becomes the same letter in lower case and every other character stays in its place |
| `Text.LowerEqualIff` | index.js:31 | (also index.js:38) two strings lower-case to the same string exactly when they differ at most in the case of their ASCII letters |
| `Text.LowerIdempotent` | index.js:31 | lower-casing a lower-cased string changes nothing; used by `Catalog.AuthorQueryLowered` and `Catalog.TitleQueryLowered` |
| `Text.Includes` | index.js:38 | a text includes each of its prefixes, and never a query longer than itself; the full characterisation is `Text.IncludesIff` |
| `Text.IncludesIff` | index.js:38 | the substring scan succeeds exactly when the query occurs at some position of the text; the empty query occurs everywhere |
| `Text.IncludedCharsOccur` | index.js:38 | every character of an included query occurs in the text |
| `Bookstore.Message` | index.js:25-101 | every error (the texts sent at index.js:25, 32, 39, 54, 56, 65, 72, 74, 76 and 101) is sent with a non-empty text |
| `Bookstore.MessageInjective` | index.js:110-112 | distinct errors are sent with distinct texts, so a rejection text identifies its error |
| `Catalog.Seed` | index.js:7-15 | the store starts with five books, no two sharing an ISBN |
| `Catalog.BookByIsbn` | index.js:23-27 | "Book not found" exactly when no book carries the ISBN; otherwise the first book in catalogue order that carries it |
| `Catalog.BooksByAuthor` | index.js:30-34 | "No books found for this author" exactly when no lower-cased author equals the lower-cased query; otherwise exactly the matching books, in catalogue order |
| `Catalog.BooksByTitle` | index.js:37-41 | "No books found for this title" exactly when no lower-cased title contains the lower-cased query; otherwise exactly the matching books, in catalogue order |
| `Catalog.ReviewsByIsbn` | index.js:44-48 | fails with "Book not found" exactly when the ISBN lookup fails; otherwise returns that book's review list, which may be empty |
| `Catalog.BookByIsbnIsTheBook` | index.js:7-15 | when ISBNs are distinct, looking up a book's ISBN returns that very book |
| `Catalog.AuthorLookupIgnoresCase` | index.js:31 | two author queries that differ only in the case of their letters give the same answer |
| `Catalog.TitleLookupIgnoresCase` | index.js:38 | two title queries that differ only in the case of their letters give the same answer |
| `Catalog.AuthorQueryLowered` | index.js:31 | an author query and its lower-cased form give the same answer |
| `Catalog.TitleQueryLowered` | index.js:38 | a title query and its lower-cased form give the same answer |
| `Catalog.HabitTitleExample` | index.js:37-41 | on the seed catalogue, the title query "habit" returns exactly the books with ISBNs 113 and 531 (index.js:8, 11), in that order; the helper lemmas beside it show which seed titles match |
| `Catalog.NapoleonHillExample` | index.js:30-34 | on the seed catalogue, the author query "napoleon hill" returns exactly the books with ISBNs 432 and 455 (index.js:10, 13), in that order |
| `Catalog.AsyncBooks` | index.js:93-104 | the delayed listing answers with the whole catalogue it is given, the same as GET /books, and never takes its error branch |
| `Catalog.FindBookByIsbnPromise` | index.js:107-119 | the Promise lookup by ISBN fulfils with the same book, or rejects with the same message, as the synchronous lookup |
| `Catalog.FindBooksByAuthorPromise` | index.js:122-134 | the Promise lookup by author fulfils with the same books, or rejects with the same message, as the synchronous lookup |
| `Catalog.FindBooksByTitlePromise` | index.js:137-149 | the Promise lookup by title fulfils with the same books, or rejects with the same message, as the synchronous lookup |
| `Accounts.FindUser` | index.js:55 | (also index.js:75, 86) the result is the position of the first user carrying the name; it is None exactly when no user carries it |
| `Accounts.IsRegistered` | index.js:55 | (also index.js:75, 86) the username lookup finds a user exactly when some stored user carries that name |
| `Accounts.Login` | index.js:62-67 | succeeds exactly when some stored user equals the given username and password; otherwise fails with "Invalid credentials"; reads the user store only |
| `Accounts.AppendKeepsUsernamesUnique` | index.js:55-57 | appending a user whose name is not taken keeps usernames pairwise distinct |
| `Accounts.LoginAfterRegister` | index.js:57 | a user just appended can log in with the credentials they registered |
| `Accounts.LoginRefusesWrongPassword` | index.js:64 | with distinct usernames, a registered name with any other password is refused |
| `Service.WithoutReviewsBy` | index.js:88 | the remaining list is no longer than the old one, and holds only reviews of the old list by other users |
| `Service.WithoutReviewsByKeepsOthers` | index.js:88 | after deletion no review by the user remains; every review by someone else remains; the survivors keep their relative order |
| `Service.WithoutReviewsByIdempotent` | index.js:88 | deleting a user's reviews twice gives the same list as deleting them once |
| `Service.FindBookIgnoresReviews` | index.js:84 | the ISBN search gives the same position on catalogues that differ only in reviews |
| `Service.ReviewsAfterAdd` | index.js:77 | after an append to the found book, the review lookup for that ISBN returns the old reviews followed by the new one |
| `Service.ReviewsAfterDelete` | index.js:88 | after a deletion on the found book, the review lookup for that ISBN returns no review by that user |
| `Service.Store.constructor` | index.js:7-15 | the store starts with the seed catalogue and no users, with its invariant established |
| `Service.Store.Register` | index.js:52-59 | rejects a username or password that is not given (`Present`: absent or empty), then a username already present; otherwise appends exactly one user at the end; errors leave users unchanged; books never change; usernames stay distinct |
| `Service.Store.AddReview` | index.js:70-79 | checks, in this order, a username or review that is not given (`Present`), unknown ISBN and unregistered username, each as an if-and-only-if; errors change nothing; on success only the first matching book changes, gaining one written review at the end; users and all listings unchanged |
| `Service.Store.DeleteReview` | index.js:82-90 | fails on an unknown ISBN, checked first, then on an unregistered or absent username; errors change nothing; on success only the first matching book's list changes, to the list without that user's reviews |
| `Service.DeleteReviewTwice` | index.js:82-90 | repeating a delete gives the same outcome, and the store ends as a single delete leaves it |
| `Service.RegisterTwice` | index.js:52-59 | registering a fresh name twice gives success, then "User already exists", and the user store holds the name once |

## Left out

- HTTP transport: Express routing, JSON body parsing, status codes (404, 400, 401, 500),
  and sending results and success texts such as "Review added". Each handler's answer is a
  `Result` or `Outcome` value. The error texts are kept in `Message`.
- The one-second `setTimeout` in `getBooksAsync` and the Promise scheduling. Each variant
  is its synchronous computation. The callback's error branch is modelled and shown never
  to be taken.
- The unused `axios` import, the `PORT` environment lookup and `app.listen`.
- Unicode `toLowerCase`: `LowerChar` maps only the ASCII letters A to Z. Every other
  character is kept as is.
- JavaScript truthiness in general: a body field is absent (`None`) or a string. Non-string
  values such as numbers or objects are not modelled. An absent username or password
  compares equal to no stored string, which is what `===` against `undefined` gives.
- Object identity: books are values inside the `books` sequence. The in-place `push` onto
  `book.review` and the reassignment of `book.review` are modelled as replacing that
  element. Every route except GET /async/books serialises its answer in the same turn as its
  lookup, so no alias of a book object is observable there.
- Seed reviews carry `rating` and `comment`; added reviews carry `review` text. Both are
  kept as the two constructors of `Review`, with no schema check.
- `Catalog.AsyncBooks`: the source reads the shared catalogue only when the one-second timer
  fires, so a review added or deleted during the delay appears in its answer. The model takes
  the catalogue it is given, and its "same as GET /books" holds for the catalogue as it stands
  when the timer fires.

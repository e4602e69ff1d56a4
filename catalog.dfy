/** The catalogue and its read-only lookups: by ISBN, by author, by title, the
    reviews of one book, the whole list, and the Promise-style and callback-style
    variants of these routes. Every lookup is a scan of the catalogue in storage order. */
module Catalog {
  import opened Seqs
  import opened Text
  import opened Bookstore

  /** The catalogue the store starts with: five books, no two sharing an ISBN. */
  function Seed(): (r: seq<Book>)
    ensures |r| == 5 && IsbnsDistinct(r)
  {
    [ Book("113", "Atomic Habits", "James Clear", [], "jamesc"),
      Book("221", "The Power of Now", "Eckhart Tolle", [], "eckhart5"),
      Book("432", "Think and Grow Rich", "Napoleon Hill", [], "hillnap"),
      Book("531", "The 7 Habits of Highly Effective People", "Stephen R. Covey",
           [ Rated("user7", 5, "Essential habits for personal and professional success."),
             Rated("user8", 4, "Practical advice that resonates deeply.") ],
           "stephencon"),
      Book("455", "Outwitting the Devil", "Napoleon Hill", [], "hillnap") ]
  }

  // ---------------------------------------------------------------------------
  // Matching rules

  /** The author lookup's rule: the author equals the query once both are lower-cased. */
  predicate WrittenBy(b: Book, author: string)
  {
    Lower(b.author) == Lower(author)
  }

  /** The title lookup's rule: the lower-cased title contains the lower-cased query. */
  predicate TitleMentions(b: Book, title: string)
  {
    Includes(Lower(b.title), Lower(title))
  }

  function HasIsbn(isbn: string): Book -> bool
  {
    (b: Book) => b.isbn == isbn
  }

  function ByAuthor(author: string): Book -> bool
  {
    (b: Book) => WrittenBy(b, author)
  }

  function ByTitle(title: string): Book -> bool
  {
    (b: Book) => TitleMentions(b, title)
  }

  /** Position of the first book carrying `isbn`. */
  function FindBook(books: seq<Book>, isbn: string): Option<nat>
  {
    Find(books, HasIsbn(isbn))
  }

  /** `i` is the position of the first book of the catalogue that carries `isbn`. */
  ghost predicate FirstWithIsbn(books: seq<Book>, isbn: string, i: int)
  {
    0 <= i < |books| && books[i].isbn == isbn && forall j :: 0 <= j < i ==> books[j].isbn != isbn
  }

  /** No two books of the catalogue share an ISBN. */
  ghost predicate IsbnsDistinct(books: seq<Book>)
  {
    forall i, j :: 0 <= i < j < |books| ==> books[i].isbn != books[j].isbn
  }

  /** Two catalogues list the same books in the same places, reviews aside. */
  ghost predicate SameListings(a: seq<Book>, b: seq<Book>)
  {
    |a| == |b| &&
    forall i :: 0 <= i < |a| ==>
      a[i].isbn == b[i].isbn && a[i].title == b[i].title &&
      a[i].author == b[i].author && a[i].owner == b[i].owner
  }

  // ---------------------------------------------------------------------------
  // Synchronous lookups

  /** GET /books/isbn/:isbn. */
  function BookByIsbn(books: seq<Book>, isbn: string): (r: Result<Book>)
    ensures r.Err? <==> forall i :: 0 <= i < |books| ==> books[i].isbn != isbn
    ensures r.Err? ==> r.error == BookNotFound
    ensures r.Ok? ==> exists i :: FirstWithIsbn(books, isbn, i) && r.value == books[i]
  {
    match FindBook(books, isbn)
    case None => Err(BookNotFound)
    case Some(i) =>
      assert FirstWithIsbn(books, isbn, i);
      Ok(books[i])
  }

  /** GET /books/author/:author. */
  function BooksByAuthor(books: seq<Book>, author: string): (r: Result<seq<Book>>)
    ensures r.Err? <==> forall i :: 0 <= i < |books| ==> !WrittenBy(books[i], author)
    ensures r.Err? ==> r.error == NoBooksForAuthor
    ensures r.Ok? ==> OrderedMatches(books, ByAuthor(author), r.value)
  {
    var found := Filter(books, ByAuthor(author));
    FilterOrdered(books, ByAuthor(author));
    if |found| == 0 then Err(NoBooksForAuthor)
    else
      assert found[0] in books && WrittenBy(found[0], author);
      Ok(found)
  }

  /** GET /books/title/:title. */
  function BooksByTitle(books: seq<Book>, title: string): (r: Result<seq<Book>>)
    ensures r.Err? <==> forall i :: 0 <= i < |books| ==> !TitleMentions(books[i], title)
    ensures r.Err? ==> r.error == NoBooksForTitle
    ensures r.Ok? ==> OrderedMatches(books, ByTitle(title), r.value)
  {
    var found := Filter(books, ByTitle(title));
    FilterOrdered(books, ByTitle(title));
    if |found| == 0 then Err(NoBooksForTitle)
    else
      assert found[0] in books && TitleMentions(found[0], title);
      Ok(found)
  }

  /** GET /books/:isbn/review: the reviews of the book the ISBN lookup finds. */
  function ReviewsByIsbn(books: seq<Book>, isbn: string): (r: Result<seq<Review>>)
    ensures r.Err? <==> BookByIsbn(books, isbn).Err?
    ensures r.Err? ==> r.error == BookNotFound
    ensures r.Ok? ==> r.value == BookByIsbn(books, isbn).value.reviews
  {
    match FindBook(books, isbn)
    case None => Err(BookNotFound)
    case Some(i) => Ok(books[i].reviews)
  }

  /** With distinct ISBNs, the ISBN lookup returns exactly the book carrying the ISBN. */
  lemma BookByIsbnIsTheBook(books: seq<Book>, i: nat)
    requires IsbnsDistinct(books) && i < |books|
    ensures BookByIsbn(books, books[i].isbn) == Ok(books[i])
  {
  }

  /** Author queries that differ only in the case of their letters give the same answer. */
  lemma AuthorLookupIgnoresCase(books: seq<Book>, a1: string, a2: string)
    requires SameUpToCase(a1, a2)
    ensures BooksByAuthor(books, a1) == BooksByAuthor(books, a2)
  {
    LowerEqualIff(a1, a2);
    FilterCongruent(books, ByAuthor(a1), ByAuthor(a2));
  }

  /** Title queries that differ only in the case of their letters give the same answer. */
  lemma TitleLookupIgnoresCase(books: seq<Book>, t1: string, t2: string)
    requires SameUpToCase(t1, t2)
    ensures BooksByTitle(books, t1) == BooksByTitle(books, t2)
  {
    LowerEqualIff(t1, t2);
    FilterCongruent(books, ByTitle(t1), ByTitle(t2));
  }

  /** An author query and its lower-cased form give the same answer. */
  lemma AuthorQueryLowered(books: seq<Book>, author: string)
    ensures BooksByAuthor(books, Lower(author)) == BooksByAuthor(books, author)
  {
    LowerIdempotent(author);
    LowerEqualIff(Lower(author), author);
    AuthorLookupIgnoresCase(books, Lower(author), author);
  }

  /** A title query and its lower-cased form give the same answer. */
  lemma TitleQueryLowered(books: seq<Book>, title: string)
    ensures BooksByTitle(books, Lower(title)) == BooksByTitle(books, title)
  {
    LowerIdempotent(title);
    LowerEqualIff(Lower(title), title);
    TitleLookupIgnoresCase(books, Lower(title), title);
  }

  /** A title that mentions "Habit" at position `i` matches the title query "habit". */
  lemma HabitAt(b: Book, i: nat)
    requires i + 5 <= |b.title|
    requires b.title[i] == 'H' && b.title[i + 1] == 'a' && b.title[i + 2] == 'b'
    requires b.title[i + 3] == 'i' && b.title[i + 4] == 't'
    ensures TitleMentions(b, "habit")
  {
    var q := Lower("habit");
    assert q == "habit";
    assert Lower(b.title)[i..i + 5] == q;
    assert OccursAt(Lower(b.title), q, i);
    IncludesIff(Lower(b.title), q);
  }

  /** A title without the letter b, in either case, does not match the title query "habit". */
  lemma NoHabitWithoutB(b: Book)
    requires 'b' !in b.title && 'B' !in b.title
    ensures !TitleMentions(b, "habit")
  {
    var q := Lower("habit");
    assert q[2] == 'b';
    assert 'b' !in Lower(b.title) by {
      forall k | 0 <= k < |b.title|
        ensures Lower(b.title)[k] != 'b'
      {
        assert b.title[k] != 'b' && b.title[k] != 'B';
      }
    }
    if Includes(Lower(b.title), q) {
      IncludedCharsOccur(Lower(b.title), q, 2);
    }
  }

  /** "Atomic Habits" and "The 7 Habits of Highly Effective People" match the title query "habit". */
  lemma SeedTitlesWithHabit()
    ensures TitleMentions(Seed()[0], "habit") && TitleMentions(Seed()[3], "habit")
  {
    var b0, b3 := Seed()[0], Seed()[3];
    assert b0.title == "Atomic Habits";
    assert b0.title[7] == 'H' && b0.title[8] == 'a' && b0.title[9] == 'b' && b0.title[10] == 'i' && b0.title[11] == 't';
    HabitAt(b0, 7);
    assert b3.title == "The 7 Habits of Highly Effective People";
    assert b3.title[6] == 'H' && b3.title[7] == 'a' && b3.title[8] == 'b' && b3.title[9] == 'i' && b3.title[10] == 't';
    HabitAt(b3, 6);
  }

  /** "The Power of Now" does not match the title query "habit". */
  lemma PowerOfNowLacksHabit()
    ensures !TitleMentions(Seed()[1], "habit")
  {
    assert Seed()[1].title == "The Power of Now";
    NoHabitWithoutB(Seed()[1]);
  }

  /** "Think and Grow Rich" does not match the title query "habit". */
  lemma ThinkAndGrowRichLacksHabit()
    ensures !TitleMentions(Seed()[2], "habit")
  {
    assert Seed()[2].title == "Think and Grow Rich";
    NoHabitWithoutB(Seed()[2]);
  }

  /** "Outwitting the Devil" does not match the title query "habit". */
  lemma OutwittingTheDevilLacksHabit()
    ensures !TitleMentions(Seed()[4], "habit")
  {
    assert Seed()[4].title == "Outwitting the Devil";
    NoHabitWithoutB(Seed()[4]);
  }

  /** Filtering five books of which exactly the first and the fourth match. */
  lemma FilterFirstAndFourth(books: seq<Book>, p: Book -> bool)
    requires |books| == 5
    requires p(books[0]) && !p(books[1]) && !p(books[2]) && p(books[3]) && !p(books[4])
    ensures Filter(books, p) == [books[0], books[3]]
  {
    assert Filter(books[4..], p) == [];
    assert Filter(books[3..], p) == [books[3]];
    assert Filter(books[2..], p) == [books[3]];
    assert Filter(books[1..], p) == [books[3]];
  }

  /** On the seed catalogue, the title query "habit" finds "Atomic Habits" and
      "The 7 Habits of Highly Effective People", and nothing else. */
  lemma HabitTitleExample()
    ensures BooksByTitle(Seed(), "habit") == Ok([Seed()[0], Seed()[3]])
  {
    SeedTitlesWithHabit();
    PowerOfNowLacksHabit();
    ThinkAndGrowRichLacksHabit();
    OutwittingTheDevilLacksHabit();
    FilterFirstAndFourth(Seed(), ByTitle("habit"));
  }

  /** Filtering five books of which exactly the third and the fifth match. */
  lemma FilterThirdAndFifth(books: seq<Book>, p: Book -> bool)
    requires |books| == 5
    requires !p(books[0]) && !p(books[1]) && p(books[2]) && !p(books[3]) && p(books[4])
    ensures Filter(books, p) == [books[2], books[4]]
  {
    assert Filter(books[4..], p) == [books[4]];
    assert Filter(books[3..], p) == [books[4]];
    assert Filter(books[2..], p) == [books[2], books[4]];
    assert Filter(books[1..], p) == [books[2], books[4]];
  }

  /** Both of Napoleon Hill's seed books match the author query "napoleon hill". */
  lemma NapoleonHillWrote()
    ensures WrittenBy(Seed()[2], "napoleon hill") && WrittenBy(Seed()[4], "napoleon hill")
  {
    assert Seed()[2].author == Seed()[4].author == "Napoleon Hill";
    assert Lower("Napoleon Hill") == Lower("napoleon hill");
  }

  /** No other seed author matches the query "napoleon hill": each starts with another letter. */
  lemma OtherSeedAuthors()
    ensures !WrittenBy(Seed()[0], "napoleon hill") && !WrittenBy(Seed()[1], "napoleon hill")
    ensures !WrittenBy(Seed()[3], "napoleon hill")
  {
    var q := Lower("napoleon hill");
    assert q[0] == 'n';
    assert Lower(Seed()[0].author)[0] == 'j';
    assert Lower(Seed()[1].author)[0] == 'e';
    assert Lower(Seed()[3].author)[0] == 's';
  }

  /** On the seed catalogue, the author query "napoleon hill" finds both of
      Napoleon Hill's books, in catalogue order. */
  lemma NapoleonHillExample()
    ensures BooksByAuthor(Seed(), "napoleon hill") == Ok([Seed()[2], Seed()[4]])
  {
    NapoleonHillWrote();
    OtherSeedAuthors();
    FilterThirdAndFifth(Seed(), ByAuthor("napoleon hill"));
  }

  // ---------------------------------------------------------------------------
  // Callback-style and Promise-style variants

  /** What the callback of the delayed listing is handed: an error, or the data. */
  datatype Callback<T> = Callback(err: Option<string>, data: T)

  /** The delayed listing: hands the catalogue to its callback with no error. */
  function GetBooksAsync(books: seq<Book>): Callback<seq<Book>>
  {
    Callback(None, books)
  }

  /** GET /async/books: answers with the whole catalogue, as GET /books does, and
      never takes its error branch. */
  function AsyncBooks(books: seq<Book>): (r: Result<seq<Book>>)
    ensures r == Ok(books)
  {
    var c := GetBooksAsync(books);
    if c.err.Some? then Err(FetchFailed) else Ok(c.data)
  }

  /** How a Promise settles: fulfilled with a value or rejected with a message. */
  datatype Settled<T> = Fulfilled(value: T) | Rejected(reason: string)

  /** The settlement that carries the same answer as a synchronous lookup result. */
  function Settle<T>(r: Result<T>): Settled<T>
  {
    match r
    case Ok(v) => Fulfilled(v)
    case Err(e) => Rejected(Message(e))
  }

  /** findBookByISBN of GET /promise/books/isbn/:isbn. */
  function FindBookByIsbnPromise(books: seq<Book>, isbn: string): (r: Settled<Book>)
    ensures r == Settle(BookByIsbn(books, isbn))
  {
    var i := FindBook(books, isbn);
    if i.None? then Rejected("Book not found") else Fulfilled(books[i.value])
  }

  /** findBooksByAuthor of GET /promise/books/author/:author. */
  function FindBooksByAuthorPromise(books: seq<Book>, author: string): (r: Settled<seq<Book>>)
    ensures r == Settle(BooksByAuthor(books, author))
  {
    var authorBooks := Filter(books, ByAuthor(author));
    if |authorBooks| == 0 then Rejected("No books found for this author") else Fulfilled(authorBooks)
  }

  /** findBooksByTitle of GET /promise/books/title/:title. */
  function FindBooksByTitlePromise(books: seq<Book>, title: string): (r: Settled<seq<Book>>)
    ensures r == Settle(BooksByTitle(books, title))
  {
    var titleBooks := Filter(books, ByTitle(title));
    if |titleBooks| == 0 then Rejected("No books found for this title") else Fulfilled(titleBooks)
  }
}

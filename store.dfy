/** The application's state and the handlers that change it: registration,
    adding a review and deleting a user's reviews. */
module Service {
  import opened Seqs
  import opened Bookstore
  import opened Catalog
  import opened Accounts

  function NotBy(username: string): Review -> bool
  {
    (rv: Review) => rv.username != username
  }

  /** The review list with every review by `username` removed. */
  function WithoutReviewsBy(reviews: seq<Review>, username: string): (r: seq<Review>)
    ensures |r| <= |reviews|
    ensures forall k :: 0 <= k < |r| ==> r[k] in reviews && r[k].username != username
  {
    var r := Filter(reviews, NotBy(username));
    assert forall k :: 0 <= k < |r| ==> NotBy(username)(r[k]);
    r
  }

  /** Deleting removes every review by the user, keeps every review by anyone
      else, and keeps the survivors in their original order. */
  lemma WithoutReviewsByKeepsOthers(reviews: seq<Review>, username: string)
    ensures forall rv :: rv in WithoutReviewsBy(reviews, username) ==> rv.username != username
    ensures forall i :: 0 <= i < |reviews| && reviews[i].username != username ==>
              reviews[i] in WithoutReviewsBy(reviews, username)
    ensures OrderedMatches(reviews, NotBy(username), WithoutReviewsBy(reviews, username))
  {
    FilterOrdered(reviews, NotBy(username));
    var r := WithoutReviewsBy(reviews, username);
    forall rv | rv in r
      ensures rv.username != username
    {
      var k :| 0 <= k < |r| && r[k] == rv;
      assert NotBy(username)(r[k]);
    }
    forall i | 0 <= i < |reviews| && reviews[i].username != username
      ensures reviews[i] in r
    {
      assert NotBy(username)(reviews[i]);
    }
  }

  /** Deleting a user's reviews twice leaves the same list as deleting them once. */
  lemma WithoutReviewsByIdempotent(reviews: seq<Review>, username: string)
    ensures WithoutReviewsBy(WithoutReviewsBy(reviews, username), username) == WithoutReviewsBy(reviews, username)
  {
    FilterIdempotent(reviews, NotBy(username));
  }

  /** The ISBN search depends only on the ISBNs, so edits to reviews do not move it. */
  lemma FindBookIgnoresReviews(a: seq<Book>, b: seq<Book>, isbn: string)
    requires SameListings(a, b)
    ensures FindBook(a, isbn) == FindBook(b, isbn)
  {
  }

  /** After a review is appended to the book the ISBN search finds, the review
      lookup for that ISBN lists the old reviews followed by the new one. */
  lemma ReviewsAfterAdd(books: seq<Book>, isbn: string, rv: Review)
    requires FindBook(books, isbn).Some?
    ensures var i := FindBook(books, isbn).value;
            ReviewsByIsbn(books[i := books[i].(reviews := books[i].reviews + [rv])], isbn)
              == Ok(books[i].reviews + [rv])
  {
    var i := FindBook(books, isbn).value;
    FindBookIgnoresReviews(books, books[i := books[i].(reviews := books[i].reviews + [rv])], isbn);
  }

  /** After a user's reviews are deleted from the book the ISBN search finds, the
      review lookup for that ISBN lists no review by that user. */
  lemma ReviewsAfterDelete(books: seq<Book>, isbn: string, username: string)
    requires FindBook(books, isbn).Some?
    ensures var i := FindBook(books, isbn).value;
            var r := ReviewsByIsbn(books[i := books[i].(reviews := WithoutReviewsBy(books[i].reviews, username))], isbn);
            r.Ok? && forall k :: 0 <= k < |r.value| ==> r.value[k].username != username
  {
    var i := FindBook(books, isbn).value;
    FindBookIgnoresReviews(books, books[i := books[i].(reviews := WithoutReviewsBy(books[i].reviews, username))], isbn);
    WithoutReviewsByKeepsOthers(books[i].reviews, username);
  }

  /** The two in-memory stores, updated in place by the handlers. */
  class Store {
    var books: seq<Book>
    var users: seq<User>

    /** Usernames are distinct and every stored account has a name and a password
        (registration enforces both); ISBNs stay distinct because no handler adds
        a book or changes an ISBN. */
    ghost predicate Valid()
      reads this
    {
      && UniqueUsernames(users)
      && (forall k :: 0 <= k < |users| ==> users[k].username != "" && users[k].password != "")
      && IsbnsDistinct(books)
    }

    /** The store as the process starts: the seed catalogue and no users. */
    constructor ()
      ensures Valid()
      ensures books == Seed() && users == []
    {
      books := Seed();
      users := [];
    }

    /** POST /register. */
    method Register(username: Option<string>, password: Option<string>) returns (r: Outcome)
      requires Valid()
      modifies this
      ensures Valid()
      ensures books == old(books)
      ensures r == Failed(CredentialsRequired) <==> !Present(username) || !Present(password)
      ensures r == Failed(UserExists) <==>
                Present(username) && Present(password) && IsRegistered(old(users), username.value)
      ensures r == Done <==>
                Present(username) && Present(password) && !IsRegistered(old(users), username.value)
      ensures r.Failed? ==> users == old(users)
      ensures r.Done? ==> users == old(users) + [User(username.value, password.value)]
    {
      if !Present(username) || !Present(password) {
        return Failed(CredentialsRequired);
      }
      if FindUser(users, username.value).Some? {
        return Failed(UserExists);
      }
      AppendKeepsUsernamesUnique(users, User(username.value, password.value));
      users := users + [User(username.value, password.value)];
      r := Done;
    }

    /** POST /books/:isbn/review. The checks run in this order: both fields given,
        the ISBN known, the username registered. */
    method AddReview(isbn: string, username: Option<string>, review: Option<string>) returns (r: Outcome)
      requires Valid()
      modifies this
      ensures Valid()
      ensures users == old(users) && SameListings(old(books), books)
      ensures r == Failed(ReviewFieldsRequired) <==> !Present(username) || !Present(review)
      ensures r == Failed(BookNotFound) <==>
                Present(username) && Present(review) && FindBook(old(books), isbn).None?
      ensures r == Failed(UnauthorizedUser) <==>
                Present(username) && Present(review) && FindBook(old(books), isbn).Some? &&
                !IsRegistered(users, username.value)
      ensures r == Done <==>
                Present(username) && Present(review) && FindBook(old(books), isbn).Some? &&
                IsRegistered(users, username.value)
      ensures r.Failed? ==> books == old(books)
      ensures r.Done? ==>
                var i := FindBook(old(books), isbn).value;
                books == old(books)[i := old(books)[i].(reviews := old(books)[i].reviews + [Written(username.value, review.value)])]
    {
      if !Present(username) || !Present(review) {
        return Failed(ReviewFieldsRequired);
      }
      var found := FindBook(books, isbn);
      if found.None? {
        return Failed(BookNotFound);
      }
      if FindUser(users, username.value).None? {
        return Failed(UnauthorizedUser);
      }
      var i := found.value;
      books := books[i := books[i].(reviews := books[i].reviews + [Written(username.value, review.value)])];
      r := Done;
    }

    /** DELETE /books/:isbn/review. The ISBN is checked first, then the username;
        a user with no review on the book still succeeds. */
    method DeleteReview(isbn: string, username: Option<string>) returns (r: Outcome)
      requires Valid()
      modifies this
      ensures Valid()
      ensures users == old(users) && SameListings(old(books), books)
      ensures r == Failed(BookNotFound) <==> FindBook(old(books), isbn).None?
      ensures r == Failed(UnauthorizedUser) <==>
                FindBook(old(books), isbn).Some? && !(username.Some? && IsRegistered(users, username.value))
      ensures r == Done <==>
                FindBook(old(books), isbn).Some? && username.Some? && IsRegistered(users, username.value)
      ensures r.Failed? ==> books == old(books)
      ensures r.Done? ==>
                var i := FindBook(old(books), isbn).value;
                books == old(books)[i := old(books)[i].(reviews := WithoutReviewsBy(old(books)[i].reviews, username.value))]
    {
      var found := FindBook(books, isbn);
      if found.None? {
        return Failed(BookNotFound);
      }
      if username.None? || FindUser(users, username.value).None? {
        return Failed(UnauthorizedUser);
      }
      var i := found.value;
      books := books[i := books[i].(reviews := WithoutReviewsBy(books[i].reviews, username.value))];
      r := Done;
    }
  }

  /** Sending the same delete twice: the second answer equals the first, and the
      store ends as a single delete leaves it. */
  method DeleteReviewTwice(store: Store, isbn: string, username: Option<string>) returns (first: Outcome, second: Outcome)
    requires store.Valid()
    modifies store
    ensures store.Valid()
    ensures second == first
    ensures first == Done <==>
              FindBook(old(store.books), isbn).Some? && username.Some? && IsRegistered(old(store.users), username.value)
    ensures store.users == old(store.users)
    ensures first.Failed? ==> store.books == old(store.books)
    ensures first.Done? ==>
              var i := FindBook(old(store.books), isbn).value;
              store.books == old(store.books)[i := old(store.books)[i].(reviews := WithoutReviewsBy(old(store.books)[i].reviews, username.value))]
  {
    first := store.DeleteReview(isbn, username);
    ghost var once := store.books;
    FindBookIgnoresReviews(old(store.books), once, isbn);
    second := store.DeleteReview(isbn, username);
    if first.Done? {
      var i := FindBook(once, isbn).value;
      WithoutReviewsByIdempotent(old(store.books)[i].reviews, username.value);
      assert store.books == once;
    }
  }

  /** Registering the same name twice: the first call succeeds, the second is
      refused as a duplicate and leaves the user store as the first call left it. */
  method RegisterTwice(store: Store, username: Option<string>, password: Option<string>) returns (first: Outcome, second: Outcome)
    requires store.Valid()
    requires Present(username) && Present(password) && !IsRegistered(store.users, username.value)
    modifies store
    ensures store.Valid()
    ensures first == Done && second == Failed(UserExists)
    ensures store.users == old(store.users) + [User(username.value, password.value)]
    ensures store.books == old(store.books)
  {
    first := store.Register(username, password);
    assert store.users[|store.users| - 1].username == username.value;
    second := store.Register(username, password);
  }
}

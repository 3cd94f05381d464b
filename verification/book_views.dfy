/** The book listings: the optional availability and exclude-own filters of the
    book list, the user's own books, and the books available to them. */
module BookViews {
  import opened Base
  import opened Query
  import opened Books

  /** The two query parameters the book list reads; any value but "true" leaves the
      corresponding filter off. */
  datatype ListParams = ListParams(available: Option<string>, excludeOwn: Option<string>)

  predicate Listed(b: Book, user: UserId, params: ListParams) {
    && (params.available == Some("true") ==> b.isAvailable)
    && (params.excludeOwn == Some("true") ==> b.owner != user)
  }

  /** The book list, newest first. */
  function ListBooks(books: map<BookId, Book>, n: nat, user: UserId, params: ListParams): (ids: seq<BookId>)
    ensures forall k :: k in ids ==> k in books && k < n
    ensures params.available == Some("true") ==> forall k :: k in ids ==> books[k].isAvailable
    ensures params.excludeOwn == Some("true") ==> forall k :: k in ids ==> books[k].owner != user
    ensures params.available != Some("true") && params.excludeOwn != Some("true") ==>
              forall k :: k in ids <==> k in books && k < n
    ensures forall k :: k in ids <==> k < n && k in books && Listed(books[k], user, params)
    ensures Descending(ids)
  {
    Where(books, n, b => Listed(b, user, params))
  }

  /** The user's own books among those the list would show. */
  function MyBooks(books: map<BookId, Book>, n: nat, user: UserId, params: ListParams): (ids: seq<BookId>)
    ensures forall k :: k in ids ==> k in books && books[k].owner == user
    ensures forall k :: k in ids <==> k in ListBooks(books, n, user, params) && books[k].owner == user
    ensures Descending(ids)
  {
    Where(books, n, b => Listed(b, user, params) && b.owner == user)
  }

  /** The available books of other users among those the list would show. */
  function AvailableBooks(books: map<BookId, Book>, n: nat, user: UserId, params: ListParams): (ids: seq<BookId>)
    ensures forall k :: k in ids ==> k in books && books[k].isAvailable && books[k].owner != user
    ensures forall k :: k in ids <==>
              k in ListBooks(books, n, user, params) && books[k].isAvailable && books[k].owner != user
    ensures Descending(ids)
  {
    Where(books, n, b => Listed(b, user, params) && b.isAvailable && b.owner != user)
  }

  /** No book is in both the user's own listing and their available listing. */
  lemma MyBooksDisjointFromAvailable(books: map<BookId, Book>, n: nat, user: UserId, params: ListParams)
    ensures forall k :: k in MyBooks(books, n, user, params) ==> k !in AvailableBooks(books, n, user, params)
  {
  }

  /** Because the user's own listing goes through the list's filters, asking it to exclude
      the user's own books leaves it empty. */
  lemma ExcludeOwnEmptiesMyBooks(books: map<BookId, Book>, n: nat, user: UserId, params: ListParams)
    requires params.excludeOwn == Some("true")
    ensures MyBooks(books, n, user, params) == []
  {
    DescendingUnique(MyBooks(books, n, user, params), []);
  }
}

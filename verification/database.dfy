/** The stored state the backend works on (the users, books and trades tables) and
    the operations that change it: saving a trade, which may complete it, and the
    view actions that create and update trades and create, update and delete books.
    Each database write is one atomic step on these in-memory tables. */
module Database {
  import opened Base
  import opened Users
  import opened Books
  import opened Trades
  import opened TradeRules
  import opened TradeViews

  /** The users and books a trade names are stored. */
  predicate TradeRefsExist(t: Trade, users: map<UserId, User>, books: map<BookId, Book>) {
    t.requester in users && t.recipient in users && BooksExist(t, books)
  }

  /** Whether trade `t` refers to book `b` in any of its three book fields. */
  predicate Mentions(t: Trade, b: BookId) {
    t.requestedBook == b || t.offeredBook == Some(b) || t.recipientOfferedBook == Some(b)
  }

  /** Deleting a book deletes, by cascade, every trade that refers to it; the other trades
      stay as they were. */
  function CascadeDelete(trades: map<TradeId, Trade>, b: BookId): (r: map<TradeId, Trade>)
    ensures forall k :: k in r <==> k in trades && !Mentions(trades[k], b)
    ensures forall k :: k in r ==> r[k] == trades[k]
  {
    map k | k in trades && !Mentions(trades[k], b) :: trades[k]
  }

  /** Book keys below the counter, every owner a stored user, character fields within limits. */
  predicate BooksValid(books: map<BookId, Book>, users: map<UserId, User>, nextBookId: nat) {
    forall b :: b in books ==> b < nextBookId && books[b].owner in users && WithinLimits(books[b])
  }

  /** Trade keys below the counter, every referenced user and book stored. */
  predicate TradesValid(trades: map<TradeId, Trade>, users: map<UserId, User>, books: map<BookId, Book>,
                        nextTradeId: nat) {
    forall k :: k in trades ==> k < nextTradeId && TradeRefsExist(trades[k], users, books)
  }

  /** Completing a trade between stored users keeps the books table valid. */
  lemma TransferKeepsBooksValid(books: map<BookId, Book>, users: map<UserId, User>, n: nat, t: Trade)
    requires BooksValid(books, users, n) && BooksExist(t, books)
    requires t.requester in users && t.recipient in users
    ensures BooksValid(TransferBooks(books, t), users, n)
  {
    var r := TransferBooks(books, t);
    forall b | b in r
      ensures b < n && r[b].owner in users && WithinLimits(r[b])
    {
      assert r[b].(owner := books[b].owner, isAvailable := books[b].isAvailable) == books[b];
    }
  }

  /** Only the key sets matter to the tables' validity, so writes that keep the keys keep it;
      a written trade whose references resolve keeps the trades table valid. */
  lemma WriteKeepsValid(trades: map<TradeId, Trade>, users: map<UserId, User>, books: map<BookId, Book>,
                        nb: nat, n: nat, id: TradeId, s: Trade,
                        users': map<UserId, User>, books': map<BookId, Book>)
    requires BooksValid(books', users, nb) && TradesValid(trades, users, books, n)
    requires id in trades || id == n
    requires TradeRefsExist(s, users, books)
    requires users'.Keys == users.Keys && books'.Keys == books.Keys
    ensures BooksValid(books', users', nb)
    ensures TradesValid(trades[id := s], users', books', if id == n then n + 1 else n)
  {
  }

  /** No stored trade carries a confirmation. */
  predicate Unconfirmed(trades: map<TradeId, Trade>) {
    forall k :: k in trades ==> !trades[k].requesterConfirmed && !trades[k].recipientConfirmed
  }

  /** Every stored trade satisfies the ownership invariants against the current owners. */
  predicate AllOwnershipHolds(trades: map<TradeId, Trade>, books: map<BookId, Book>) {
    forall k :: k in trades ==> BooksExist(trades[k], books) && OwnershipHolds(trades[k], books)
  }

  /** The ownership invariants survive any change that keeps (a subset of) the trades, keeps
      every book they name, and moves no book to another owner. */
  lemma OwnershipCarriesOver(trades: map<TradeId, Trade>, books: map<BookId, Book>,
                             trades': map<TradeId, Trade>, books': map<BookId, Book>)
    requires AllOwnershipHolds(trades, books)
    requires forall k :: k in trades' ==> k in trades && trades'[k] == trades[k]
    requires forall k :: k in trades' ==> BooksExist(trades'[k], books')
    requires forall b :: b in books' && b in books ==> books'[b].owner == books[b].owner
    ensures AllOwnershipHolds(trades', books')
  {
  }

  /** Only the availability flags change when an acceptance marks books, so validity holds. */
  lemma MarkKeepsValid(trades: map<TradeId, Trade>, users: map<UserId, User>, books: map<BookId, Book>,
                       nb: nat, n: nat, t: Trade)
    requires BooksValid(books, users, nb) && TradesValid(trades, users, books, n) && BooksExist(t, books)
    ensures BooksValid(MarkAccepted(books, t), users, nb)
    ensures TradesValid(trades, users, MarkAccepted(books, t), n)
  {
    var r := MarkAccepted(books, t);
    forall b | b in r
      ensures b < nb && r[b].owner in users && WithinLimits(r[b])
    {
      assert r[b] == books[b].(isAvailable := r[b].isAvailable);
    }
  }

  class Store {
    var users: map<UserId, User>
    var books: map<BookId, Book>
    var trades: map<TradeId, Trade>
    /** The next primary keys the tables will hand out. */
    var nextBookId: BookId
    var nextTradeId: TradeId

    /** Keys below the counters, foreign keys resolve, character fields within their limits. */
    ghost predicate Valid()
      reads this
    {
      BooksValid(books, users, nextBookId) && TradesValid(trades, users, books, nextTradeId)
    }

    /** What the endpoints keep true: no stored trade carries a confirmation (no endpoint
        sets one) and every stored trade satisfies the ownership invariants. */
    ghost predicate ApiInvariant()
      reads this
    {
      Valid() && Unconfirmed(trades) && AllOwnershipHolds(trades, books)
    }

    /** An empty catalogue over a given set of registered users. */
    constructor (users: map<UserId, User>)
      ensures Valid() && ApiInvariant()
      ensures this.users == users && books == map[] && trades == map[]
      ensures nextBookId == 0 && nextTradeId == 0
    {
      this.users := users;
      books := map[];
      trades := map[];
      nextBookId := 0;
      nextTradeId := 0;
    }

    /** Trade.save: run the ownership checks; if the trade is accepted and confirmed enough,
        complete it, hand its books over and credit both users; then write the trade
        (inserting it when `id` is the next key). */
    method SaveTrade(id: TradeId, t: Trade) returns (r: Result<Trade, TradeError>)
      requires Valid()
      requires id in trades || id == nextTradeId
      requires TradeRefsExist(t, users, books)
      modifies this
      ensures Valid()
      ensures Clean(t, old(books)).Some? ==> r == Err(Clean(t, old(books)).value) && unchanged(this)
      ensures Clean(t, old(books)).None? ==>
                && r == Ok(SavedForm(t))
                && trades == old(trades)[id := SavedForm(t)]
                && books == (if CanBeCompleted(t) then TransferBooks(old(books), t) else old(books))
                && users == (if CanBeCompleted(t) then CreditParties(old(users), t) else old(users))
                && nextTradeId == (if id == old(nextTradeId) then id + 1 else old(nextTradeId))
                && nextBookId == old(nextBookId)
    {
      var problem := Clean(t, books);
      if problem.Some? {
        return Err(problem.value);
      }
      ghost var users0, books0 := users, books;
      var saved := t;
      if IsCompleted(t) && t.status == Accepted {
        saved := t.(status := Completed);
        TransferKeepsBooksValid(books, users, nextBookId, t);
        TransferOwnership(t);
        CreditBoth(t);
      } else {
        assert BooksValid(books, users, nextBookId);
      }
      WriteKeepsValid(trades, users0, books0, nextBookId, nextTradeId, id, saved, users, books);
      trades := trades[id := saved];
      if id == nextTradeId {
        nextTradeId := nextTradeId + 1;
      }
      r := Ok(saved);
    }

    /** The ownership writes of a completing save, one book at a time. */
    method TransferOwnership(t: Trade)
      requires BooksExist(t, books)
      modifies this`books
      ensures books == TransferBooks(old(books), t)
    {
      if t.tradeType == Swap {
        books := books[t.requestedBook := books[t.requestedBook].(owner := t.requester, isAvailable := true)];
        if t.recipientOfferedBook.Some? {
          var b := t.recipientOfferedBook.value;
          books := books[b := books[b].(owner := t.requester, isAvailable := true)];
        }
        if t.offeredBook.Some? {
          var b := t.offeredBook.value;
          books := books[b := books[b].(owner := t.recipient, isAvailable := true)];
        }
      } else {
        books := books[t.requestedBook := books[t.requestedBook].(owner := t.requester, isAvailable := true)];
      }
    }

    /** The two counter increments of a completing save. */
    method CreditBoth(t: Trade)
      requires t.requester in users && t.recipient in users
      modifies this`users
      ensures users == CreditParties(old(users), t)
    {
      users := users[t.requester := users[t.requester].(successfulTradesCount := users[t.requester].successfulTradesCount + 1)];
      users := users[t.recipient := users[t.recipient].(successfulTradesCount := users[t.recipient].successfulTradesCount + 1)];
    }

    /** Creating a trade: the serializer's checks, the requesting user stamped as requester,
        then a save, which stores the new trade pending and moves nothing. */
    method CreateTrade(user: UserId, recipient: UserId, requestedBook: BookId,
                       offeredBook: Option<BookId>, message: string)
      returns (r: Result<TradeId, ApiError<TradeError>>)
      requires Valid() && user in users
      modifies this
      ensures Valid()
      ensures var v := ValidateCreate(user, recipient, requestedBook, offeredBook, message,
                                      old(users).Keys, old(books));
              && (v.Err? ==> r == Err(BadRequest(v.error)) && unchanged(this))
              && (v.Ok? ==>
                    && r == Ok(old(nextTradeId))
                    && trades == old(trades)[old(nextTradeId) := v.value]
                    && books == old(books) && users == old(users)
                    && nextTradeId == old(nextTradeId) + 1 && nextBookId == old(nextBookId))
      ensures r.Ok? ==> r.value in trades && trades[r.value].requester == user
                        && trades[r.value].status == Pending
      ensures old(ApiInvariant()) ==> ApiInvariant()
    {
      var v := ValidateCreate(user, recipient, requestedBook, offeredBook, message, users.Keys, books);
      if v.Err? {
        return Err(BadRequest(v.error));
      }
      ghost var trades0, books0 := trades, books;
      var id := nextTradeId;
      var saved := SaveTrade(id, v.value);
      if old(ApiInvariant()) {
        OwnershipCarriesOver(trades0[id := v.value], books0, trades, books);
      }
      r := Ok(id);
    }

    /** Marking the books of an accepted trade unavailable, one write per book. */
    method MarkUnavailable(t: Trade)
      requires BooksExist(t, books)
      modifies this`books
      ensures books == MarkAccepted(old(books), t)
    {
      books := books[t.requestedBook := books[t.requestedBook].(isAvailable := false)];
      if t.offeredBook.Some? {
        var b := t.offeredBook.value;
        books := books[b := books[b].(isAvailable := false)];
      }
    }

    /** Updating a trade's status: the trade must be one of the user's; the new status must be
        a listed code and pass the actor guard; an update to 'accepted' first marks the
        requested and offered books unavailable; then the trade is saved with the new status.
        The marks are written before the save and stay if the save's ownership checks fail. */
    method UpdateTrade(user: UserId, id: TradeId, status: Option<string>)
      returns (r: Result<Trade, ApiError<TradeError>>)
      requires Valid() && user in users
      modifies this
      ensures Valid()
      ensures nextBookId == old(nextBookId) && nextTradeId == old(nextTradeId)
      ensures old(id !in trades || !IsParty(trades[id], user)) ==>
                r == Err(NotFound(NoSuchTrade)) && unchanged(this)
      ensures old(id in trades && IsParty(trades[id], user)) ==>
                var t := old(trades[id]);
                var p := ParseUpdate(t, user, status);
                && (p.Err? ==> r == Err(BadRequest(p.error)) && unchanged(this))
                && (p.Ok? ==>
                      var marked := if p.value == Some(Accepted) then MarkAccepted(old(books), t) else old(books);
                      var u := WithStatus(t, p.value);
                      && (Clean(u, marked).Some? ==>
                            && r == Err(ServerError(Clean(u, marked).value))
                            && books == marked && trades == old(trades) && users == old(users))
                      && (Clean(u, marked).None? ==>
                            && r == Ok(SavedForm(u))
                            && trades == old(trades)[id := SavedForm(u)]
                            && books == (if CanBeCompleted(u) then TransferBooks(marked, u) else marked)
                            && users == (if CanBeCompleted(u) then CreditParties(old(users), u) else old(users))))
      ensures old(ApiInvariant()) ==>
                && ApiInvariant()
                && !(r.Err? && r.error.ServerError?)
                && users == old(users)
                && books.Keys == old(books).Keys
                && (forall b :: b in books ==> books[b].owner == old(books)[b].owner)
    {
      if id !in trades || !IsParty(trades[id], user) {
        return Err(NotFound(NoSuchTrade));
      }
      var t := trades[id];
      var p := ParseUpdate(t, user, status);
      if p.Err? {
        return Err(BadRequest(p.error));
      }
      ghost var trades0, books0 := trades, books;
      if p.value == Some(Accepted) {
        MarkKeepsValid(trades, users, books, nextBookId, nextTradeId, t);
        MarkUnavailable(t);
      }
      var u := WithStatus(t, p.value);
      var saved := SaveTrade(id, u);
      match saved
      case Err(e) =>
        r := Err(ServerError(e));
      case Ok(s) =>
        r := Ok(s);
      if old(ApiInvariant()) {
        OwnershipCarriesOver(trades0[id := u], books0, trades, books);
      }
    }

    /** Deleting a trade through the generic destroy action: any party to the trade may
        delete it; nothing else changes. */
    method DeleteTrade(user: UserId, id: TradeId) returns (r: Result<(), ApiError<TradeError>>)
      requires Valid() && user in users
      modifies this
      ensures Valid()
      ensures old(id !in trades || !IsParty(trades[id], user)) ==>
                r == Err(NotFound(NoSuchTrade)) && unchanged(this)
      ensures old(id in trades && IsParty(trades[id], user)) ==>
                && r == Ok(())
                && trades == old(trades) - {id}
                && books == old(books) && users == old(users)
                && nextBookId == old(nextBookId) && nextTradeId == old(nextTradeId)
      ensures old(ApiInvariant()) ==> ApiInvariant()
    {
      if id !in trades || !IsParty(trades[id], user) {
        return Err(NotFound(NoSuchTrade));
      }
      ghost var trades0, books0 := trades, books;
      trades := trades - {id};
      r := Ok(());
      if old(ApiInvariant()) {
        OwnershipCarriesOver(trades0, books0, trades, books);
      }
    }

    /** Creating a book: the serializer's field checks and defaults, the requesting user
        stamped as owner. */
    method CreateBook(user: UserId, input: BookInput) returns (r: Result<BookId, ApiError<BookError>>)
      requires Valid() && user in users
      modifies this
      ensures Valid()
      ensures var c := ValidatedBook(user, input);
              && (c.Err? ==> r == Err(BadRequest(c.error)) && unchanged(this))
              && (c.Ok? ==>
                    && r == Ok(old(nextBookId))
                    && books == old(books)[old(nextBookId) := c.value]
                    && trades == old(trades) && users == old(users)
                    && nextBookId == old(nextBookId) + 1 && nextTradeId == old(nextTradeId))
      ensures r.Ok? ==> books[r.value].owner == user
      ensures old(ApiInvariant()) ==> ApiInvariant()
    {
      var c := ValidatedBook(user, input);
      if c.Err? {
        return Err(BadRequest(c.error));
      }
      ghost var trades0, books0 := trades, books;
      books := books[nextBookId := c.value];
      nextBookId := nextBookId + 1;
      r := Ok(nextBookId - 1);
      if old(ApiInvariant()) {
        OwnershipCarriesOver(trades0, books0, trades, books);
      }
    }

    /** Updating a book. The request is validated first; a non-owner's update is then
        skipped without saving, yet answered as a success (the refusal built by the view is
        discarded), showing the book as stored. */
    method UpdateBook(user: UserId, id: BookId, input: BookInput) returns (r: Result<Book, ApiError<BookError>>)
      requires Valid() && user in users
      modifies this
      ensures Valid()
      ensures old(id !in books) ==> r == Err(NotFound(NoSuchBook)) && unchanged(this)
      ensures old(id in books) ==>
                var e := EditBook(old(books[id]), input);
                && (e.Err? ==> r == Err(BadRequest(e.error)) && unchanged(this))
                && (e.Ok? && old(books[id].owner) != user ==> r == Ok(old(books[id])) && unchanged(this))
                && (e.Ok? && old(books[id].owner) == user ==>
                      && r == Ok(e.value)
                      && books == old(books)[id := e.value]
                      && trades == old(trades) && users == old(users)
                      && nextBookId == old(nextBookId) && nextTradeId == old(nextTradeId))
      ensures old(ApiInvariant()) ==> ApiInvariant()
    {
      if id !in books {
        return Err(NotFound(NoSuchBook));
      }
      var e := EditBook(books[id], input);
      if e.Err? {
        return Err(BadRequest(e.error));
      }
      if books[id].owner != user {
        return Ok(books[id]);
      }
      ghost var trades0, books0 := trades, books;
      books := books[id := e.value];
      r := Ok(e.value);
      if old(ApiInvariant()) {
        OwnershipCarriesOver(trades0, books0, trades, books);
      }
    }

    /** Deleting a book. A non-owner's request deletes nothing but is still answered as a
        success; the owner's deletes the book and, by cascade, every trade naming it. */
    method DestroyBook(user: UserId, id: BookId) returns (r: Result<(), ApiError<BookError>>)
      requires Valid() && user in users
      modifies this
      ensures Valid()
      ensures old(id !in books) ==> r == Err(NotFound(NoSuchBook)) && unchanged(this)
      ensures old(id in books) ==> r == Ok(())
      ensures old(id in books && books[id].owner != user) ==> unchanged(this)
      ensures old(id in books && books[id].owner == user) ==>
                && books == old(books) - {id}
                && trades == CascadeDelete(old(trades), id)
                && users == old(users)
                && nextBookId == old(nextBookId) && nextTradeId == old(nextTradeId)
      ensures old(ApiInvariant()) ==> ApiInvariant()
    {
      if id !in books {
        return Err(NotFound(NoSuchBook));
      }
      if books[id].owner != user {
        return Ok(());
      }
      ghost var trades0, books0 := trades, books;
      books := books - {id};
      trades := CascadeDelete(trades, id);
      r := Ok(());
      if old(ApiInvariant()) {
        OwnershipCarriesOver(trades0, books0, trades, books);
      }
    }

    /** Removing a book's cover image: refused to a non-owner, reported missing when there is
        no image, otherwise the image reference is cleared and nothing else changes. */
    method DeleteImage(user: UserId, id: BookId) returns (r: Result<(), ApiError<BookError>>)
      requires Valid() && user in users
      modifies this
      ensures Valid()
      ensures old(id !in books) ==> r == Err(NotFound(NoSuchBook)) && unchanged(this)
      ensures old(id in books && books[id].owner != user) ==> r == Err(Forbidden(NotOwner)) && unchanged(this)
      ensures old(id in books && books[id].owner == user && books[id].coverImage.None?) ==>
                r == Err(NotFound(NoImage)) && unchanged(this)
      ensures old(id in books && books[id].owner == user && books[id].coverImage.Some?) ==>
                && r == Ok(())
                && books == old(books)[id := old(books[id]).(coverImage := None)]
                && trades == old(trades) && users == old(users)
                && nextBookId == old(nextBookId) && nextTradeId == old(nextTradeId)
      ensures old(ApiInvariant()) ==> ApiInvariant()
    {
      if id !in books {
        return Err(NotFound(NoSuchBook));
      }
      if books[id].owner != user {
        return Err(Forbidden(NotOwner));
      }
      if books[id].coverImage.None? {
        return Err(NotFound(NoImage));
      }
      ghost var trades0, books0 := trades, books;
      books := books[id := books[id].(coverImage := None)];
      r := Ok(());
      if old(ApiInvariant()) {
        OwnershipCarriesOver(trades0, books0, trades, books);
      }
    }
  }
}

/** The trade endpoints' own logic: a user sees only the trades they take part in,
    the sent, received and pending listings narrow that view, and accepting a trade
    takes its books off the market. */
module TradeViews {
  import opened Base
  import opened Query
  import opened Books
  import opened Trades

  predicate IsParty(t: Trade, user: UserId) {
    t.requester == user || t.recipient == user
  }

  /** The trades a user can see: those they requested or received, newest first. */
  function VisibleTrades(trades: map<TradeId, Trade>, n: nat, user: UserId): (ids: seq<TradeId>)
    ensures forall k :: k in ids <==> k < n && k in trades && IsParty(trades[k], user)
    ensures Descending(ids)
  {
    Where(trades, n, t => IsParty(t, user))
  }

  /** The visible trades the user requested. */
  function SentTrades(trades: map<TradeId, Trade>, n: nat, user: UserId): (ids: seq<TradeId>)
    ensures forall k :: k in ids <==> k in VisibleTrades(trades, n, user) && trades[k].requester == user
    ensures Descending(ids)
  {
    Where(trades, n, t => IsParty(t, user) && t.requester == user)
  }

  /** The visible trades the user received. */
  function ReceivedTrades(trades: map<TradeId, Trade>, n: nat, user: UserId): (ids: seq<TradeId>)
    ensures forall k :: k in ids <==> k in VisibleTrades(trades, n, user) && trades[k].recipient == user
    ensures Descending(ids)
  {
    Where(trades, n, t => IsParty(t, user) && t.recipient == user)
  }

  /** The received trades still waiting for an answer. */
  function PendingTrades(trades: map<TradeId, Trade>, n: nat, user: UserId): (ids: seq<TradeId>)
    ensures forall k :: k in ids <==>
              k in VisibleTrades(trades, n, user) && trades[k].recipient == user && trades[k].status == Pending
    ensures Descending(ids)
  {
    Where(trades, n, t => IsParty(t, user) && t.recipient == user && t.status == Pending)
  }

  /** The visibility filter adds nothing to the sent listing: it is exactly the user's
      requested trades, in the same order. */
  lemma SentIsRequesterFilter(trades: map<TradeId, Trade>, n: nat, user: UserId)
    ensures SentTrades(trades, n, user) == Where(trades, n, (t: Trade) => t.requester == user)
  {
    WhereUnique(trades, n, (t: Trade) => t.requester == user, SentTrades(trades, n, user));
  }

  /** Likewise the received listing is exactly the user's received trades. */
  lemma ReceivedIsRecipientFilter(trades: map<TradeId, Trade>, n: nat, user: UserId)
    ensures ReceivedTrades(trades, n, user) == Where(trades, n, (t: Trade) => t.recipient == user)
  {
    WhereUnique(trades, n, (t: Trade) => t.recipient == user, ReceivedTrades(trades, n, user));
  }

  /** Every pending trade listed is also a received trade. */
  lemma PendingWithinReceived(trades: map<TradeId, Trade>, n: nat, user: UserId)
    ensures forall k :: k in PendingTrades(trades, n, user) ==> k in ReceivedTrades(trades, n, user)
  {
  }

  /** The sent and received listings together cover the visible trades. */
  lemma SentAndReceivedCoverVisible(trades: map<TradeId, Trade>, n: nat, user: UserId)
    ensures forall k :: k in VisibleTrades(trades, n, user) <==>
              k in SentTrades(trades, n, user) || k in ReceivedTrades(trades, n, user)
  {
  }

  /** What an update to 'accepted' does before saving: the requested book, and the
      offered book when there is one, are marked unavailable. Nothing else changes; in
      particular the recipient's counter-offered book is left as it is. */
  function MarkAccepted(books: map<BookId, Book>, t: Trade): (r: map<BookId, Book>)
    requires BooksExist(t, books)
    ensures r.Keys == books.Keys
    ensures !r[t.requestedBook].isAvailable
    ensures t.offeredBook.Some? ==> !r[t.offeredBook.value].isAvailable
    ensures forall b :: b in books && b != t.requestedBook && t.offeredBook != Some(b) ==> r[b] == books[b]
    ensures forall b :: b in books ==> r[b] == books[b].(isAvailable := r[b].isAvailable)
  {
    var afterRequested := books[t.requestedBook := books[t.requestedBook].(isAvailable := false)];
    if t.offeredBook.Some? then
      afterRequested[t.offeredBook.value := afterRequested[t.offeredBook.value].(isAvailable := false)]
    else afterRequested
  }
}

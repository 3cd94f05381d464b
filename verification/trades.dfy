/** The trade record and what saving it does: the completion rule that differs
    for swaps and donations, the ownership checks run before every save, and the
    automatic completion step that hands books over and credits both users. */
module Trades {
  import opened Base
  import opened Users
  import opened Books

  datatype Status = Pending | Accepted | Rejected | Cancelled | Completed

  datatype TradeType = Swap | Donation

  /** The stored code of each status. */
  function StatusCode(s: Status): string {
    match s
    case Pending => "pending"
    case Accepted => "accepted"
    case Rejected => "rejected"
    case Cancelled => "cancelled"
    case Completed => "completed"
  }

  /** The status choice field's check: only the five listed codes are accepted. */
  function ParseStatus(code: string): (r: Option<Status>)
    ensures r.Some? ==> StatusCode(r.value) == code
    ensures r.None? ==> forall s :: StatusCode(s) != code
  {
    if code == "pending" then Some(Pending)
    else if code == "accepted" then Some(Accepted)
    else if code == "rejected" then Some(Rejected)
    else if code == "cancelled" then Some(Cancelled)
    else if code == "completed" then Some(Completed)
    else None
  }

  lemma StatusCodeRoundTrip(s: Status)
    ensures ParseStatus(StatusCode(s)) == Some(s)
    ensures forall t :: StatusCode(t) == StatusCode(s) ==> t == s
  {
  }

  const DefaultStatus: Status := Pending
  const DefaultTradeType: TradeType := Swap

  datatype Trade = Trade(
    requester: UserId,
    recipient: UserId,
    requestedBook: BookId,
    offeredBook: Option<BookId>,
    /** The book the recipient offers back on a swap. */
    recipientOfferedBook: Option<BookId>,
    message: string,
    status: Status,
    tradeType: TradeType,
    requesterConfirmed: bool,
    recipientConfirmed: bool)

  /** The reasons a trade operation is refused. */
  datatype TradeError =
    | CannotTradeWithYourself
    | RequestedBookNotRecipients
    | OfferedBookNotRequesters
    | RecipientOfferedBookNotRecipients
    | OnlyRecipientCanRespond
    | OnlyRequesterCanCancel
    | InvalidStatusChoice
    | UnknownReference
    | NoSuchTrade

  /** A new trade: pending, proposed as a swap, nobody has confirmed, no counter-offer. */
  function NewTrade(requester: UserId, recipient: UserId, requestedBook: BookId,
                    offeredBook: Option<BookId>, message: string): (t: Trade)
    ensures t.requester == requester && t.recipient == recipient
    ensures t.requestedBook == requestedBook && t.offeredBook == offeredBook
    ensures t.message == message && t.recipientOfferedBook == None
    ensures t.status == DefaultStatus && t.tradeType == DefaultTradeType
    ensures !t.requesterConfirmed && !t.recipientConfirmed
    ensures !IsCompleted(t)
  {
    Trade(requester, recipient, requestedBook, offeredBook, None, message,
          DefaultStatus, DefaultTradeType, false, false)
  }

  /** Whether the parties have confirmed enough for the trade to be complete:
      a donation needs the recipient alone, a swap needs both. */
  predicate IsCompleted(t: Trade): (r: bool)
    ensures r ==> t.recipientConfirmed
    ensures r <==> t.recipientConfirmed && (t.tradeType.Swap? ==> t.requesterConfirmed)
  {
    if t.tradeType == Donation then t.recipientConfirmed
    else t.requesterConfirmed && t.recipientConfirmed
  }

  /** Whether saving the trade completes it: it must be accepted and confirmed enough. */
  predicate CanBeCompleted(t: Trade): (r: bool)
    ensures r ==> t.status == Accepted && t.recipientConfirmed
    ensures r <==> t.status == Accepted && t.recipientConfirmed
                   && (t.tradeType.Swap? ==> t.requesterConfirmed)
  {
    t.status == Accepted && IsCompleted(t)
  }

  /** On a donation the requester's confirmation plays no part. */
  lemma DonationIgnoresRequester(t: Trade, flag: bool)
    requires t.tradeType == Donation
    ensures IsCompleted(t.(requesterConfirmed := flag)) == IsCompleted(t)
  {
  }

  /** A swap is complete only when both have confirmed, so whatever completes a swap
      would also complete the same trade as a donation. */
  lemma SwapNeedsBoth(t: Trade)
    ensures IsCompleted(t.(tradeType := Swap)) ==> IsCompleted(t.(tradeType := Donation))
  {
  }

  /** Every book the trade names is a stored book. */
  predicate BooksExist(t: Trade, books: map<BookId, Book>) {
    && t.requestedBook in books
    && (t.offeredBook.Some? ==> t.offeredBook.value in books)
    && (t.recipientOfferedBook.Some? ==> t.recipientOfferedBook.value in books)
  }

  /** The ownership invariants a stored trade must satisfy. */
  predicate OwnershipHolds(t: Trade, books: map<BookId, Book>)
    requires BooksExist(t, books)
  {
    && t.requester != t.recipient
    && books[t.requestedBook].owner == t.recipient
    && (t.offeredBook.Some? ==> books[t.offeredBook.value].owner == t.requester)
    && (t.recipientOfferedBook.Some? ==> books[t.recipientOfferedBook.value].owner == t.recipient)
  }

  /** The check run before every save; it reports the first invariant that fails. */
  function Clean(t: Trade, books: map<BookId, Book>): (r: Option<TradeError>)
    requires BooksExist(t, books)
    ensures r.None? <==> OwnershipHolds(t, books)
    ensures r == Some(CannotTradeWithYourself) <==> t.requester == t.recipient
    ensures r == Some(RequestedBookNotRecipients) ==> books[t.requestedBook].owner != t.recipient
    ensures r == Some(OfferedBookNotRequesters) ==>
              t.offeredBook.Some? && books[t.offeredBook.value].owner != t.requester
    ensures r == Some(RecipientOfferedBookNotRecipients) ==>
              t.recipientOfferedBook.Some? && books[t.recipientOfferedBook.value].owner != t.recipient
  {
    if t.requester == t.recipient then Some(CannotTradeWithYourself)
    else if books[t.requestedBook].owner != t.recipient then Some(RequestedBookNotRecipients)
    else if t.offeredBook.Some? && books[t.offeredBook.value].owner != t.requester then
      Some(OfferedBookNotRequesters)
    else if t.recipientOfferedBook.Some? && books[t.recipientOfferedBook.value].owner != t.recipient then
      Some(RecipientOfferedBookNotRecipients)
    else None
  }

  /** Under the ownership invariants the requester's offered book is a different record from
      both of the recipient's books (the two recipient books may be the same record). */
  lemma OwnershipSeparatesBooks(t: Trade, books: map<BookId, Book>)
    requires BooksExist(t, books) && OwnershipHolds(t, books)
    ensures t.offeredBook.Some? ==> t.offeredBook.value != t.requestedBook
    ensures t.offeredBook.Some? && t.recipientOfferedBook.Some? ==>
              t.offeredBook.value != t.recipientOfferedBook.value
  {
  }

  /** The trade as save writes it: an accepted trade that is confirmed enough becomes
      completed; nothing else about it changes, and no other status is touched. Saving
      the result again does not complete it a second time. */
  function SavedForm(t: Trade): (s: Trade)
    ensures s.(status := t.status) == t
    ensures s.status != t.status <==> CanBeCompleted(t)
    ensures s.status != t.status ==> t.status == Accepted && s.status == Completed
    ensures !CanBeCompleted(s)
  {
    if CanBeCompleted(t) then t.(status := Completed) else t
  }

  /** Saving twice writes what saving once wrote. */
  lemma SaveIdempotent(t: Trade)
    ensures SavedForm(SavedForm(t)) == SavedForm(t)
  {
  }

  /** One book handed to a new owner and listed as available again. */
  function HandOver(books: map<BookId, Book>, b: BookId, newOwner: UserId): (r: map<BookId, Book>)
    requires b in books
    ensures r.Keys == books.Keys
    ensures r[b].owner == newOwner && r[b].isAvailable
    ensures r[b].(owner := books[b].owner, isAvailable := books[b].isAvailable) == books[b]
    ensures forall c :: c in books && c != b ==> r[c] == books[c]
  {
    books[b := books[b].(owner := newOwner, isAvailable := true)]
  }

  /** Whether completing the trade moves book `b`. */
  predicate Moves(t: Trade, b: BookId) {
    || b == t.requestedBook
    || (t.tradeType == Swap && t.recipientOfferedBook == Some(b))
    || (t.tradeType == Swap && t.offeredBook == Some(b))
  }

  /** The ownership transfer done on completion, in the order the writes happen. On a swap
      the requested book and the recipient's counter-offered book both go to the requester,
      and the requester's offered book goes to the recipient; on a donation only the
      requested book goes to the requester. Every moved book is marked available. */
  function TransferBooks(books: map<BookId, Book>, t: Trade): (r: map<BookId, Book>)
    requires BooksExist(t, books)
    ensures r.Keys == books.Keys
    ensures forall b :: b in books && !Moves(t, b) ==> r[b] == books[b]
    ensures forall b :: b in books && Moves(t, b) ==> r[b].isAvailable
    ensures forall b :: b in books && Moves(t, b) ==> r[b].owner == t.requester || r[b].owner == t.recipient
    ensures forall b :: b in books ==>
              r[b].(owner := books[b].owner, isAvailable := books[b].isAvailable) == books[b]
  {
    if t.tradeType == Swap then
      var afterRequested := HandOver(books, t.requestedBook, t.requester);
      var afterCounter :=
        if t.recipientOfferedBook.Some? then HandOver(afterRequested, t.recipientOfferedBook.value, t.requester)
        else afterRequested;
      if t.offeredBook.Some? then HandOver(afterCounter, t.offeredBook.value, t.recipient)
      else afterCounter
    else
      HandOver(books, t.requestedBook, t.requester)
  }

  /** Completing a valid swap: the requester gets the requested book and the recipient's
      counter-offered book, the recipient gets the requester's offered book. */
  lemma SwapTransfer(books: map<BookId, Book>, t: Trade)
    requires BooksExist(t, books) && OwnershipHolds(t, books)
    requires t.tradeType == Swap
    ensures TransferBooks(books, t)[t.requestedBook].owner == t.requester
    ensures t.recipientOfferedBook.Some? ==>
              TransferBooks(books, t)[t.recipientOfferedBook.value].owner == t.requester
    ensures t.offeredBook.Some? ==>
              TransferBooks(books, t)[t.offeredBook.value].owner == t.recipient
  {
    OwnershipSeparatesBooks(t, books);
  }

  /** Completing a donation moves the requested book alone; the offered book and the
      counter-offered book, when they are other records, stay as they were. */
  lemma DonationTransfer(books: map<BookId, Book>, t: Trade)
    requires BooksExist(t, books)
    requires t.tradeType == Donation
    ensures TransferBooks(books, t)[t.requestedBook].owner == t.requester
    ensures TransferBooks(books, t)[t.requestedBook].isAvailable
    ensures forall b :: b in books && b != t.requestedBook ==> TransferBooks(books, t)[b] == books[b]
  {
  }

  /** Completion credits both parties with one more successful trade. */
  function CreditParties(users: map<UserId, User>, t: Trade): (r: map<UserId, User>)
    requires t.requester in users && t.recipient in users
    ensures r.Keys == users.Keys
    ensures forall u :: u in users && u != t.requester && u != t.recipient ==> r[u] == users[u]
  {
    var once := users[t.requester := Credit(users[t.requester])];
    once[t.recipient := Credit(once[t.recipient])]
  }

  /** With two distinct parties each counter grows by exactly one. */
  lemma CreditPartiesEffect(users: map<UserId, User>, t: Trade)
    requires t.requester in users && t.recipient in users
    requires t.requester != t.recipient
    ensures CreditParties(users, t)[t.requester].successfulTradesCount
              == users[t.requester].successfulTradesCount + 1
    ensures CreditParties(users, t)[t.recipient].successfulTradesCount
              == users[t.recipient].successfulTradesCount + 1
    ensures CreditParties(users, t)[t.requester] == Credit(users[t.requester])
    ensures CreditParties(users, t)[t.recipient] == Credit(users[t.recipient])
  {
  }
}

/** The request-level guards of the trade endpoints: who may create a trade and
    for which books, and which party may set which status. */
module TradeRules {
  import opened Base
  import opened Books
  import opened Trades

  /** A create request, checked as the serializer checks it: every referenced record
      must exist; the requested book must belong to the named recipient; an offered
      book, when given, must belong to the requesting user; and the recipient must not
      be the requesting user. On success the requesting user is stamped as requester. */
  function ValidateCreate(user: UserId, recipient: UserId, requestedBook: BookId,
                          offeredBook: Option<BookId>, message: string,
                          userIds: set<UserId>, books: map<BookId, Book>): (r: Result<Trade, TradeError>)
    ensures r == Err(UnknownReference) <==>
              recipient !in userIds || requestedBook !in books
              || (offeredBook.Some? && offeredBook.value !in books)
    ensures r.Ok? <==>
              && recipient in userIds && requestedBook in books
              && (offeredBook.Some? ==> offeredBook.value in books)
              && books[requestedBook].owner == recipient
              && (offeredBook.Some? ==> books[offeredBook.value].owner == user)
              && recipient != user
    ensures r.Ok? ==> r.value == NewTrade(user, recipient, requestedBook, offeredBook, message)
    ensures r.Ok? ==> BooksExist(r.value, books) && OwnershipHolds(r.value, books)
    ensures r == Err(RequestedBookNotRecipients) ==> books[requestedBook].owner != recipient
    ensures r == Err(OfferedBookNotRequesters) ==>
              offeredBook.Some? && books[offeredBook.value].owner != user
    ensures r == Err(CannotTradeWithYourself) ==> recipient == user
  {
    if recipient !in userIds || requestedBook !in books
       || (offeredBook.Some? && offeredBook.value !in books) then
      Err(UnknownReference)
    else if books[requestedBook].owner != recipient then
      Err(RequestedBookNotRecipients)
    else if offeredBook.Some? && books[offeredBook.value].owner != user then
      Err(OfferedBookNotRequesters)
    else if recipient == user then
      Err(CannotTradeWithYourself)
    else
      Ok(NewTrade(user, recipient, requestedBook, offeredBook, message))
  }

  /** Without an offered book the offered-book check is skipped: only the requested book's
      owner and the recipient's identity decide. */
  lemma NoOfferedBookSkipsCheck(user: UserId, recipient: UserId, requestedBook: BookId,
                                message: string, userIds: set<UserId>, books: map<BookId, Book>)
    requires recipient in userIds && requestedBook in books
    ensures var r := ValidateCreate(user, recipient, requestedBook, None, message, userIds, books);
            r.Ok? <==> books[requestedBook].owner == recipient && recipient != user
  {
  }

  /** A trade that passes creation is saved as it is: it is not completed on its way in. */
  lemma CreatedTradeSavedUnchanged(user: UserId, recipient: UserId, requestedBook: BookId,
                                   offeredBook: Option<BookId>, message: string,
                                   userIds: set<UserId>, books: map<BookId, Book>)
    requires ValidateCreate(user, recipient, requestedBook, offeredBook, message, userIds, books).Ok?
    ensures var t := ValidateCreate(user, recipient, requestedBook, offeredBook, message, userIds, books).value;
            Clean(t, books).None? && SavedForm(t) == t && t.status == Pending && t.requester == user
  {
  }

  /** The status guard: accepting or rejecting is reserved to the recipient, cancelling to
      the requester; every other target status passes, whoever asks. The trade's current
      status is never consulted. */
  function ValidateStatus(t: Trade, user: UserId, value: Status): (r: Option<TradeError>)
    ensures r == Some(OnlyRecipientCanRespond) <==>
              (value == Accepted || value == Rejected) && t.recipient != user
    ensures r == Some(OnlyRequesterCanCancel) <==> value == Cancelled && t.requester != user
    ensures r.None? <==>
              && !((value == Accepted || value == Rejected) && t.recipient != user)
              && !(value == Cancelled && t.requester != user)
  {
    if (value == Accepted || value == Rejected) && t.recipient != user then
      Some(OnlyRecipientCanRespond)
    else if value == Cancelled && t.requester != user then
      Some(OnlyRequesterCanCancel)
    else None
  }

  /** The guard gives the same answer whatever status the trade is in. */
  lemma ValidateStatusIgnoresCurrent(t: Trade, current: Status, user: UserId, value: Status)
    ensures ValidateStatus(t.(status := current), user, value) == ValidateStatus(t, user, value)
  {
  }

  /** The status part of an update request: an absent status passes; a status that is not
      one of the five codes is refused; a listed one must pass the guard. */
  function ParseUpdate(t: Trade, user: UserId, status: Option<string>): (r: Result<Option<Status>, TradeError>)
    ensures status.None? ==> r == Ok(None)
    ensures status.Some? && ParseStatus(status.value).None? ==> r == Err(InvalidStatusChoice)
    ensures status.Some? && ParseStatus(status.value).Some? ==>
              var value := ParseStatus(status.value).value;
              && (r.Ok? <==> ValidateStatus(t, user, value).None?)
              && (r.Ok? ==> r.value == Some(value))
              && (r.Err? ==> r.error == ValidateStatus(t, user, value).value)
  {
    match status
    case None => Ok(None)
    case Some(code) =>
      match ParseStatus(code)
      case None => Err(InvalidStatusChoice)
      case Some(value) =>
        match ValidateStatus(t, user, value)
        case Some(e) => Err(e)
        case None => Ok(Some(value))
  }

  /** The update writes the status field alone. */
  function WithStatus(t: Trade, newStatus: Option<Status>): (u: Trade)
    ensures u.(status := t.status) == t
    ensures newStatus.Some? ==> u.status == newStatus.value
    ensures newStatus.None? ==> u == t
  {
    match newStatus
    case None => t
    case Some(s) => t.(status := s)
  }

  /** Either party may move any trade, in any status, back to pending or straight to
      completed: neither target is guarded. */
  lemma UnguardedTargets(t: Trade, user: UserId, current: Status)
    ensures ParseUpdate(t.(status := current), user, Some(StatusCode(Pending))) == Ok(Some(Pending))
    ensures ParseUpdate(t.(status := current), user, Some(StatusCode(Completed))) == Ok(Some(Completed))
  {
  }

  /** The recipient may accept a trade whatever its status, even one already rejected,
      cancelled or completed; the requester may cancel likewise. */
  lemma StatusGuardIsActorOnly(t: Trade, current: Status)
    ensures ParseUpdate(t.(status := current), t.recipient, Some("accepted")) == Ok(Some(Accepted))
    ensures ParseUpdate(t.(status := current), t.requester, Some("cancelled")) == Ok(Some(Cancelled))
  {
  }
}

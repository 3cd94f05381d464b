# BookSwap trade lifecycle in Dafny

This project models the core of the BookSwap backend, a Django REST service where
users list books and trade them. The modelled core is the **trade lifecycle as the
backend implements it**:

- the `Trade` record, with its completion rule, which differs for swaps and donations;
- the ownership checks `clean()` runs before every save;
- the automatic completion step in `save()`. That step hands books over and credits
  both users' `successful_trades_count`;
- the create and status-update guards of the trade serializers;
- the availability side effect of accepting a trade;
- the trade and book listings;
- the owner guards on book update, delete and image removal;
- the book record itself and the reliability tier derived from a user's count.

The database is a class `Database.Store` over three tables held as maps
(`users`, `books`, `trades`) and two primary-key counters. Each `save()` or `delete()`
is one atomic write to those maps. The rules are pure functions over record values.
The state-changing methods state their new state through those functions, and the
lemmas prove the promised properties about the functions.

Modules, one per source file or concern:

| file | module | models |
|---|---|---|
| base.dfy | `Base` | primary keys, `Option`, `Result`, HTTP error classes |
| users.dfy | `Users` | `backend/users/models.py` |
| books.dfy | `Books` | `backend/books/models.py` plus the field validation its serializers derive |
| query.dfy | `Query` | querysets: filtering a table, listed newest first |
| trades.dfy | `Trades` | `backend/trades/models.py` |
| trade_rules.dfy | `TradeRules` | `backend/trades/serializers.py` |
| trade_views.dfy | `TradeViews` | the filters and the accept side effect of `backend/trades/views.py` |
| book_views.dfy | `BookViews` | the listing filters of `backend/books/views.py` |
| database.dfy | `Database` | `Trade.save` and the state-changing view actions of both viewsets |

## Behaviour of the code worth knowing

The model follows the code, including these behaviours a reader might not expect:

- A swap's completion gives the recipient's counter-offered book to the **requester**
  (trades/models.py:125-128). Only the requester's offered book goes to the recipient.
- Every book moved by completion is set available (trades/models.py:122,127,132,137),
  including books that had been marked unavailable on acceptance.
- Creation never sets `trade_type`, so every trade is stored as a `swap`, even one
  without an offered book, so the donation rule is never applied. Creation also does not check that the requested book is available.
- Status updates go through `validate_status`, which checks only the actor
  (trades/serializers.py:63-80) and never the current status:
  - the recipient may "accept" a trade that is rejected, cancelled or completed;
  - either party may set `pending` or `completed` at any time (`TradeRules.UnguardedTargets`);
  - setting `completed` directly moves no book.
- No endpoint sets either confirmation flag. The endpoints are create (status, type and
  flags at their defaults) and the status update (writes `status` only). So through the
  API no trade ever satisfies `is_completed`, and the completion branch of `save()` is
  never reached. `Database.Store.ApiInvariant` captures this. Every endpoint method
  proves it is preserved. `Database.Store.UpdateTrade` proves that under it an update
  changes no owner and no counter, and never fails inside `save()`.
- Accepting marks the requested and offered books unavailable **before** the trade is
  saved (trades/views.py:43-51). If `clean()` then fails, the marks stay. This assumes
  requests are not wrapped in a transaction, which is Django's default. The failure
  surfaces as a server error. Under `ApiInvariant` this path cannot happen.
- The book viewset's `perform_update` and `perform_destroy` build a 403 response for a
  non-owner, but the framework discards it. The non-owner gets a success answer, and the
  book is neither saved nor deleted. `delete_image` does return its 403 and 404.
- Deleting a book deletes every trade that names it, because the three book foreign keys
  cascade (trades/models.py:33-52).

Listings are ordered by `-created_at`. This is modelled as descending primary key,
assuming creation time grows with the key.

## Model

| member | source | states |
|---|---|---|
| Users.CreateUser | backend/users/models.py:10 | a new user's successful-trade count is 0, so their tier is "New User" |
| Users.ReliabilityScore | backend/users/models.py:20-30 | the tier is New User iff the count is 0, Reliable iff 1-4, Very Reliable iff 5-9, Highly Reliable iff 10 or more; total over non-negative counts |
| Users.ReliabilityMonotone | backend/users/models.py:21-30 | a larger count never gives a lower tier |
| Users.Credit | backend/trades/models.py:142-147 | crediting a trade raises the count by exactly one, changes no other user field, and never lowers the tier |
| Books.ParseCondition | backend/books/models.py:9-15 | a condition code is accepted exactly when it is one of the five listed codes, and is read as the condition with that code |
| Books.ParseGenre | backend/books/models.py:17-34 | a genre code is accepted exactly when it is one of the sixteen listed codes, and is read as the genre with that code |
| Books.ConditionCodeRoundTrip | backend/books/models.py:9-15 | every condition's code reads back as that condition; codes are distinct |
| Books.GenreCodeRoundTrip | backend/books/models.py:17-34 | every genre's code reads back as that genre; codes are distinct |
| Books.NewBook | backend/books/models.py:37-45 | a new book is available, genre 'other', condition 'good', no cover, blank isbn, publication and description |
| Books.CheckInput | backend/books/models.py:37-42 | a request is refused exactly when a given title or author is blank or over 200 characters, an isbn over 13, a publication over 200, or a genre or condition is not a listed code |
| Books.EditBook | backend/books/serializers.py:35-42 | an accepted update changes exactly the fields the request carries, never the owner, and keeps the length limits |
| Books.ValidatedBook | backend/books/serializers.py:21-32 | creation needs title and author; it stamps the requesting user as owner, stores every optional field the request carries as given, and gives absent ones their defaults (blank isbn, publication and description, genre 'other', condition 'good', no cover, available); the result is within limits |
| Books.OwnerName | backend/books/models.py:56-58 | the owner name is the first name, one space, then the last name |
| Query.Where | backend/trades/models.py:70-72 | a queryset lists exactly the stored rows satisfying its filter, each once, newest first |
| Trades.ParseStatus | backend/trades/models.py:10-16 | a status code is accepted exactly when it is one of the five listed codes |
| Trades.StatusCodeRoundTrip | backend/trades/models.py:10-16 | every status code reads back as its status; codes are distinct |
| Trades.NewTrade | backend/trades/models.py:54-66 | a new trade is pending, a swap, with both confirmations false and no counter-offer, and is not completed |
| Trades.IsCompleted | backend/trades/models.py:79-87 | a trade counts as completed exactly when the recipient has confirmed and, for a swap, the requester has too; the recipient's confirmation is always needed |
| Trades.DonationIgnoresRequester | backend/trades/models.py:82-84 | on a donation, changing the requester's flag never changes whether it is completed |
| Trades.SwapNeedsBoth | backend/trades/models.py:82-87 | flags that complete a swap also complete the same trade as a donation |
| Trades.CanBeCompleted | backend/trades/models.py:89-92 | a trade can be completed exactly when it is accepted, the recipient has confirmed and, for a swap, the requester has too |
| Trades.Clean | backend/trades/models.py:94-108 | the check passes iff the parties differ, the requested book is the recipient's, an offered book is the requester's and a counter-offered book is the recipient's; a self-trade is always reported as such |
| Trades.OwnershipSeparatesBooks | backend/trades/models.py:101-108 | under the ownership checks the offered book is a different record from the requested and counter-offered books |
| Trades.SavedForm | backend/trades/models.py:113-115 | save changes only the status, and only accepted to completed, exactly when the trade is completed by its rule; the saved trade cannot complete again |
| Trades.SaveIdempotent | backend/trades/models.py:110-115 | saving the saved trade again writes the same trade |
| Trades.TransferBooks | backend/trades/models.py:117-138 | completion changes only owner and availability, only of the books it moves, gives each moved book to one of the parties and marks it available |
| Trades.SwapTransfer | backend/trades/models.py:119-133 | on a valid swap the requested and counter-offered books go to the requester and the offered book to the recipient |
| Trades.DonationTransfer | backend/trades/models.py:135-138 | on a donation only the requested book changes: it goes to the requester and is available |
| Trades.CreditParties | backend/trades/models.py:140-148 | completion changes no user other than the two parties |
| Trades.CreditPartiesEffect | backend/trades/models.py:140-148 | with distinct parties, each party's count grows by exactly one |
| TradeRules.ValidateCreate | backend/trades/serializers.py:29-54 | creation succeeds iff all referenced records exist, the requested book is the recipient's, any offered book is the requesting user's and the recipient is not that user; the trade is stamped with the user as requester and passes the ownership checks |
| TradeRules.NoOfferedBookSkipsCheck | backend/trades/serializers.py:38-42 | without an offered book only the requested book's owner and the recipient decide |
| TradeRules.CreatedTradeSavedUnchanged | backend/trades/serializers.py:52-54 | a created trade passes the save checks and is stored pending, unchanged, with the user as requester |
| TradeRules.ValidateStatus | backend/trades/serializers.py:63-80 | accept or reject fails iff the actor is not the recipient, cancel fails iff the actor is not the requester, any other target passes |
| TradeRules.ValidateStatusIgnoresCurrent | backend/trades/serializers.py:63-80 | the guard's answer does not depend on the trade's current status |
| TradeRules.ParseUpdate | backend/trades/serializers.py:57-80 | an absent status passes; an unlisted code is refused; a listed code passes exactly when the actor guard does |
| TradeRules.WithStatus | backend/trades/serializers.py:57-61 | the update writes the status field and nothing else |
| TradeRules.UnguardedTargets | backend/trades/serializers.py:63-80 | any user may move a trade in any status to pending or to completed |
| TradeRules.StatusGuardIsActorOnly | backend/trades/serializers.py:63-80 | the recipient may accept, and the requester may cancel, a trade in any status |
| TradeViews.VisibleTrades | backend/trades/views.py:27-32 | a user sees exactly the trades they requested or received |
| TradeViews.SentTrades | backend/trades/views.py:53-58 | sent lists exactly the visible trades the user requested |
| TradeViews.ReceivedTrades | backend/trades/views.py:60-65 | received lists exactly the visible trades the user received |
| TradeViews.PendingTrades | backend/trades/views.py:67-75 | pending lists exactly the visible received trades whose status is pending |
| TradeViews.SentIsRequesterFilter | backend/trades/views.py:53-58 | sent equals, in order, the plain requester filter: visibility adds nothing |
| TradeViews.ReceivedIsRecipientFilter | backend/trades/views.py:60-65 | received equals, in order, the plain recipient filter |
| TradeViews.PendingWithinReceived | backend/trades/views.py:67-75 | every pending trade listed is also a received trade |
| TradeViews.SentAndReceivedCoverVisible | backend/trades/views.py:27-65 | a trade is visible iff it is sent or received |
| TradeViews.MarkAccepted | backend/trades/views.py:43-49 | accepting makes the requested book and any offered book unavailable and changes nothing else, not the counter-offered book |
| BookViews.ListBooks | backend/books/views.py:27-41 | with available=true every listed book is available, with exclude_own=true none is the user's, with neither every stored book is listed |
| BookViews.MyBooks | backend/books/views.py:66-71 | my books lists exactly the listed books the user owns |
| BookViews.AvailableBooks | backend/books/views.py:73-80 | available books lists exactly the listed books that are available and owned by someone else |
| BookViews.MyBooksDisjointFromAvailable | backend/books/views.py:66-80 | no book is in both the user's own and their available listing |
| BookViews.ExcludeOwnEmptiesMyBooks | backend/books/views.py:66-71 | with exclude_own=true the user's own listing is empty, since it applies the list's filters first |
| Database.CascadeDelete | backend/trades/models.py:33-52 | deleting a book removes exactly the trades naming it and leaves the others as they were |
| Database.Store.SaveTrade | backend/trades/models.py:110-150 | a failed ownership check changes nothing; otherwise the trade is written in its saved form, and books and counters change by transfer and credit exactly when it completes |
| Database.Store.TransferOwnership | backend/trades/models.py:117-138 | the book writes of completion produce the transfer |
| Database.Store.CreditBoth | backend/trades/models.py:140-148 | the counter writes of completion produce the credit |
| Database.Store.CreateTrade | backend/trades/views.py:34-36 | a refused request changes nothing; an accepted one stores the new pending trade under the next key with the user as requester, and nothing else changes |
| Database.Store.MarkUnavailable | backend/trades/views.py:43-49 | the availability writes of an acceptance produce the marking |
| Database.Store.UpdateTrade | backend/trades/views.py:38-51 | not the user's trade: not found; a refused status: nothing changes; accepting marks books first; then the trade is saved, and a failed check leaves the marks; under the endpoint invariant no owner or counter changes and save never fails |
| Database.Store.DeleteTrade | backend/trades/views.py:11-32 | a party may delete a visible trade; nothing else changes |
| Database.Store.CreateBook | backend/books/views.py:43-45 | a valid book is stored under the next key with the requesting user as owner; an invalid one changes nothing |
| Database.Store.UpdateBook | backend/books/views.py:47-55 | a non-owner's valid update is answered as success but changes nothing; an owner's changes only that book, as the edit says |
| Database.Store.DestroyBook | backend/books/views.py:57-64 | a non-owner's delete is answered as success but changes nothing; an owner's removes the book and, by cascade, the trades naming it |
| Database.Store.DeleteImage | backend/books/views.py:82-104 | non-owner: forbidden, unchanged; owner without image: not found, unchanged; owner with image: only that book's cover is cleared |

## Left out

- Search, field filters and ordering query parameters are left out. These are the
  search, field-filter and ordering backends the viewsets declare. The model keeps
  only the parameters `get_queryset` reads itself. Detail lookups are modelled as "the
  key exists and, for trades, the user is a party".
- The frontend calls separate accept and confirm endpoints. The backend defines
  neither, so they are not part of this model.
- `TradeMessage`, `__str__`, the timestamps and the frontend are left out. Creation time
  is replaced by the ordering of primary keys.
- Concurrency, database `F()` expressions and `refresh_from_db` are left out. Each save
  is one atomic step, and each counter increment is a plain `+ 1`.
- Users.Credit: counts are unbounded naturals. The 2147483647 ceiling of a positive
  integer column is not modelled.
- Image files are represented by an optional name. Deleting the file from storage is
  not modelled, only clearing the reference.
- Books.CheckInput: reports only the first failing field in declaration order. The real
  response lists every failing field. Whitespace trimming of character input is not
  modelled.
- Books.EditBook: every update is treated as partial. A full update's demand for title
  and author is not modelled.
- Registration and profile endpoints are not part of this model. The store starts from
  a given table of users.
- Authentication is a precondition: the acting user is a stored user.

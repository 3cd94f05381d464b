/** The user record as far as the trade lifecycle touches it: the display names
    used by a book's owner_name and the counter of successful trades, from which
    the reliability tier is derived. */
module Users {

  datatype User = User(
    username: string,
    firstName: string,
    lastName: string,
    /** A non-negative counter; `nat` keeps it non-negative by construction. */
    successfulTradesCount: nat)

  /** The four reliability tiers, lowest first. */
  datatype Reliability = NewUser | Reliable | VeryReliable | HighlyReliable
  {
    /** The text shown for the tier. */
    function Label(): string {
      match this
      case NewUser => "New User"
      case Reliable => "Reliable"
      case VeryReliable => "Very Reliable"
      case HighlyReliable => "Highly Reliable"
    }

    /** Position of the tier in the order lowest to highest. */
    function Rank(): nat {
      match this
      case NewUser => 0
      case Reliable => 1
      case VeryReliable => 2
      case HighlyReliable => 3
    }
  }

  /** A freshly registered user: the counter starts at zero. */
  function CreateUser(username: string, firstName: string, lastName: string): (u: User)
    ensures u.username == username && u.firstName == firstName && u.lastName == lastName
    ensures u.successfulTradesCount == 0
    ensures ReliabilityScore(u) == NewUser
  {
    User(username, firstName, lastName, 0)
  }

  /** The reliability tier of a user, one band per range of completed trades. */
  function ReliabilityScore(u: User): (r: Reliability)
    ensures r == NewUser <==> u.successfulTradesCount == 0
    ensures r == Reliable <==> 1 <= u.successfulTradesCount <= 4
    ensures r == VeryReliable <==> 5 <= u.successfulTradesCount <= 9
    ensures r == HighlyReliable <==> 10 <= u.successfulTradesCount
  {
    if u.successfulTradesCount == 0 then NewUser
    else if u.successfulTradesCount < 5 then Reliable
    else if u.successfulTradesCount < 10 then VeryReliable
    else HighlyReliable
  }

  /** A user with more completed trades never sits in a lower tier. */
  lemma ReliabilityMonotone(a: User, b: User)
    requires a.successfulTradesCount <= b.successfulTradesCount
    ensures ReliabilityScore(a).Rank() <= ReliabilityScore(b).Rank()
  {
  }

  /** One more successful trade: the counter grows by exactly one and nothing else changes. */
  function Credit(u: User): (v: User)
    ensures v.successfulTradesCount == u.successfulTradesCount + 1
    ensures v.(successfulTradesCount := u.successfulTradesCount) == u
    ensures ReliabilityScore(u).Rank() <= ReliabilityScore(v).Rank()
  {
    u.(successfulTradesCount := u.successfulTradesCount + 1)
  }
}

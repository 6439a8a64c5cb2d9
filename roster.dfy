/**
 * The roster's value types: subscription states, pending markers, the error
 * enums and the roster item, whose equality and hash use only the account
 * and the counterpart.
 */
module Roster {
  import opened Wrappers
  import opened Jids

  /** The errors a roster store throws. */
  datatype RosterError = NotSetup | InvalidItem | DoesNotExist | DuplicateItem

  /** The errors the roster manager hands to its callers. */
  datatype RosterManagerError = RosterDoesNotExist | RosterDeleted

  /**
   * Everything a call in the roster layer can fail with: the two enums above,
   * a constraint violation raised by the database, and a file-system failure.
   */
  datatype Error =
    | RosterFailure(roster: RosterError)
    | ManagerFailure(manager: RosterManagerError)
    | ConstraintViolation
    | FileSystemFailure

  datatype Subscription = None | To | From | Both | Remove

  datatype Pending = None | Local | Remote

  /** The raw value an enum case is stored and transmitted as: its own name. */
  function SubscriptionRaw(s: Subscription): (raw: string)
    ensures raw != "" && SubscriptionFromRaw(raw) == Some(s)
  {
    match s
    case None => "none"
    case To => "to"
    case From => "from"
    case Both => "both"
    case Remove => "remove"
  }

  /** `Subscription(rawValue:)`: the case named `raw`, if there is one. */
  function SubscriptionFromRaw(raw: string): (s: Option<Subscription>)
    ensures s.Some? <==> raw in {"none", "to", "from", "both", "remove"}
  {
    if raw == "none" then Some(Subscription.None)
    else if raw == "to" then Some(To)
    else if raw == "from" then Some(From)
    else if raw == "both" then Some(Both)
    else if raw == "remove" then Some(Remove)
    else Option.None
  }

  function PendingRaw(p: Pending): (raw: string)
    ensures raw != "" && PendingFromRaw(raw) == Some(p)
  {
    match p
    case None => "none"
    case Local => "local"
    case Remote => "remote"
  }

  function PendingFromRaw(raw: string): (p: Option<Pending>)
    ensures p.Some? <==> raw in {"none", "local", "remote"}
  {
    if raw == "none" then Some(Pending.None)
    else if raw == "local" then Some(Local)
    else if raw == "remote" then Some(Remote)
    else Option.None
  }

  /** Reading back a stored raw value gives the case that was stored, and only that. */
  lemma RawValuesRoundTrip(raw: string)
    ensures SubscriptionFromRaw(raw).Some? ==> SubscriptionRaw(SubscriptionFromRaw(raw).value) == raw
    ensures PendingFromRaw(raw).Some? ==> PendingRaw(PendingFromRaw(raw).value) == raw
  {
  }

  /** One roster entry. */
  datatype Item = Item(
    account: Jid,
    counterpart: Jid,
    subscription: Subscription,
    pending: Pending,
    name: Option<string>,
    groups: seq<string>)

  /** Item equality (`==` on `Item`): the account and the counterpart only. */
  predicate SameItem(a: Item, b: Item) {
    a.account == b.account && a.counterpart == b.counterpart
  }

  /** `hashValue`: the XOR of the two JIDs' hashes, for any JID hash function. */
  function HashValue(item: Item, hash: Jid -> bv64): bv64 {
    hash(item.account) ^ hash(item.counterpart)
  }

  /** `items.contains(x)`: some element is equal to `x` in the item sense. */
  predicate Contains(items: seq<Item>, x: Item) {
    exists k :: 0 <= k < |items| && SameItem(items[k], x)
  }

  lemma SameItemIsEquivalence(a: Item, b: Item, c: Item)
    ensures SameItem(a, a)
    ensures SameItem(a, b) <==> SameItem(b, a)
    ensures SameItem(a, b) && SameItem(b, c) ==> SameItem(a, c)
  {
  }

  /** Equality ignores subscription, pending marker, name and groups. */
  lemma SameItemIgnoresPayload(a: Item, s: Subscription, p: Pending, n: Option<string>, g: seq<string>)
    ensures SameItem(a, a.(subscription := s, pending := p, name := n, groups := g))
  {
  }

  /** Equal items have equal hash values, whatever hash the JIDs use. */
  lemma EqualItemsHashEqually(a: Item, b: Item, hash: Jid -> bv64)
    requires SameItem(a, b)
    ensures HashValue(a, hash) == HashValue(b, hash)
  {
  }

  /** `contains` cannot tell apart two items with the same account and counterpart. */
  lemma ContainsIsUpToEquality(items: seq<Item>, x: Item, y: Item)
    requires SameItem(x, y)
    ensures Contains(items, x) <==> Contains(items, y)
  {
  }
}

/**
 * The roster handler: it caches one store per account, applies roster
 * pushes (section 2.1.6 of RFC 6121), pulls the roster on connect with
 * roster versioning (section 2.6 of RFC 6121), and wraps stores handed to
 * clients in a proxy that marks local edits pending and sends them to the
 * server.
 */
module RosterHandlers {
  import opened Wrappers
  import opened Seqs
  import opened Jids
  import opened Roster
  import opened RosterTables
  import opened FileRosters
  import opened Xml
  import opened RosterResults

  datatype IqType = IqGet | IqSet | IqResult | IqError

  /** An IQ stanza: its type, its sender, and its child elements. */
  datatype Iq = Iq(iqType: IqType, from: Option<Jid>, payload: seq<Element>)

  predicate IsQuery(e: Element) {
    e.qname == QueryName
  }

  /** `nodes(forXPath: "./r:query").first`: the first roster `query` child. */
  function QueryOf(payload: seq<Element>): (q: Option<Element>)
    ensures q.Some? ==> IsQuery(q.value) && q.value in payload
    ensures q.None? <==> forall k :: 0 <= k < |payload| ==> !IsQuery(payload[k])
  {
    var found := Filter(payload, IsQuery);
    if found == [] then Option.None else Some(found[0])
  }

  /** What the handler sees of a store: open or not, its account, its tables. */
  datatype Store = Store(connected: bool, account: Jid, tables: Tables)

  function Snapshot(r: FileRoster): Store
    reads r
  {
    Store(r.connected, r.account, r.Contents())
  }

  /** The store's `version` property. */
  function StoredVersion(s: Store): Option<string> {
    if s.connected then s.tables.version else Option.None
  }

  /** One store call of a push. */
  datatype Write = AddWrite(item: Item, version: Option<string>) | RemoveWrite(item: Item, version: Option<string>)

  /** A `remove` item is removed, any other item is added or updated. */
  function Dispatch(version: Option<string>): Item -> Write {
    (item: Item) => if item.subscription == Remove then RemoveWrite(item, version) else AddWrite(item, version)
  }

  /**
   * The store calls a push asks for: none when it carries the stored
   * version, else one per item in payload order, tagged with the push's
   * version (none for an unversioned push, which clears the stored one).
   */
  function PushWrites(result: RosterResult, stored: Option<string>): (ws: seq<Write>)
    ensures result.version.Some? && stored == result.version ==> ws == []
    ensures !(result.version.Some? && stored == result.version) ==>
      |ws| == |result.items|
      && forall k :: 0 <= k < |ws| ==>
           ws[k].item == result.items[k] && ws[k].version == result.version
           && (ws[k].RemoveWrite? <==> result.items[k].subscription == Remove)
  {
    if result.version.Some? && stored == result.version then []
    else Map(result.items, Dispatch(result.version))
  }

  function WriteOutcome(s: Store, w: Write): Result<Tables, Error> {
    match w
    case AddWrite(item, v) => Add(s.connected, s.account, s.tables, item, v)
    case RemoveWrite(item, v) => RosterTables.Remove(s.connected, s.tables, item, v)
  }

  /** The tables after a run of writes, and the error that stopped it. */
  datatype Applied = Applied(tables: Tables, error: Option<Error>)

  /** The writes one after the other, each its own transaction, up to the first that fails. */
  function ApplyWrites(s: Store, ws: seq<Write>): Applied
    decreases |ws|
  {
    if ws == [] then Applied(s.tables, Option.None)
    else match WriteOutcome(s, ws[0])
      case Failure(e) => Applied(s.tables, Some(e))
      case Success(t) => ApplyWrites(s.(tables := t), ws[1..])
  }

  /** One write as the store call it stands for. */
  method PerformWrite(roster: FileRoster, w: Write) returns (err: Option<Error>)
    requires roster.Valid()
    modifies roster
    ensures roster.Valid() && roster.connected == old(roster.connected)
    ensures var r := WriteOutcome(old(Snapshot(roster)), w);
      err == r.ErrorOf() && roster.Contents() == After(old(roster.Contents()), r)
  {
    match w
    case AddWrite(item, v) => err := roster.Add(item, v);
    case RemoveWrite(item, v) => err := roster.Remove(item, v);
  }

  /** How the handler answers a push. */
  datatype Reply = Forbidden | Acknowledged | Crashed

  datatype PushOutcome = PushOutcome(reply: Reply, tables: Tables)

  /**
   * A push received for the cached store `s` of the sender's bare JID: only
   * `set` is accepted; a push without a roster query is acknowledged as it
   * is; otherwise its writes are applied and it is acknowledged whether or
   * not one failed.  A payload the decoder traps on crashes the handler.
   */
  function Push(iq: Iq, s: Store, parse: string -> Option<Jid>): PushOutcome {
    if iq.iqType != IqSet then PushOutcome(Forbidden, s.tables)
    else match QueryOf(iq.payload)
      case None => PushOutcome(Acknowledged, s.tables)
      case Some(q) =>
        match Decode(q, s.account, parse)
        case None => PushOutcome(Crashed, s.tables)
        case Some(result) => PushOutcome(Acknowledged, ApplyWrites(s, PushWrites(result, StoredVersion(s))).tables)
  }

  /** What the handler does with the answer to its roster request. */
  datatype PullAction = Keep | Trap | ReplaceWith(items: seq<Item>, version: Option<string>)

  /**
   * `update`: no answer or no query changes nothing; a versioned answer
   * replaces the roster only when its version differs from the stored one;
   * an unversioned answer always replaces it (clearing the version).
   */
  function PullActionOf(response: Option<Iq>, s: Store, parse: string -> Option<Jid>): PullAction {
    match response
    case None => Keep
    case Some(iq) =>
      match QueryOf(iq.payload)
      case None => Keep
      case Some(q) =>
        match Decode(q, s.account, parse)
        case None => Trap
        case Some(result) =>
          if result.version.Some? && StoredVersion(s) == result.version then Keep
          else ReplaceWith(result.items, result.version)
  }

  // ---------------------------------------------------------------- push lemmas

  /**
   * A push stops at its first failing write: what is stored is the effect of
   * the writes before it, all of which succeeded.
   */
  lemma {:induction false} ApplyWritesStopsAtFirstFailure(s: Store, ws: seq<Write>) returns (n: nat)
    ensures n <= |ws|
    ensures ApplyWrites(s, ws[..n]) == Applied(ApplyWrites(s, ws).tables, Option.None)
    ensures ApplyWrites(s, ws).error.None? <==> n == |ws|
    ensures n < |ws| ==>
      WriteOutcome(s.(tables := ApplyWrites(s, ws).tables), ws[n]) == Failure(ApplyWrites(s, ws).error.value)
    decreases |ws|
  {
    if ws == [] {
      n := 0;
    } else {
      match WriteOutcome(s, ws[0])
      case Failure(e) =>
        n := 0;
        assert s.(tables := s.tables) == s;
      case Success(t) =>
        var m := ApplyWritesStopsAtFirstFailure(s.(tables := t), ws[1..]);
        n := m + 1;
        assert ws[..n][1..] == ws[1..][..m];
        assert ws[..n][0] == ws[0];
        if m < |ws[1..]| {
          assert ws[n] == ws[1..][m];
        }
    }
  }

  lemma WriteKeepsConsistency(s: Store, w: Write)
    requires Consistent(s.tables)
    ensures WriteOutcome(s, w).Success? ==> Consistent(WriteOutcome(s, w).value)
  {
    match w
    case AddWrite(item, v) =>
      if WriteOutcome(s, w).Success? {
        AddKeepsConsistency(s.connected, s.account, s.tables, item, v);
      }
    case RemoveWrite(item, v) =>
      if s.connected {
        RemoveKeepsConsistency(s.connected, s.tables, item, v);
      }
  }

  lemma {:induction false} ApplyWritesKeepsConsistency(s: Store, ws: seq<Write>)
    requires Consistent(s.tables)
    ensures Consistent(ApplyWrites(s, ws).tables)
    decreases |ws|
  {
    if ws != [] {
      WriteKeepsConsistency(s, ws[0]);
      if WriteOutcome(s, ws[0]).Success? {
        ApplyWritesKeepsConsistency(s.(tables := WriteOutcome(s, ws[0]).value), ws[1..]);
      }
    }
  }

  /** A push whose writes all succeed leaves its own version stored (none for an unversioned push). */
  lemma {:induction false} ApplyWritesStoresVersion(s: Store, ws: seq<Write>, v: Option<string>)
    requires ws != [] && forall k :: 0 <= k < |ws| ==> ws[k].version == v
    requires ApplyWrites(s, ws).error.None?
    ensures ApplyWrites(s, ws).tables.version == v
    decreases |ws|
  {
    var t := WriteOutcome(s, ws[0]).value;
    assert t.version == v by {
      match ws[0]
      case AddWrite(item, _) =>
      case RemoveWrite(item, _) =>
    }
    if |ws| > 1 {
      assert forall k :: 0 <= k < |ws[1..]| ==> ws[1..][k] == ws[k + 1];
      ApplyWritesStoresVersion(s.(tables := t), ws[1..], v);
    }
  }

  /** A push of a `remove` item, applied to an open store, deletes its counterpart. */
  lemma PushedRemoveDeletes(s: Store, item: Item, version: Option<string>, j: Jid)
    requires s.connected && item.subscription == Remove
    ensures var t := ApplyWrites(s, [Dispatch(version)(item)]).tables;
      ItemFor(t, s.account, j) == if j == item.counterpart then Option.None else ItemFor(s.tables, s.account, j)
  {
    RemoveThenItemFor(s.account, s.tables, item, version, j);
  }

  // ---------------------------------------------------------------- pull lemmas

  /** Replacing fails with `invalidItem` only if some item belongs to another account. */
  lemma {:induction false} InsertItemsInvalidItem(t: Tables, account: Jid, items: seq<Item>)
    requires InsertItems(t, account, items) == Failure(RosterFailure(InvalidItem))
    ensures exists k :: 0 <= k < |items| && items[k].account != account
    decreases |items|
  {
    var p, x := items[..|items| - 1], items[|items| - 1];
    match InsertItems(t, account, p)
    case Failure(e) =>
      InsertItemsInvalidItem(t, account, p);
      var k :| 0 <= k < |p| && p[k].account != account;
      assert items[k] == p[k];
    case Success(t') =>
      assert x.account != account;
  }

  /** A pulled roster never holds items of another account, so replacing with it cannot fail with `invalidItem`. */
  lemma PullNeverRejectsForeignItems(response: Option<Iq>, s: Store, parse: string -> Option<Jid>)
    requires PullActionOf(response, s, parse).ReplaceWith?
    ensures var a := PullActionOf(response, s, parse);
      Replace(s.connected, s.account, a.items, a.version) != Failure(RosterFailure(InvalidItem))
  {
    var a := PullActionOf(response, s, parse);
    if s.connected && Replace(true, s.account, a.items, a.version) == Failure(RosterFailure(InvalidItem)) {
      InsertItemsInvalidItem(Tables([], [], a.version), s.account, a.items);
    }
  }

  /**
   * Once a versioned pull has been stored, the same answer again is up to
   * date: the second pull writes nothing.
   */
  lemma ReplayedPullKeeps(iq: Iq, s: Store, parse: string -> Option<Jid>)
    requires s.connected
    requires var a := PullActionOf(Some(iq), s, parse);
      a.ReplaceWith? && a.version.Some? && Replace(true, s.account, a.items, a.version).Success?
    ensures var a := PullActionOf(Some(iq), s, parse);
      var s' := s.(tables := Replace(true, s.account, a.items, a.version).value);
      PullActionOf(Some(iq), s', parse) == Keep
  {
    var a := PullActionOf(Some(iq), s, parse);
    ReplaceLastWins(s.account, a.items, a.version, s.account);
  }

  /**
   * A pulled roster with distinct counterparts and no repeated group stored
   * in an open store reads back as exactly the pulled items.
   */
  lemma PulledRosterReadsBack(response: Option<Iq>, s: Store, parse: string -> Option<Jid>)
    requires s.connected
    requires var a := PullActionOf(response, s, parse);
      a.ReplaceWith? && DistinctCounterparts(a.items)
      && forall k :: 0 <= k < |a.items| ==> NoDuplicates(a.items[k].groups)
    ensures var a := PullActionOf(response, s, parse);
      Replace(true, s.account, a.items, a.version).Success?
      && AllItems(Replace(true, s.account, a.items, a.version).value, s.account) == a.items
      && Replace(true, s.account, a.items, a.version).value.version == a.version
  {
    var a := PullActionOf(response, s, parse);
    ReplaceRoundTrip(s.account, a.items, a.version);
    ReplaceLastWins(s.account, a.items, a.version, s.account);
  }

  // ---------------------------------------------------------------- proxy stamping

  /** The item a local add writes: marked pending on our side. */
  function StampForAdd(item: Item): (r: Item)
    ensures SameItem(r, item) && r.pending == Local
    ensures r.(pending := item.pending) == item
  {
    item.(pending := Local)
  }

  /** The item a local remove writes: marked removed and pending on our side. */
  function StampForRemove(item: Item): (r: Item)
    ensures SameItem(r, item) && r.pending == Local && r.subscription == Remove
    ensures r.(pending := item.pending, subscription := item.subscription) == item
  {
    item.(pending := Local, subscription := Remove)
  }

  /** After a local add the store holds the item as given, marked pending, and no version. */
  lemma LocalAddIsPending(account: Jid, t: Tables, item: Item)
    requires Add(true, account, t, StampForAdd(item), Option.None).Success?
    ensures var t' := Add(true, account, t, StampForAdd(item), Option.None).value;
      ItemFor(t', account, item.counterpart) == Some(item.(pending := Local)) && t'.version == Option.None
  {
    AddThenItemFor(account, t, StampForAdd(item), Option.None, item.counterpart);
    AddIsUpsert(true, account, t, StampForAdd(item), Option.None, item.counterpart);
  }

  /**
   * A server echo of a local remove, pushed back unversioned, deletes the
   * contact and clears the version.
   */
  lemma EchoedRemoveDeletes(s: Store, item: Item, parse: string -> Option<Jid>)
    requires s.connected
    requires parse(item.counterpart.ToString()) == Some(item.counterpart)
    ensures var o := Push(Iq(IqSet, Some(s.account), [RemoveQuery(StampForRemove(item))]), s, parse);
      o.reply == Acknowledged && ItemFor(o.tables, s.account, item.counterpart) == Option.None
      && o.tables.version == Option.None
  {
    var q := RemoveQuery(StampForRemove(item));
    RemoveQueryRoundTrip(StampForRemove(item), s.account, parse);
    assert Filter([q], IsQuery) == [q];
    var echoed := Item(s.account, item.counterpart, Remove, Pending.None, Option.None, []);
    assert PushWrites(RosterResult(Option.None, [echoed]), StoredVersion(s)) == [Dispatch(Option.None)(echoed)];
    PushedRemoveDeletes(s, echoed, Option.None, item.counterpart);
  }

  /** A request for a store that is not cached yet: always with `create`. */
  datatype RosterRequest = RosterRequest(account: Jid, create: bool)

  /** What `didConnect` starts. */
  datatype ConnectStep = Ignored | Pull(query: Element) | AwaitRoster(request: RosterRequest)

  /** A set request to the server about one contact. */
  datatype Outgoing = Outgoing(account: Jid, query: Element)

  /** `RosterHandlerProxy`: a store handed to a client; local edits go to the server after they are stored. */
  class RosterHandlerProxy {
    const roster: FileRoster

    constructor (roster: FileRoster)
      ensures this.roster == roster
    {
      this.roster := roster;
    }

    /** `add`: the item is stored marked pending, then sent to the server. */
    method Add(item: Item) returns (err: Option<Error>, request: Option<Outgoing>)
      requires roster.Valid()
      modifies roster
      ensures roster.Valid() && roster.connected == old(roster.connected)
      ensures var r := RosterTables.Add(old(roster.connected), roster.account, old(roster.Contents()), StampForAdd(item), Option.None);
        err == r.ErrorOf() && roster.Contents() == After(old(roster.Contents()), r)
        && request == if r.Success? then Some(Outgoing(item.account, AddQuery(StampForAdd(item)))) else Option.None
    {
      var pendingItem := StampForAdd(item);
      err := roster.Add(pendingItem, Option.None);
      request := if err.None? then Some(Outgoing(item.account, AddQuery(pendingItem))) else Option.None;
    }

    /** `remove`: the item is removed from the store, then its removal is sent to the server. */
    method Remove(item: Item) returns (err: Option<Error>, request: Option<Outgoing>)
      requires roster.Valid()
      modifies roster
      ensures roster.Valid() && roster.connected == old(roster.connected)
      ensures var r := RosterTables.Remove(old(roster.connected), old(roster.Contents()), StampForRemove(item), Option.None);
        err == r.ErrorOf() && roster.Contents() == After(old(roster.Contents()), r)
        && request == if r.Success? then Some(Outgoing(item.account, RemoveQuery(StampForRemove(item)))) else Option.None
    {
      var pendingItem := StampForRemove(item);
      err := roster.Remove(pendingItem, Option.None);
      request := if err.None? then Some(Outgoing(item.account, RemoveQuery(pendingItem))) else Option.None;
    }

    method ItemFor(jid: Jid) returns (r: Result<Option<Item>, Error>)
      ensures r == if roster.connected then Success(RosterTables.ItemFor(roster.Contents(), roster.account, jid)) else Failure(RosterFailure(NotSetup))
    {
      r := roster.ItemFor(jid);
    }

    method Items() returns (r: Result<seq<Item>, Error>)
      ensures r == if roster.connected then Success(AllItems(roster.Contents(), roster.account)) else Failure(RosterFailure(NotSetup))
    {
      r := roster.Items();
    }

    method ItemsIn(group: string) returns (r: Result<seq<Item>, Error>)
      ensures r == if roster.connected then Success(RosterTables.ItemsIn(roster.Contents(), roster.account, group)) else Failure(RosterFailure(NotSetup))
    {
      r := roster.ItemsIn(group);
    }

    method ItemsPending(pending: Pending) returns (r: Result<seq<Item>, Error>)
      ensures r == if roster.connected then Success(RosterTables.ItemsPending(roster.Contents(), roster.account, pending)) else Failure(RosterFailure(NotSetup))
    {
      r := roster.ItemsPending(pending);
    }

    method Groups() returns (r: Result<seq<string>, Error>)
      ensures r == if roster.connected then Success(GroupList(roster.Contents())) else Failure(RosterFailure(NotSetup))
    {
      r := roster.Groups();
    }
  }

  /** `RosterHandler`. */
  class RosterHandler {
    /** JID parsing, as the decoder uses it. */
    const parse: string -> Option<Jid>
    /** The cache of stores, by account. */
    var rosters: map<Jid, FileRoster>

    ghost predicate Valid()
      reads this, rosters.Values
    {
      forall k :: k in rosters ==> rosters[k].Valid()
    }

    constructor (parse: string -> Option<Jid>)
      ensures Valid() && this.parse == parse && rosters == map[]
    {
      this.parse := parse;
      rosters := map[];
    }

    /** `addRoster`: the cached store, or a request to the manager, always with `create`. */
    method AddRoster(account: Jid) returns (cached: Option<FileRoster>, request: Option<RosterRequest>)
      ensures account in rosters ==> cached == Some(rosters[account]) && request.None?
      ensures account !in rosters ==> cached.None? && request == Some(RosterRequest(account, true))
    {
      if account in rosters {
        cached, request := Some(rosters[account]), Option.None;
      } else {
        cached, request := Option.None, Some(RosterRequest(account, true));
      }
    }

    /** The manager's answer to `addRoster`: it is cached, and no store uncaches the account. */
    method RosterArrived(account: Jid, roster: Option<FileRoster>)
      requires Valid() && (roster.Some? ==> roster.value.Valid())
      modifies this
      ensures Valid()
      ensures rosters == if roster.Some? then old(rosters)[account := roster.value] else old(rosters) - {account}
    {
      if roster.Some? {
        rosters := rosters[account := roster.value];
      } else {
        rosters := rosters - {account};
      }
    }

    /** `roster(for:create:)`: a cached store comes back wrapped in a fresh proxy. */
    method RosterFor(account: Jid) returns (proxy: Option<RosterHandlerProxy>, request: Option<RosterRequest>)
      ensures account in rosters ==> proxy.Some? && fresh(proxy.value) && proxy.value.roster == rosters[account] && request.None?
      ensures account !in rosters ==> proxy.None? && request == Some(RosterRequest(account, true))
    {
      var cached;
      cached, request := AddRoster(account);
      if cached.Some? {
        var p := new RosterHandlerProxy(cached.value);
        proxy := Some(p);
      } else {
        proxy := Option.None;
      }
    }

    /** `deleteRoster`: uncached, then the deletion goes to the manager. */
    method DeleteRoster(account: Jid) returns (forwarded: Jid)
      requires Valid()
      modifies this
      ensures Valid() && rosters == old(rosters) - {account} && forwarded == account
    {
      rosters := rosters - {account};
      forwarded := account;
    }

    /** `didConnect`: nothing on a resumed stream; otherwise the roster is pulled once the store is at hand. */
    method DidConnect(account: Jid, resumed: bool) returns (step: ConnectStep)
      ensures resumed ==> step == Ignored
      ensures !resumed && account in rosters ==> step == Pull(PullQuery(rosters[account].Version()))
      ensures !resumed && account !in rosters ==> step == AwaitRoster(RosterRequest(account, true))
    {
      if resumed {
        return Ignored;
      }
      var cached, request := AddRoster(account);
      if cached.Some? {
        var query := Update(cached.value);
        step := Pull(query);
      } else {
        step := AwaitRoster(request.value);
      }
    }

    /** `didDisconnect`. */
    method DidDisconnect(account: Jid)
      requires Valid()
      modifies this
      ensures Valid() && rosters == old(rosters) - {account}
    {
      rosters := rosters - {account};
    }

    /** The roster request of `update`, carrying the stored version or `""`. */
    method Update(roster: FileRoster) returns (query: Element)
      ensures query == PullQuery(roster.Version())
    {
      query := PullQuery(roster.Version());
    }

    /** The answer to the roster request arrives. */
    method ApplyPullResponse(roster: FileRoster, response: Option<Iq>) returns (action: PullAction, err: Option<Error>)
      requires roster.Valid()
      modifies roster
      ensures roster.Valid() && roster.connected == old(roster.connected)
      ensures action == PullActionOf(response, old(Snapshot(roster)), parse)
      ensures action.ReplaceWith? ==>
        var r := Replace(old(roster.connected), roster.account, action.items, action.version);
        err == r.ErrorOf() && roster.Contents() == After(old(roster.Contents()), r)
      ensures !action.ReplaceWith? ==> err.None? && roster.Contents() == old(roster.Contents())
    {
      action := PullActionOf(response, Snapshot(roster), parse);
      err := Option.None;
      if response.None? {
        return;
      }
      var query := QueryOf(response.value.payload);
      if query.None? {
        return;
      }
      var decoded := Decode(query.value, roster.account, parse);
      if decoded.None? {
        return;
      }
      var result := decoded.value;
      if result.version.Some? {
        var stored := roster.Version();
        if stored != result.version {
          err := roster.Replace(result.items, result.version);
        }
      } else {
        err := roster.Replace(result.items, Option.None);
      }
    }

    /** The loop of `handleIQRequest`: each item removed or added in turn, up to the first failure. */
    method ApplyPush(roster: FileRoster, items: seq<Item>, version: Option<string>) returns (err: Option<Error>)
      requires roster.Valid()
      modifies roster
      ensures roster.Valid() && roster.connected == old(roster.connected)
      ensures var a := ApplyWrites(old(Snapshot(roster)), Map(items, Dispatch(version)));
        roster.Contents() == a.tables && err == a.error
    {
      var ws := Map(items, Dispatch(version));
      ghost var s0 := Snapshot(roster);
      var i := 0;
      while i < |ws|
        invariant 0 <= i <= |ws|
        invariant roster.Valid() && roster.connected == s0.connected && roster.account == s0.account
        invariant ApplyWrites(s0, ws) == ApplyWrites(Snapshot(roster), ws[i..])
      {
        assert ws[i..][0] == ws[i] && ws[i..][1..] == ws[i + 1..];
        err := PerformWrite(roster, ws[i]);
        if err.Some? {
          return;
        }
        i := i + 1;
      }
      err := Option.None;
    }

    /** `handleIQRequest`: a roster push. */
    method HandleIqRequest(iq: Iq) returns (reply: Reply)
      requires Valid()
      modifies if iq.from.Some? && iq.from.value.Bare() in rosters then {rosters[iq.from.value.Bare()]} else {}
      ensures Valid()
      ensures iq.from.None? || iq.from.value.Bare() !in rosters ==> reply == Forbidden
      ensures iq.from.Some? && iq.from.value.Bare() in rosters ==>
        var r := rosters[iq.from.value.Bare()];
        var o := Push(iq, old(Snapshot(r)), parse);
        reply == o.reply && r.Contents() == o.tables && r.connected == old(r.connected)
    {
      if iq.from.None? || iq.from.value.Bare() !in rosters || iq.iqType != IqSet {
        return Forbidden;
      }
      var roster := rosters[iq.from.value.Bare()];
      var query := QueryOf(iq.payload);
      if query.None? {
        return Acknowledged;
      }
      var decoded := Decode(query.value, roster.account, parse);
      if decoded.None? {
        return Crashed;
      }
      var result := decoded.value;
      var err;
      if result.version.Some? {
        var stored := roster.Version();
        if stored != result.version {
          err := ApplyPush(roster, result.items, result.version);
        }
      } else {
        err := ApplyPush(roster, result.items, Option.None);
      }
      reply := Acknowledged;
    }
  }
}

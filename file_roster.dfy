/**
 * The file-backed roster store of one account.  The database connection is
 * the `connected` flag; the database file is the three tables, which outlive
 * a close.  Every write runs as one transaction: it works on copies of the
 * tables and assigns them back only when no statement failed.
 */
module FileRosters {
  import opened Wrappers
  import opened Seqs
  import opened Jids
  import opened Roster
  import opened RosterTables

  /** `groupsByCounterpart[jid] ?? []`. */
  function GroupsLookup(m: map<Jid, seq<string>>, j: Jid): seq<string> {
    if j in m then m[j] else []
  }

  /** The loop that inserts one group row per name, stopping at the first pair already stored. */
  method InsertGroupRows(groups: seq<GroupRow>, j: Jid, names: seq<string>) returns (r: Option<seq<GroupRow>>)
    ensures r == InsertGroups(groups, j, names)
  {
    var rows := groups;
    var i := 0;
    while i < |names|
      invariant 0 <= i <= |names|
      invariant InsertGroups(groups, j, names[..i]) == Some(rows)
    {
      var row := GroupRow(j, names[i]);
      assert names[..i + 1][..i] == names[..i];
      if row in rows {
        InsertGroupsPrefixFails(groups, j, names, i + 1);
        return Option.None;
      }
      rows := rows + [row];
      i := i + 1;
    }
    assert names[..i] == names;
    r := Some(rows);
  }

  /** The outer loop of `replace`: each item in turn, stopping at the first that throws. */
  method InsertItemRows(t0: Tables, account: Jid, items: seq<Item>) returns (r: Result<Tables, Error>)
    ensures r == InsertItems(t0, account, items)
  {
    var t := t0;
    var k := 0;
    while k < |items|
      invariant 0 <= k <= |items|
      invariant InsertItems(t0, account, items[..k]) == Success(t)
    {
      var item := items[k];
      InsertItemsExtend(t0, account, items, k);
      if item.account != account {
        assert InsertItem(t, account, item) == Failure(RosterFailure(InvalidItem));
        InsertItemsPrefixFails(t0, account, items, k + 1);
        return Failure(RosterFailure(InvalidItem));
      }
      var inserted := InsertGroupRows(t.groups, item.counterpart, item.groups);
      if inserted.None? {
        InsertItemsPrefixFails(t0, account, items, k + 1);
        return Failure(ConstraintViolation);
      }
      t := Tables(Upsert(t.items, RowOf(item)), inserted.value, t.version);
      k := k + 1;
    }
    assert items[..k] == items;
    r := Success(t);
  }

  /** The first loop of `all()`: the group names of each counterpart, in row order. */
  method GroupsByCounterpart(groups: seq<GroupRow>) returns (m: map<Jid, seq<string>>)
    ensures forall j :: GroupsLookup(m, j) == GroupNames(groups, j)
  {
    m := map[];
    var i := 0;
    while i < |groups|
      invariant 0 <= i <= |groups|
      invariant forall j :: GroupsLookup(m, j) == GroupNames(groups[..i], j)
    {
      var g := groups[i];
      var names := GroupsLookup(m, g.jid);
      m := m[g.jid := names + [g.name]];
      forall j ensures GroupsLookup(m, j) == GroupNames(groups[..i + 1], j) {
        GroupNamesStep(groups, i, j);
      }
      i := i + 1;
    }
    assert groups[..i] == groups;
  }

  /** The second loop of `all()`: one item per item row, with the groups gathered for its counterpart. */
  method ItemsOfRows(account: Jid, rows: seq<ItemRow>, groups: seq<GroupRow>, m: map<Jid, seq<string>>) returns (items: seq<Item>)
    requires forall j :: GroupsLookup(m, j) == GroupNames(groups, j)
    ensures items == Map(rows, ToItem(account, groups))
  {
    items := [];
    var i := 0;
    while i < |rows|
      invariant 0 <= i <= |rows|
      invariant items == Map(rows[..i], ToItem(account, groups))
    {
      var row := rows[i];
      var item := Item(account, row.jid, row.subscription, row.pending, row.name, GroupsLookup(m, row.jid));
      MapLast(rows[..i + 1], ToItem(account, groups));
      assert rows[..i + 1][..i] == rows[..i];
      items := items + [item];
      i := i + 1;
    }
    assert rows[..i] == rows;
  }

  class FileRoster {
    /** The account, stored bare. */
    const account: Jid
    /** Whether the database connection is open (`db != nil`). */
    var connected: bool
    /** The item table, in row order. */
    var itemRows: seq<ItemRow>
    /** The group table, in row order. */
    var groupRows: seq<GroupRow>
    /** The `version` row of the option table. */
    var storedVersion: Option<string>

    /** The database file. */
    function Contents(): Tables
      reads this
    {
      Tables(itemRows, groupRows, storedVersion)
    }

    ghost predicate Valid()
      reads this
    {
      Consistent(Contents()) && account.IsBare()
    }

    /** A store for `account` over a database file that holds `existing` (empty when there is none yet). */
    constructor (account: Jid, existing: Tables)
      requires Consistent(existing)
      ensures Valid() && !connected
      ensures this.account == account.Bare() && Contents() == existing
    {
      this.account := account.Bare();
      connected := false;
      itemRows, groupRows, storedVersion := existing.items, existing.groups, existing.version;
    }

    /** `open`: the schema set-up either fails with `failure` or yields a connection. */
    method Open(failure: Option<Error>) returns (err: Option<Error>)
      requires Valid()
      modifies this
      ensures Valid() && Contents() == old(Contents())
      ensures err == failure
      ensures connected == (old(connected) || failure.None?)
    {
      err := failure;
      if failure.None? {
        connected := true;
      }
    }

    method Close()
      modifies this
      ensures !connected && Contents() == old(Contents())
    {
      connected := false;
    }

    /** The `version` property: the stored version, or none while the store is not open. */
    function Version(): (v: Option<string>)
      reads this
      ensures !connected ==> v == Option.None
      ensures connected ==> v == Contents().version
    {
      if connected then storedVersion else Option.None
    }

    /** `add(_:version:)`; the one-argument `add` passes no version. */
    method Add(item: Item, version: Option<string>) returns (err: Option<Error>)
      requires Valid()
      modifies this
      ensures Valid() && connected == old(connected)
      ensures var r := RosterTables.Add(old(connected), account, old(Contents()), item, version);
        err == r.ErrorOf() && Contents() == After(old(Contents()), r)
    {
      if !connected {
        return Some(RosterFailure(NotSetup));
      }
      if item.account != account {
        return Some(RosterFailure(InvalidItem));
      }
      var c := item.counterpart;
      var base := Filter(groupRows, GroupLacksJid(c));
      var inserted := InsertGroupRows(base, c, item.groups);
      if inserted.None? {
        return Some(ConstraintViolation);
      }
      var items, groups := Upsert(itemRows, RowOf(item)), inserted.value;
      AddKeepsConsistency(true, account, Contents(), item, version);
      itemRows, groupRows, storedVersion := items, groups, version;
      err := Option.None;
    }

    /** `remove(_:version:)`; the one-argument `remove` passes no version. */
    method Remove(item: Item, version: Option<string>) returns (err: Option<Error>)
      requires Valid()
      modifies this
      ensures Valid() && connected == old(connected)
      ensures var r := RosterTables.Remove(old(connected), old(Contents()), item, version);
        err == r.ErrorOf() && Contents() == After(old(Contents()), r)
    {
      if !connected {
        return Some(RosterFailure(NotSetup));
      }
      RemoveKeepsConsistency(true, Contents(), item, version);
      var c := item.counterpart;
      itemRows := Filter(itemRows, LacksJid(c));
      groupRows := Filter(groupRows, GroupLacksJid(c));
      storedVersion := version;
      err := Option.None;
    }

    /** `replace(with:version:)`; the one-argument `replace` passes no version. */
    method Replace(items: seq<Item>, version: Option<string>) returns (err: Option<Error>)
      requires Valid()
      modifies this
      ensures Valid() && connected == old(connected)
      ensures var r := RosterTables.Replace(old(connected), account, items, version);
        err == r.ErrorOf() && Contents() == After(old(Contents()), r)
    {
      if !connected {
        return Some(RosterFailure(NotSetup));
      }
      var inserted := InsertItemRows(Tables([], [], version), account, items);
      if inserted.Failure? {
        return Some(inserted.error);
      }
      var t := inserted.value;
      ReplaceKeepsConsistency(true, account, items, version);
      itemRows, groupRows, storedVersion := t.items, t.groups, t.version;
      err := Option.None;
    }

    /** `all()`: groups gathered per counterpart, then one item per item row. */
    method All() returns (r: Result<seq<Item>, Error>)
      ensures r == if connected then Success(AllItems(Contents(), account)) else Failure(RosterFailure(NotSetup))
    {
      if !connected {
        return Failure(RosterFailure(NotSetup));
      }
      var groupsByCounterpart := GroupsByCounterpart(groupRows);
      var items := ItemsOfRows(account, itemRows, groupRows, groupsByCounterpart);
      r := Success(items);
    }

    /** `items()`. */
    method Items() returns (r: Result<seq<Item>, Error>)
      ensures r == if connected then Success(AllItems(Contents(), account)) else Failure(RosterFailure(NotSetup))
    {
      r := All();
    }

    /** `item(for:)`. */
    method ItemFor(jid: Jid) returns (r: Result<Option<Item>, Error>)
      ensures r == if connected then Success(RosterTables.ItemFor(Contents(), account, jid)) else Failure(RosterFailure(NotSetup))
    {
      var all := All();
      match all
      case Failure(e) => r := Failure(e);
      case Success(items) =>
        var found := Filter(items, HasCounterpart(jid));
        r := Success(if found == [] then Option.None else Some(found[0]));
    }

    /** `items(in:)`. */
    method ItemsIn(group: string) returns (r: Result<seq<Item>, Error>)
      ensures r == if connected then Success(RosterTables.ItemsIn(Contents(), account, group)) else Failure(RosterFailure(NotSetup))
    {
      var all := All();
      match all
      case Failure(e) => r := Failure(e);
      case Success(items) => r := Success(Filter(items, InGroup(group)));
    }

    /** `items(pending:)`. */
    method ItemsPending(pending: Pending) returns (r: Result<seq<Item>, Error>)
      ensures r == if connected then Success(RosterTables.ItemsPending(Contents(), account, pending)) else Failure(RosterFailure(NotSetup))
    {
      var all := All();
      match all
      case Failure(e) => r := Failure(e);
      case Success(items) => r := Success(Filter(items, HasPending(pending)));
    }

    /** `groups()`: the distinct group names, collected row by row. */
    method Groups() returns (r: Result<seq<string>, Error>)
      ensures r == if connected then Success(GroupList(Contents())) else Failure(RosterFailure(NotSetup))
    {
      if !connected {
        return Failure(RosterFailure(NotSetup));
      }
      var names: seq<string> := [];
      var i := 0;
      while i < |groupRows|
        invariant 0 <= i <= |groupRows|
        invariant names == Dedup(Map(groupRows[..i], NameOf))
      {
        GroupListStep(groupRows, i);
        if groupRows[i].name !in names {
          names := names + [groupRows[i].name];
        }
        i := i + 1;
      }
      assert groupRows[..i] == groupRows;
      r := Success(names);
    }
  }
}

/**
 * The roster database of one account as abstract tables, and the
 * transactions and queries of the file-backed roster store over them.
 *
 * The item table is keyed by the counterpart JID, the group table holds
 * unique (counterpart, group name) pairs, and the option table holds at most
 * one `version`.  Both tables are kept in row order; an insert-or-replace
 * deletes the conflicting row and appends the new one.  A transaction is a
 * function from the old tables to the new tables or to the error that rolls
 * it back.
 */
module RosterTables {
  import opened Wrappers
  import opened Seqs
  import opened Jids
  import opened Roster

  /** A row of the item table; `jid` is the primary key. */
  datatype ItemRow = ItemRow(jid: Jid, subscription: Subscription, pending: Pending, name: Option<string>)

  /** A row of the group table; the pair (jid, name) is unique. */
  datatype GroupRow = GroupRow(jid: Jid, name: string)

  /** The contents of one roster database. */
  datatype Tables = Tables(items: seq<ItemRow>, groups: seq<GroupRow>, version: Option<string>)

  const EmptyTables: Tables := Tables([], [], Option.None)

  function RowOf(item: Item): ItemRow {
    ItemRow(item.counterpart, item.subscription, item.pending, item.name)
  }

  function NameOf(g: GroupRow): string {
    g.name
  }

  function GroupsOf(item: Item): seq<string> {
    item.groups
  }

  function HasJid(j: Jid): ItemRow -> bool {
    (r: ItemRow) => r.jid == j
  }

  function LacksJid(j: Jid): ItemRow -> bool {
    (r: ItemRow) => r.jid != j
  }

  function GroupHasJid(j: Jid): GroupRow -> bool {
    (g: GroupRow) => g.jid == j
  }

  function GroupLacksJid(j: Jid): GroupRow -> bool {
    (g: GroupRow) => g.jid != j
  }

  function HasCounterpart(j: Jid): Item -> bool {
    (item: Item) => item.counterpart == j
  }

  function InGroup(name: string): Item -> bool {
    (item: Item) => name in item.groups
  }

  function HasPending(p: Pending): Item -> bool {
    (item: Item) => item.pending == p
  }

  /** The group rows `(jid, n)` for each name `n`, in order. */
  function GroupRowsOf(jid: Jid, names: seq<string>): seq<GroupRow> {
    Map(names, (n: string) => GroupRow(jid, n))
  }

  /** The group names stored for counterpart `j`, in row order. */
  function GroupNames(groups: seq<GroupRow>, j: Jid): seq<string> {
    Map(Filter(groups, GroupHasJid(j)), NameOf)
  }

  /** The store's invariant: the primary key, the unique pair, and every group row naming an item. */
  ghost predicate Consistent(t: Tables) {
    && (forall j :: |Filter(t.items, HasJid(j))| <= 1)
    && NoDuplicates(t.groups)
    && (forall k :: 0 <= k < |t.groups| ==> Filter(t.items, HasJid(t.groups[k].jid)) != [])
  }

  /** The state after a transaction: its result if it committed, the old tables if it rolled back. */
  function After(t: Tables, r: Result<Tables, Error>): Tables {
    match r
    case Success(t') => t'
    case Failure(_) => t
  }

  // ---------------------------------------------------------------- writes

  /** `INSERT OR REPLACE` into the item table. */
  function Upsert(rows: seq<ItemRow>, row: ItemRow): seq<ItemRow> {
    Filter(rows, LacksJid(row.jid)) + [row]
  }

  /** Inserts the rows `(j, n)` one name at a time; a pair already present violates the unique constraint. */
  function InsertGroups(groups: seq<GroupRow>, j: Jid, names: seq<string>): Option<seq<GroupRow>>
    decreases |names|
  {
    if names == [] then Some(groups)
    else
      match InsertGroups(groups, j, names[..|names| - 1])
      case None => Option.None
      case Some(gs) =>
        var row := GroupRow(j, names[|names| - 1]);
        if row in gs then Option.None else Some(gs + [row])
  }

  /** One step of a write: insert-or-replace the item row, then insert its group rows. */
  function InsertItem(t: Tables, account: Jid, item: Item): Result<Tables, Error> {
    if item.account != account then Failure(RosterFailure(InvalidItem))
    else
      match InsertGroups(t.groups, item.counterpart, item.groups)
      case None => Failure(ConstraintViolation)
      case Some(gs) => Success(Tables(Upsert(t.items, RowOf(item)), gs, t.version))
  }

  /** `add(_:version:)`: the guards, then one transaction that rewrites the item and stores `version`. */
  function Add(open: bool, account: Jid, t: Tables, item: Item, version: Option<string>): Result<Tables, Error> {
    if !open then Failure(RosterFailure(NotSetup))
    else if item.account != account then Failure(RosterFailure(InvalidItem))
    else
      var c := item.counterpart;
      InsertItem(Tables(t.items, Filter(t.groups, GroupLacksJid(c)), version), account, item)
  }

  /** `remove(_:version:)`: deletes the item and group rows of the counterpart; the account is not checked. */
  function Remove(open: bool, t: Tables, item: Item, version: Option<string>): Result<Tables, Error> {
    if !open then Failure(RosterFailure(NotSetup))
    else
      var c := item.counterpart;
      Success(Tables(Filter(t.items, LacksJid(c)), Filter(t.groups, GroupLacksJid(c)), version))
  }

  /** The loop of `replace`: each item in turn, stopping at the first that throws. */
  function InsertItems(t: Tables, account: Jid, items: seq<Item>): Result<Tables, Error>
    decreases |items|
  {
    if items == [] then Success(t)
    else
      match InsertItems(t, account, items[..|items| - 1])
      case Failure(e) => Failure(e)
      case Success(t') => InsertItem(t', account, items[|items| - 1])
  }

  /** `replace(with:version:)`: empty both tables, insert every item, store `version`. */
  function Replace(open: bool, account: Jid, items: seq<Item>, version: Option<string>): Result<Tables, Error> {
    if !open then Failure(RosterFailure(NotSetup))
    else
      match InsertItems(Tables([], [], version), account, items)
      case Failure(e) => Failure(e)
      case Success(t') => Success(t')
  }

  // --------------------------------------------------------------- queries

  /** The item a row reads back as: the store's account, the row's fields, the counterpart's groups. */
  function ToItem(account: Jid, groups: seq<GroupRow>): ItemRow -> Item {
    (r: ItemRow) => Item(account, r.jid, r.subscription, r.pending, r.name, GroupNames(groups, r.jid))
  }

  /** `all()`: every item row read back as an item. */
  function AllItems(t: Tables, account: Jid): seq<Item> {
    Map(t.items, ToItem(account, t.groups))
  }

  /** `item(for:)`: the first item whose counterpart is `j`. */
  function ItemFor(t: Tables, account: Jid, j: Jid): Option<Item> {
    var found := Filter(AllItems(t, account), HasCounterpart(j));
    if found == [] then Option.None else Some(found[0])
  }

  /** `items(in:)`. */
  function ItemsIn(t: Tables, account: Jid, name: string): (r: seq<Item>)
    ensures forall k :: 0 <= k < |r| ==> r[k].account == account && name in r[k].groups
  {
    Filter(AllItems(t, account), InGroup(name))
  }

  /** `items(pending:)`. */
  function ItemsPending(t: Tables, account: Jid, p: Pending): (r: seq<Item>)
    ensures forall k :: 0 <= k < |r| ==> r[k].account == account && r[k].pending == p
  {
    Filter(AllItems(t, account), HasPending(p))
  }

  /** `groups()`: `SELECT DISTINCT name FROM group`, in order of first occurrence. */
  function GroupList(t: Tables): seq<string> {
    Dedup(Map(t.groups, NameOf))
  }

  // ---------------------------------------------------------------- lemmas

  /** The names can all be inserted: none repeats and none is already stored for `j`. */
  predicate Insertable(groups: seq<GroupRow>, j: Jid, names: seq<string>) {
    NoDuplicates(names) && forall k :: 0 <= k < |names| ==> GroupRow(j, names[k]) !in groups
  }

  lemma InsertableSnoc(groups: seq<GroupRow>, j: Jid, p: seq<string>, last: string)
    ensures Insertable(groups, j, p + [last])
        <==> Insertable(groups, j, p) && last !in p && GroupRow(j, last) !in groups
  {
    var names := p + [last];
    assert forall k :: 0 <= k < |p| ==> names[k] == p[k];
    assert names[|p|] == last;
    if Insertable(groups, j, names) {
      assert NoDuplicates(p) by {
        forall a, b | 0 <= a < b < |p| ensures p[a] != p[b] {
          assert names[a] == p[a] && names[b] == p[b];
        }
      }
    }
    if Insertable(groups, j, p) && last !in p && GroupRow(j, last) !in groups {
      forall a, b | 0 <= a < b < |names| ensures names[a] != names[b] {
        if b == |p| {
          assert names[a] == p[a];
        } else {
          assert names[a] == p[a] && names[b] == p[b];
        }
      }
      forall k | 0 <= k < |names| ensures GroupRow(j, names[k]) !in groups {
        if k < |p| {
          assert names[k] == p[k];
        }
      }
    }
  }

  lemma RowInGroupRowsOf(j: Jid, p: seq<string>, name: string)
    ensures GroupRow(j, name) in GroupRowsOf(j, p) <==> name in p
  {
    if name in p {
      var k :| 0 <= k < |p| && p[k] == name;
      assert GroupRowsOf(j, p)[k] == GroupRow(j, name);
    }
  }

  /** Inserting group rows one by one succeeds exactly when none violates the unique pair, and then appends them all. */
  lemma {:induction false} InsertGroupsSpec(groups: seq<GroupRow>, j: Jid, names: seq<string>)
    ensures InsertGroups(groups, j, names)
         == if Insertable(groups, j, names) then Some(groups + GroupRowsOf(j, names)) else Option.None
    decreases |names|
  {
    if names != [] {
      var n := |names|;
      var p, last := names[..n - 1], names[n - 1];
      assert names == p + [last];
      InsertGroupsSpec(groups, j, p);
      assert GroupRowsOf(j, names) == GroupRowsOf(j, p) + [GroupRow(j, last)];
      InsertableSnoc(groups, j, p, last);
      RowInGroupRowsOf(j, p, last);
      var row := GroupRow(j, last);
      if Insertable(groups, j, p) {
        var gs := groups + GroupRowsOf(j, p);
        assert InsertGroups(groups, j, p) == Some(gs);
        assert row in gs <==> row in groups || row in GroupRowsOf(j, p);
        assert gs + [row] == groups + GroupRowsOf(j, names);
        if Insertable(groups, j, names) {
          assert row !in gs;
          assert InsertGroups(groups, j, names) == Some(gs + [row]);
        } else {
          assert row in gs;
          assert InsertGroups(groups, j, names) == Option.None;
        }
      } else {
        assert InsertGroups(groups, j, p) == Option.None;
        assert InsertGroups(groups, j, names) == Option.None;
      }
    } else {
      assert groups + GroupRowsOf(j, names) == groups;
    }
  }

  /** After an insert-or-replace exactly one row holds the key, and every other key keeps its rows. */
  lemma UpsertRowsFor(rows: seq<ItemRow>, row: ItemRow, j: Jid)
    ensures Filter(Upsert(rows, row), HasJid(j)) == if row.jid == j then [row] else Filter(rows, HasJid(j))
  {
    FilterAppend(Filter(rows, LacksJid(row.jid)), [row], HasJid(j));
    if row.jid == j {
      FilterNone(Filter(rows, LacksJid(row.jid)), HasJid(j));
    } else {
      FilterSubsumed(rows, LacksJid(row.jid), HasJid(j));
    }
  }

  /** Deleting a key leaves no row for it and every other key's rows as they were. */
  lemma DeleteRowsFor(rows: seq<ItemRow>, c: Jid, j: Jid)
    ensures Filter(Filter(rows, LacksJid(c)), HasJid(j)) == if c == j then [] else Filter(rows, HasJid(j))
  {
    if c == j {
      FilterNone(Filter(rows, LacksJid(c)), HasJid(j));
    } else {
      FilterSubsumed(rows, LacksJid(c), HasJid(j));
    }
  }

  lemma GroupNamesAppend(groups: seq<GroupRow>, c: Jid, names: seq<string>, j: Jid)
    ensures GroupNames(groups + GroupRowsOf(c, names), j) == GroupNames(groups, j) + (if c == j then names else [])
  {
    var added := GroupRowsOf(c, names);
    FilterAppend(groups, added, GroupHasJid(j));
    if c == j {
      FilterAll(added, GroupHasJid(j));
      assert Map(added, NameOf) == names;
    } else {
      FilterNone(added, GroupHasJid(j));
    }
    MapAppend(Filter(groups, GroupHasJid(j)), Filter(added, GroupHasJid(j)), NameOf);
  }

  lemma GroupNamesWithout(groups: seq<GroupRow>, c: Jid, j: Jid)
    ensures GroupNames(Filter(groups, GroupLacksJid(c)), j) == if c == j then [] else GroupNames(groups, j)
  {
    if c == j {
      FilterNone(Filter(groups, GroupLacksJid(c)), GroupHasJid(j));
    } else {
      FilterSubsumed(groups, GroupLacksJid(c), GroupHasJid(j));
    }
  }

  /** `add` fails exactly when the store is closed, the account differs, or a group name repeats; in that order. */
  lemma AddOutcome(open: bool, account: Jid, t: Tables, item: Item, version: Option<string>)
    ensures !open ==> Add(open, account, t, item, version) == Failure(RosterFailure(NotSetup))
    ensures open && item.account != account ==> Add(open, account, t, item, version) == Failure(RosterFailure(InvalidItem))
    ensures open && item.account == account && !NoDuplicates(item.groups)
            ==> Add(open, account, t, item, version) == Failure(ConstraintViolation)
    ensures Add(open, account, t, item, version).Success?
            <==> open && item.account == account && NoDuplicates(item.groups)
  {
    var c := item.counterpart;
    var base := Filter(t.groups, GroupLacksJid(c));
    InsertGroupsSpec(base, c, item.groups);
  }

  /** `add` is an upsert keyed by counterpart: one row with the item's fields, exactly its groups, the given version, nothing else changed. */
  lemma AddIsUpsert(open: bool, account: Jid, t: Tables, item: Item, version: Option<string>, j: Jid)
    requires Add(open, account, t, item, version).Success?
    ensures var t' := Add(open, account, t, item, version).value;
      && t'.version == version
      && Filter(t'.items, HasJid(j)) == (if j == item.counterpart then [RowOf(item)] else Filter(t.items, HasJid(j)))
      && GroupNames(t'.groups, j) == (if j == item.counterpart then item.groups else GroupNames(t.groups, j))
  {
    var c := item.counterpart;
    var base := Filter(t.groups, GroupLacksJid(c));
    InsertGroupsSpec(base, c, item.groups);
    UpsertRowsFor(t.items, RowOf(item), j);
    GroupNamesAppend(base, c, item.groups, j);
    GroupNamesWithout(t.groups, c, j);
  }

  /** `remove` leaves no row and no group for the counterpart, stores the version, and changes nothing else. */
  lemma RemoveDeletes(open: bool, t: Tables, item: Item, version: Option<string>, j: Jid)
    requires open
    ensures var t' := Remove(open, t, item, version).value;
      && t'.version == version
      && Filter(t'.items, HasJid(j)) == (if j == item.counterpart then [] else Filter(t.items, HasJid(j)))
      && GroupNames(t'.groups, j) == (if j == item.counterpart then [] else GroupNames(t.groups, j))
  {
    DeleteRowsFor(t.items, item.counterpart, j);
    GroupNamesWithout(t.groups, item.counterpart, j);
  }

  /** `item(for:)` reads the first row with that key. */
  lemma ItemForRows(t: Tables, account: Jid, j: Jid)
    ensures var rows := Filter(t.items, HasJid(j));
      ItemFor(t, account, j) == if rows == [] then Option.None else Some(ToItem(account, t.groups)(rows[0]))
  {
    FilterMap(t.items, ToItem(account, t.groups), HasCounterpart(j), HasJid(j));
  }

  /** After `add`, `item(for:)` returns the added item and answers as before for every other counterpart. */
  lemma AddThenItemFor(account: Jid, t: Tables, item: Item, version: Option<string>, j: Jid)
    requires Add(true, account, t, item, version).Success?
    ensures var t' := Add(true, account, t, item, version).value;
      ItemFor(t', account, j) == if j == item.counterpart then Some(item) else ItemFor(t, account, j)
  {
    var t' := Add(true, account, t, item, version).value;
    AddIsUpsert(true, account, t, item, version, j);
    ItemForRows(t, account, j);
    ItemForRows(t', account, j);
  }

  /** After `remove`, `item(for:)` finds nothing for the counterpart and answers as before for every other. */
  lemma RemoveThenItemFor(account: Jid, t: Tables, item: Item, version: Option<string>, j: Jid)
    ensures var t' := Remove(true, t, item, version).value;
      ItemFor(t', account, j) == if j == item.counterpart then Option.None else ItemFor(t, account, j)
  {
    var t' := Remove(true, t, item, version).value;
    RemoveDeletes(true, t, item, version, j);
    ItemForRows(t, account, j);
    ItemForRows(t', account, j);
  }

  lemma InsertItemsSnoc(t: Tables, account: Jid, p: seq<Item>, x: Item)
    ensures InsertItems(t, account, p + [x])
         == match InsertItems(t, account, p) case Failure(e) => Failure(e) case Success(t') => InsertItem(t', account, x)
  {
    assert (p + [x])[..|p + [x]| - 1] == p;
  }

  /** A committed insertion step: the item row upserted, its group rows appended, the version kept. */
  lemma InsertItemCommitted(t: Tables, account: Jid, x: Item)
    requires InsertItem(t, account, x).Success?
    ensures var t' := InsertItem(t, account, x).value;
      && x.account == account
      && Insertable(t.groups, x.counterpart, x.groups)
      && t' == Tables(Upsert(t.items, RowOf(x)), t.groups + GroupRowsOf(x.counterpart, x.groups), t.version)
  {
    InsertGroupsSpec(t.groups, x.counterpart, x.groups);
  }

  /** A `replace` that commits wrote only items of the store's account. */
  lemma {:induction false} InsertItemsAccounts(t: Tables, account: Jid, items: seq<Item>)
    requires InsertItems(t, account, items).Success?
    ensures forall k :: 0 <= k < |items| ==> items[k].account == account
    decreases |items|
  {
    if items != [] {
      var p := items[..|items| - 1];
      InsertItemsAccounts(t, account, p);
      assert forall k :: 0 <= k < |p| ==> p[k] == items[k];
    }
  }

  /** One item of another account makes `replace` throw, and the transaction rolls back. */
  lemma ReplaceRejectsForeignItems(open: bool, account: Jid, items: seq<Item>, version: Option<string>, k: nat)
    requires k < |items| && items[k].account != account
    ensures Replace(open, account, items, version).Failure?
  {
    if open && InsertItems(Tables([], [], version), account, items).Success? {
      InsertItemsAccounts(Tables([], [], version), account, items);
    }
  }

  /** The last of `items` whose counterpart is `j`. */
  function LastWith(items: seq<Item>, j: Jid): Option<Item> {
    var found := Filter(items, HasCounterpart(j));
    if found == [] then Option.None else Some(found[|found| - 1])
  }

  lemma {:induction false} InsertItemsRows(t: Tables, account: Jid, items: seq<Item>, j: Jid)
    requires InsertItems(t, account, items).Success?
    ensures var t' := InsertItems(t, account, items).value;
      && t'.version == t.version
      && Filter(t'.items, HasJid(j))
         == match LastWith(items, j) case None => Filter(t.items, HasJid(j)) case Some(x) => [RowOf(x)]
    decreases |items|
  {
    if items != [] {
      var p, x := items[..|items| - 1], items[|items| - 1];
      InsertItemsRows(t, account, p, j);
      var tp := InsertItems(t, account, p).value;
      InsertItemCommitted(tp, account, x);
      UpsertRowsFor(tp.items, RowOf(x), j);
      LastWithLast(items, j);
    }
  }

  /** The last item naming `j` is the final item when that names `j`, else the last such before it. */
  lemma LastWithLast(items: seq<Item>, j: Jid)
    requires items != []
    ensures var x := items[|items| - 1];
      LastWith(items, j) == if x.counterpart == j then Some(x) else LastWith(items[..|items| - 1], j)
  {
    var p, x := items[..|items| - 1], items[|items| - 1];
    assert items == p + [x];
    FilterAppend(p, [x], HasCounterpart(j));
  }

  /** The groups of the items naming `j`, concatenated in order. */
  function GroupsNamedBy(items: seq<Item>, j: Jid): seq<string> {
    Flatten(Map(Filter(items, HasCounterpart(j)), GroupsOf))
  }

  lemma GroupsNamedBySnoc(p: seq<Item>, x: Item, j: Jid)
    ensures GroupsNamedBy(p + [x], j) == GroupsNamedBy(p, j) + (if x.counterpart == j then x.groups else [])
  {
    var fp, fx := Filter(p, HasCounterpart(j)), Filter([x], HasCounterpart(j));
    FilterAppend(p, [x], HasCounterpart(j));
    MapAppend(fp, fx, GroupsOf);
    FlattenAppend(Map(fp, GroupsOf), Map(fx, GroupsOf));
    if x.counterpart == j {
      assert Map(fx, GroupsOf) == [x.groups];
      assert Flatten([x.groups]) == x.groups + Flatten([]);
    } else {
      assert fx == [];
    }
  }

  lemma {:induction false} InsertItemsGroups(t: Tables, account: Jid, items: seq<Item>, j: Jid)
    requires InsertItems(t, account, items).Success?
    ensures var t' := InsertItems(t, account, items).value;
      GroupNames(t'.groups, j) == GroupNames(t.groups, j) + GroupsNamedBy(items, j)
    decreases |items|
  {
    if items == [] {
      assert GroupsNamedBy(items, j) == [];
    } else {
      var p, x := items[..|items| - 1], items[|items| - 1];
      InsertItemsLast(t, account, items);
      InsertItemsGroups(t, account, p, j);
      var tp := InsertItems(t, account, p).value;
      InsertItemGroups(tp, account, x, j);
      GroupsNamedByLast(items, j);
      var a, b, c := GroupNames(t.groups, j), GroupsNamedBy(p, j), if x.counterpart == j then x.groups else [];
      calc {
        GroupNames(InsertItems(t, account, items).value.groups, j);
        GroupNames(InsertItem(tp, account, x).value.groups, j);
        GroupNames(tp.groups, j) + c;
        (a + b) + c;
        { AppendIsAssociative(a, b, c); }
        a + (b + c);
        GroupNames(t.groups, j) + GroupsNamedBy(items, j);
      }
    }
  }

  /** One committed insert appends the item's groups to its counterpart's and to no other. */
  lemma InsertItemGroups(t: Tables, account: Jid, x: Item, j: Jid)
    requires InsertItem(t, account, x).Success?
    ensures GroupNames(InsertItem(t, account, x).value.groups, j)
         == GroupNames(t.groups, j) + (if x.counterpart == j then x.groups else [])
  {
    InsertItemCommitted(t, account, x);
    GroupNamesAppend(t.groups, x.counterpart, x.groups, j);
  }

  lemma GroupsNamedByLast(items: seq<Item>, j: Jid)
    requires items != []
    ensures var x := items[|items| - 1];
      GroupsNamedBy(items, j) == GroupsNamedBy(items[..|items| - 1], j) + (if x.counterpart == j then x.groups else [])
  {
    assert items == items[..|items| - 1] + [items[|items| - 1]];
    GroupsNamedBySnoc(items[..|items| - 1], items[|items| - 1], j);
  }

  /**
   * After `replace`, each counterpart has one row, with the fields of the last
   * item that names it, and the groups of ALL items that name it (the loop
   * never deletes group rows), and the version is the given one.
   */
  lemma ReplaceLastWins(account: Jid, items: seq<Item>, version: Option<string>, j: Jid)
    requires Replace(true, account, items, version).Success?
    ensures var t' := Replace(true, account, items, version).value;
      && t'.version == version
      && Filter(t'.items, HasJid(j)) == (match LastWith(items, j) case None => [] case Some(x) => [RowOf(x)])
      && GroupNames(t'.groups, j) == GroupsNamedBy(items, j)
  {
    var t0 := Tables([], [], version);
    InsertItemsRows(t0, account, items, j);
    InsertItemsGroups(t0, account, items, j);
  }

  predicate DistinctCounterparts(items: seq<Item>) {
    forall a, b :: 0 <= a < b < |items| ==> items[a].counterpart != items[b].counterpart
  }

  /** An item whose counterpart has no row yet and whose groups do not repeat is appended as it is. */
  lemma InsertFreshItem(t: Tables, account: Jid, x: Item)
    requires x.account == account && NoDuplicates(x.groups)
    requires forall k :: 0 <= k < |t.items| ==> t.items[k].jid != x.counterpart
    requires forall k :: 0 <= k < |t.groups| ==> t.groups[k].jid != x.counterpart
    ensures InsertItem(t, account, x)
      == Success(Tables(t.items + [RowOf(x)], t.groups + GroupRowsOf(x.counterpart, x.groups), t.version))
  {
    var c := x.counterpart;
    assert Insertable(t.groups, c, x.groups);
    InsertGroupsSpec(t.groups, c, x.groups);
    FilterAll(t.items, LacksJid(c));
  }

  lemma {:induction false} InsertItemsFresh(account: Jid, items: seq<Item>, version: Option<string>)
    requires forall k :: 0 <= k < |items| ==> items[k].account == account && NoDuplicates(items[k].groups)
    requires DistinctCounterparts(items)
    ensures InsertItems(Tables([], [], version), account, items).Success?
    ensures var t' := InsertItems(Tables([], [], version), account, items).value;
      && t'.items == Map(items, RowOf)
      && forall k :: 0 <= k < |t'.groups| ==> exists i :: 0 <= i < |items| && t'.groups[k].jid == items[i].counterpart
    decreases |items|
  {
    if items != [] {
      var p, x := items[..|items| - 1], items[|items| - 1];
      assert forall k :: 0 <= k < |p| ==> p[k] == items[k];
      InsertItemsFresh(account, p, version);
      InsertItemsLast(Tables([], [], version), account, items);
      var tp := InsertItems(Tables([], [], version), account, p).value;
      InsertFreshItem(tp, account, x);
      MapLast(items, RowOf);
      var gs := tp.groups + GroupRowsOf(x.counterpart, x.groups);
      forall k | 0 <= k < |gs|
        ensures exists i :: 0 <= i < |items| && gs[k].jid == items[i].counterpart
      {
        if k < |tp.groups| {
          assert gs[k] == tp.groups[k];
        } else {
          assert gs[k].jid == items[|items| - 1].counterpart;
        }
      }
    }
  }

  /** With distinct counterparts, the groups a counterpart reads back are exactly its item's. */
  lemma GroupsNamedByDistinct(items: seq<Item>, k: nat)
    requires k < |items| && DistinctCounterparts(items)
    ensures GroupsNamedBy(items, items[k].counterpart) == items[k].groups
  {
    FilterSingle(items, k, HasCounterpart(items[k].counterpart));
    assert Map([items[k]], GroupsOf) == [items[k].groups];
    assert Flatten([items[k].groups]) == items[k].groups + Flatten([]);
  }

  /**
   * `replace(with: items, version: v)` followed by `items()` gives back
   * exactly `items`, and the version is `v`, when the items belong to the
   * store's account, name distinct counterparts and repeat no group.
   */
  lemma ReplaceRoundTrip(account: Jid, items: seq<Item>, version: Option<string>)
    requires forall k :: 0 <= k < |items| ==> items[k].account == account && NoDuplicates(items[k].groups)
    requires DistinctCounterparts(items)
    ensures Replace(true, account, items, version).Success?
    ensures AllItems(Replace(true, account, items, version).value, account) == items
    ensures Replace(true, account, items, version).value.version == version
  {
    InsertItemsFresh(account, items, version);
    var t' := InsertItems(Tables([], [], version), account, items).value;
    InsertItemsRows(Tables([], [], version), account, items, account);
    var all := AllItems(t', account);
    forall k | 0 <= k < |items| ensures all[k] == items[k] {
      ReadBackAt(account, items, version, k);
    }
  }

  /** After a fresh insert, the k-th item read back is the k-th item written. */
  lemma ReadBackAt(account: Jid, items: seq<Item>, version: Option<string>, k: nat)
    requires forall k :: 0 <= k < |items| ==> items[k].account == account && NoDuplicates(items[k].groups)
    requires DistinctCounterparts(items)
    requires k < |items|
    requires InsertItems(Tables([], [], version), account, items).Success?
    requires InsertItems(Tables([], [], version), account, items).value.items == Map(items, RowOf)
    ensures AllItems(InsertItems(Tables([], [], version), account, items).value, account)[k] == items[k]
  {
    var t0 := Tables([], [], version);
    var t' := InsertItems(t0, account, items).value;
    var c := items[k].counterpart;
    InsertItemsGroups(t0, account, items, c);
    GroupsNamedByDistinct(items, k);
    assert t'.items[k] == RowOf(items[k]);
    assert GroupNames(t'.groups, c) == items[k].groups;
  }

  /** Deleting a counterpart's group rows keeps the invariant. */
  lemma DeleteGroupsKeepsConsistency(t: Tables, c: Jid)
    requires Consistent(t)
    ensures Consistent(Tables(t.items, Filter(t.groups, GroupLacksJid(c)), t.version))
  {
    FilterNoDuplicates(t.groups, GroupLacksJid(c));
  }

  /** Rewriting one item row keeps at most one row per counterpart. */
  lemma UpsertKeepsOneRowEach(items: seq<ItemRow>, row: ItemRow)
    requires forall j :: |Filter(items, HasJid(j))| <= 1
    ensures forall j :: |Filter(Upsert(items, row), HasJid(j))| <= 1
  {
    forall j ensures |Filter(Upsert(items, row), HasJid(j))| <= 1 {
      UpsertRowsFor(items, row, j);
    }
  }

  /** Appending insertable group rows keeps the group table free of repeated pairs. */
  lemma AppendGroupRowsNoDuplicates(groups: seq<GroupRow>, c: Jid, names: seq<string>)
    requires NoDuplicates(groups) && Insertable(groups, c, names)
    ensures NoDuplicates(groups + GroupRowsOf(c, names))
  {
    var gs := groups + GroupRowsOf(c, names);
    forall a, b | 0 <= a < b < |gs| ensures gs[a] != gs[b] {
      if b < |groups| {
        assert gs[a] == groups[a] && gs[b] == groups[b];
      } else if a < |groups| {
        assert gs[b] == GroupRow(c, names[b - |groups|]);
        assert gs[a] in groups;
      } else {
        assert gs[a] == GroupRow(c, names[a - |groups|]);
        assert gs[b] == GroupRow(c, names[b - |groups|]);
      }
    }
  }

  /** After rewriting the row of `x`, every old group row and every row of `x`'s groups has its item. */
  lemma UpsertKeepsGroupOwners(items: seq<ItemRow>, groups: seq<GroupRow>, x: Item)
    requires forall k :: 0 <= k < |groups| ==> Filter(items, HasJid(groups[k].jid)) != []
    ensures var gs := groups + GroupRowsOf(x.counterpart, x.groups);
      forall k :: 0 <= k < |gs| ==> Filter(Upsert(items, RowOf(x)), HasJid(gs[k].jid)) != []
  {
    var gs := groups + GroupRowsOf(x.counterpart, x.groups);
    forall k | 0 <= k < |gs| ensures Filter(Upsert(items, RowOf(x)), HasJid(gs[k].jid)) != [] {
      UpsertRowsFor(items, RowOf(x), gs[k].jid);
      if k < |groups| {
        assert gs[k] == groups[k];
      } else {
        assert gs[k] == GroupRow(x.counterpart, x.groups[k - |groups|]);
      }
    }
  }

  lemma InsertItemKeepsConsistency(t: Tables, account: Jid, x: Item)
    requires Consistent(t) && InsertItem(t, account, x).Success?
    ensures Consistent(InsertItem(t, account, x).value)
  {
    InsertItemCommitted(t, account, x);
    UpsertKeepsOneRowEach(t.items, RowOf(x));
    AppendGroupRowsNoDuplicates(t.groups, x.counterpart, x.groups);
    UpsertKeepsGroupOwners(t.items, t.groups, x);
  }

  /** A committed `add` keeps the store's invariant. */
  lemma AddKeepsConsistency(open: bool, account: Jid, t: Tables, item: Item, version: Option<string>)
    requires Consistent(t) && Add(open, account, t, item, version).Success?
    ensures Consistent(Add(open, account, t, item, version).value)
  {
    var c := item.counterpart;
    DeleteGroupsKeepsConsistency(t, c);
    InsertItemKeepsConsistency(Tables(t.items, Filter(t.groups, GroupLacksJid(c)), version), account, item);
  }

  /** A `remove` keeps the store's invariant. */
  lemma RemoveKeepsConsistency(open: bool, t: Tables, item: Item, version: Option<string>)
    requires Consistent(t) && open
    ensures Consistent(Remove(open, t, item, version).value)
  {
    var c := item.counterpart;
    var t' := Remove(open, t, item, version).value;
    FilterNoDuplicates(t.groups, GroupLacksJid(c));
    forall j ensures |Filter(t'.items, HasJid(j))| <= 1 {
      DeleteRowsFor(t.items, c, j);
    }
    forall k | 0 <= k < |t'.groups| ensures Filter(t'.items, HasJid(t'.groups[k].jid)) != [] {
      var g := t'.groups[k];
      assert g in t.groups && g.jid != c;
      var i :| 0 <= i < |t.groups| && t.groups[i] == g;
      DeleteRowsFor(t.items, c, g.jid);
    }
  }

  lemma {:induction false} InsertItemsKeepConsistency(t: Tables, account: Jid, items: seq<Item>)
    requires Consistent(t) && InsertItems(t, account, items).Success?
    ensures Consistent(InsertItems(t, account, items).value)
    decreases |items|
  {
    if items != [] {
      var p, x := items[..|items| - 1], items[|items| - 1];
      InsertItemsKeepConsistency(t, account, p);
      InsertItemKeepsConsistency(InsertItems(t, account, p).value, account, x);
    }
  }

  /** A committed `replace` leaves a consistent store, whatever it held before. */
  lemma ReplaceKeepsConsistency(open: bool, account: Jid, items: seq<Item>, version: Option<string>)
    requires Replace(open, account, items, version).Success?
    ensures Consistent(Replace(open, account, items, version).value)
  {
    InsertItemsKeepConsistency(Tables([], [], version), account, items);
  }

  /** A stored group row is among the names read back for its counterpart. */
  lemma GroupRowIsNamed(groups: seq<GroupRow>, g: GroupRow)
    requires g in groups
    ensures g.name in GroupNames(groups, g.jid)
  {
    var mine := Filter(groups, GroupHasJid(g.jid));
    assert g in mine;
    var m :| 0 <= m < |mine| && mine[m] == g;
    assert Map(mine, NameOf)[m] == g.name;
  }

  /** A name read back for a counterpart comes from a stored group row. */
  lemma NamedGroupIsRow(groups: seq<GroupRow>, j: Jid, name: string)
    requires name in GroupNames(groups, j)
    ensures name in Map(groups, NameOf)
  {
    var mine := Filter(groups, GroupHasJid(j));
    var m :| 0 <= m < |mine| && Map(mine, NameOf)[m] == name;
    assert mine[m] in groups;
    var i :| 0 <= i < |groups| && groups[i] == mine[m];
    assert Map(groups, NameOf)[i] == name;
  }

  lemma GroupListedIsHeld(t: Tables, account: Jid, name: string)
    requires Consistent(t) && name in Map(t.groups, NameOf)
    ensures exists k :: 0 <= k < |t.items| && name in AllItems(t, account)[k].groups
  {
    var names := Map(t.groups, NameOf);
    var i :| 0 <= i < |names| && names[i] == name;
    var g := t.groups[i];
    var rows := Filter(t.items, HasJid(g.jid));
    assert rows != [] && rows[0] in t.items;
    var k :| 0 <= k < |t.items| && t.items[k] == rows[0];
    GroupRowIsNamed(t.groups, g);
    assert AllItems(t, account)[k].groups == GroupNames(t.groups, g.jid);
  }

  lemma GroupHeldIsListed(t: Tables, account: Jid, name: string, k: nat)
    requires k < |t.items| && name in AllItems(t, account)[k].groups
    ensures name in Map(t.groups, NameOf)
  {
    assert AllItems(t, account)[k].groups == GroupNames(t.groups, t.items[k].jid);
    NamedGroupIsRow(t.groups, t.items[k].jid, name);
  }

  /**
   * `groups()` names each group exactly once, and a name is listed exactly
   * when some item read back by `items()` is in that group.
   */
  lemma GroupListIsItemGroups(t: Tables, account: Jid, name: string)
    requires Consistent(t)
    ensures NoDuplicates(GroupList(t))
    ensures name in GroupList(t)
        <==> exists k :: 0 <= k < |t.items| && name in AllItems(t, account)[k].groups
  {
    var names := Map(t.groups, NameOf);
    assert name in GroupList(t) <==> name in names;
    if name in names {
      GroupListedIsHeld(t, account, name);
    }
    if exists k :: 0 <= k < |t.items| && name in AllItems(t, account)[k].groups {
      var k :| 0 <= k < |t.items| && name in AllItems(t, account)[k].groups;
      GroupHeldIsListed(t, account, name, k);
    }
  }

  lemma InsertableOfPrefix(groups: seq<GroupRow>, j: Jid, names: seq<string>, i: nat)
    requires i <= |names| && Insertable(groups, j, names)
    ensures Insertable(groups, j, names[..i])
  {
    assert forall k :: 0 <= k < i ==> names[..i][k] == names[k];
  }

  /** A group insert that fails part-way fails the whole statement list. */
  lemma InsertGroupsPrefixFails(groups: seq<GroupRow>, j: Jid, names: seq<string>, i: nat)
    requires i <= |names| && InsertGroups(groups, j, names[..i]).None?
    ensures InsertGroups(groups, j, names).None?
  {
    InsertGroupsSpec(groups, j, names[..i]);
    InsertGroupsSpec(groups, j, names);
    if Insertable(groups, j, names) {
      InsertableOfPrefix(groups, j, names, i);
    }
  }

  /** An item that throws part-way through `replace` makes the whole loop throw the same error. */
  /** The last turn of the `replace` loop. */
  lemma InsertItemsLast(t: Tables, account: Jid, items: seq<Item>)
    requires items != []
    ensures InsertItems(t, account, items)
         == match InsertItems(t, account, items[..|items| - 1])
            case Failure(e) => Failure(e)
            case Success(t') => InsertItem(t', account, items[|items| - 1])
  {
  }

  /** One more turn of the `replace` loop. */
  lemma InsertItemsExtend(t: Tables, account: Jid, items: seq<Item>, k: nat)
    requires k < |items|
    ensures InsertItems(t, account, items[..k + 1])
         == match InsertItems(t, account, items[..k]) case Failure(e) => Failure(e) case Success(t') => InsertItem(t', account, items[k])
  {
    assert items[..k + 1][..k] == items[..k];
  }

  lemma {:induction false} InsertItemsPrefixFails(t: Tables, account: Jid, items: seq<Item>, k: nat)
    requires k <= |items| && InsertItems(t, account, items[..k]).Failure?
    ensures InsertItems(t, account, items) == InsertItems(t, account, items[..k])
    decreases |items|
  {
    if k < |items| {
      var p := items[..|items| - 1];
      assert p[..k] == items[..k];
      InsertItemsPrefixFails(t, account, p, k);
      InsertItemsSnoc(t, account, p, items[|items| - 1]);
      assert p + [items[|items| - 1]] == items;
    } else {
      assert items[..k] == items;
    }
  }

  /** One more group row read: its name joins the names of its counterpart. */
  lemma GroupNamesStep(groups: seq<GroupRow>, i: nat, j: Jid)
    requires i < |groups|
    ensures GroupNames(groups[..i + 1], j) == GroupNames(groups[..i], j) + (if groups[i].jid == j then [groups[i].name] else [])
  {
    var g := groups[i];
    assert GroupRowsOf(g.jid, [g.name]) == [g];
    assert groups[..i + 1] == groups[..i] + GroupRowsOf(g.jid, [g.name]);
    GroupNamesAppend(groups[..i], g.jid, [g.name], j);
  }

  /** One more group row read: its name is listed unless it already is. */
  lemma GroupListStep(groups: seq<GroupRow>, i: nat)
    requires i < |groups|
    ensures var d := Dedup(Map(groups[..i], NameOf));
      Dedup(Map(groups[..i + 1], NameOf)) == if groups[i].name in d then d else d + [groups[i].name]
  {
    var s := Map(groups[..i + 1], NameOf);
    assert groups[..i + 1] == groups[..i] + [groups[i]];
    MapAppend(groups[..i], [groups[i]], NameOf);
    assert s[..|s| - 1] == Map(groups[..i], NameOf);
  }
}

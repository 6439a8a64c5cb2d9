/**
 * The decoder of a roster payload (a `query` element of namespace
 * `jabber:iq:roster`, section 2.1 of RFC 6121) into an optional version and
 * a list of items, and the shape of the requests the handler sends.
 */
module RosterResults {
  import opened Wrappers
  import opened Seqs
  import opened Jids
  import opened Roster
  import opened Xml

  const RosterNamespace: string := "jabber:iq:roster"
  const QueryName: QName := QName("query", RosterNamespace)
  const ItemName: QName := QName("item", RosterNamespace)
  const GroupName: QName := QName("group", RosterNamespace)

  /** A decoded payload. */
  datatype RosterResult = RosterResult(version: Option<string>, items: seq<Item>)

  /**
   * `CharacterSet.whitespacesAndNewlines`: the Unicode separators (Zs, Zl,
   * Zp), the tab and the line breaks U+000A to U+000D and U+0085.
   */
  predicate IsWhitespace(c: char) {
    ('\t' <= c <= '\r') || c == ' ' || c == '\U{85}' || c == '\U{A0}' || c == '\U{1680}'
    || ('\U{2000}' <= c <= '\U{200A}') || c == '\U{2028}' || c == '\U{2029}'
    || c == '\U{202F}' || c == '\U{205F}' || c == '\U{3000}'
  }

  function TrimStart(s: string): (r: string)
    ensures |r| <= |s| && r == s[|s| - |r|..]
    ensures forall k :: 0 <= k < |s| - |r| ==> IsWhitespace(s[k])
    ensures r != [] ==> !IsWhitespace(r[0])
  {
    if s != [] && IsWhitespace(s[0]) then TrimStart(s[1..]) else s
  }

  function TrimEnd(s: string): (r: string)
    ensures |r| <= |s| && r == s[..|r|]
    ensures forall k :: |r| <= k < |s| ==> IsWhitespace(s[k])
    ensures r != [] ==> !IsWhitespace(r[|r| - 1])
  {
    if s != [] && IsWhitespace(s[|s| - 1]) then TrimEnd(s[..|s| - 1]) else s
  }

  /**
   * `trimmingCharacters(in: .whitespacesAndNewlines)`: the part of `s` left
   * after removing all whitespace at both ends.
   */
  function Trim(s: string): (r: string)
    ensures exists i, j :: (0 <= i <= j <= |s| && r == s[i..j]
      && (forall k :: 0 <= k < i ==> IsWhitespace(s[k]))
      && (forall k :: j <= k < |s| ==> IsWhitespace(s[k])))
    ensures r != [] ==> !IsWhitespace(r[0]) && !IsWhitespace(r[|r| - 1])
  {
    var t := TrimStart(s);
    var r := TrimEnd(t);
    assert r == s[|s| - |t|..|s| - |t| + |r|];
    r
  }

  predicate IsTrimmed(s: string) {
    s == [] || (!IsWhitespace(s[0]) && !IsWhitespace(s[|s| - 1]))
  }

  /** Trimming leaves a string without whitespace at its ends as it is, and its own results too. */
  lemma TrimKeepsTrimmed(s: string)
    ensures IsTrimmed(Trim(s))
    ensures IsTrimmed(s) ==> Trim(s) == s
  {
    if IsTrimmed(s) && s != [] {
      var i, j :| 0 <= i <= j <= |s| && Trim(s) == s[i..j]
        && (forall k :: 0 <= k < i ==> IsWhitespace(s[k]))
        && (forall k :: j <= k < |s| ==> IsWhitespace(s[k]));
      assert i == 0 && j == |s|;
    }
  }

  predicate IsGroup(e: Element) {
    e.qname == GroupName
  }

  /** The name a `group` child stands for. */
  function GroupText(e: Element): string {
    Trim(e.text.GetOr(""))
  }

  /**
   * The groups of an item: the trimmed text of each `group` child, in
   * document order; none when a `group` child has no text (the force-unwrap
   * at that point traps).
   */
  function GroupTexts(children: seq<Element>): (r: Option<seq<string>>)
    ensures r.Some? <==> forall k :: 0 <= k < |children| && IsGroup(children[k]) ==> children[k].text.Some?
  {
    if children == [] then Some([])
    else
      var e := children[0];
      assert forall k :: 1 <= k < |children| ==> children[k] == children[1..][k - 1];
      match GroupTexts(children[1..])
      case None => Option.None
      case Some(rest) =>
        if !IsGroup(e) then Some(rest)
        else if e.text.None? then Option.None
        else Some([Trim(e.text.value)] + rest)
  }

  /** The groups are the names of the `group` children, in document order. */
  lemma {:induction false} GroupTextsInOrder(children: seq<Element>)
    requires GroupTexts(children).Some?
    ensures GroupTexts(children).value == Map(Filter(children, IsGroup), GroupText)
  {
    if children != [] {
      GroupTextsInOrder(children[1..]);
      var e := children[0];
      var head := if IsGroup(e) then [e] else [];
      assert Filter(children, IsGroup) == head + Filter(children[1..], IsGroup);
      MapAppend(head, Filter(children[1..], IsGroup), GroupText);
    }
  }

  /** The counterpart named by the `jid` attribute, when there is one and it parses. */
  function JidOf(e: Element, parse: string -> Option<Jid>): Option<Jid> {
    match Attribute(e, "jid")
    case None => Option.None
    case Some(s) => parse(s)
  }

  /** The children that produce an item: `item` elements whose `jid` parses. */
  function IsRosterItem(parse: string -> Option<Jid>): Element -> bool {
    (e: Element) => e.qname == ItemName && JidOf(e, parse).Some?
  }

  /** The `subscription` attribute (section 2.1.2.5 of RFC 6121), `none` when absent or unknown. */
  function SubscriptionOf(e: Element): (s: Subscription)
    ensures Attribute(e, "subscription") == Some("remove") ==> s == Remove
    ensures Attribute(e, "subscription").None? ==> s == Subscription.None
    ensures s != Subscription.None ==> Attribute(e, "subscription") == Some(SubscriptionRaw(s))
    ensures forall s0 :: Attribute(e, "subscription") == Some(SubscriptionRaw(s0)) ==> s == s0
  {
    SubscriptionFromRaw(Attribute(e, "subscription").GetOr("")).GetOr(Subscription.None)
  }

  /** The `ask` attribute (section 2.1.2.2 of RFC 6121): only `subscribe` marks a request pending at the contact. */
  function PendingOf(e: Element): (p: Pending)
    ensures p == Remote <==> Attribute(e, "ask") == Some("subscribe")
    ensures p != Local
  {
    if Attribute(e, "ask") == Some("subscribe") then Remote else Pending.None
  }

  /** The item a child that produces an item stands for. */
  function ItemFrom(account: Jid, parse: string -> Option<Jid>, e: Element): Item
    requires IsRosterItem(parse)(e) && GroupTexts(e.children).Some?
  {
    Item(account, JidOf(e, parse).value, SubscriptionOf(e), PendingOf(e), Attribute(e, "name"), GroupTexts(e.children).value)
  }

  /** The items of a payload, in document order; none when a group without text traps. */
  function DecodeItems(children: seq<Element>, account: Jid, parse: string -> Option<Jid>): (r: Option<seq<Item>>)
    ensures r.Some? ==> forall k :: 0 <= k < |r.value| ==> r.value[k].account == account
  {
    if children == [] then Some([])
    else
      var e := children[0];
      var rest := DecodeItems(children[1..], account, parse);
      if !IsRosterItem(parse)(e) then rest
      else if GroupTexts(e.children).None? || rest.None? then Option.None
      else Some([ItemFrom(account, parse, e)] + rest.value)
  }

  /**
   * `RosterResult(element:account:)`.  Anything but a roster `query` gives
   * the empty result; none means the decoder traps.
   */
  function Decode(e: Element, account: Jid, parse: string -> Option<Jid>): (r: Option<RosterResult>)
    ensures e.qname != QueryName ==> r == Some(RosterResult(Option.None, []))
    ensures e.qname == QueryName && r.Some? ==> r.value.version == Attribute(e, "ver")
    ensures r.Some? ==> forall k :: 0 <= k < |r.value.items| ==> r.value.items[k].account == account
  {
    if e.qname != QueryName then Some(RosterResult(Option.None, []))
    else match DecodeItems(e.children, account, parse)
      case None => Option.None
      case Some(items) => Some(RosterResult(Attribute(e, "ver"), items))
  }

  /** The decoder traps exactly when an item child that produces an item has a group without text. */
  lemma {:induction false} DecodeItemsTraps(children: seq<Element>, account: Jid, parse: string -> Option<Jid>)
    ensures DecodeItems(children, account, parse).None? <==>
      exists k :: 0 <= k < |children| && IsRosterItem(parse)(children[k]) && GroupTexts(children[k].children).None?
  {
    if children != [] {
      DecodeItemsTraps(children[1..], account, parse);
      assert forall k :: 1 <= k < |children| ==> children[k] == children[1..][k - 1];
      if exists k :: 1 <= k < |children| && IsRosterItem(parse)(children[k]) && GroupTexts(children[k].children).None? {
        var k :| 1 <= k < |children| && IsRosterItem(parse)(children[k]) && GroupTexts(children[k].children).None?;
        assert IsRosterItem(parse)(children[1..][k - 1]);
      }
    }
  }

  /**
   * The k-th decoded item comes from the k-th child that produces an item,
   * and carries that child's counterpart, subscription, pending marker, name
   * and groups.
   */
  lemma {:induction false} DecodedItemCount(children: seq<Element>, account: Jid, parse: string -> Option<Jid>)
    requires DecodeItems(children, account, parse).Some?
    ensures |DecodeItems(children, account, parse).value| == |Filter(children, IsRosterItem(parse))|
  {
    if children != [] {
      DecodedItemCount(children[1..], account, parse);
    }
  }

  /** A first child that produces no item is skipped by the decoder. */
  lemma DecodeItemsSkip(children: seq<Element>, account: Jid, parse: string -> Option<Jid>)
    requires children != [] && !IsRosterItem(parse)(children[0])
    ensures DecodeItems(children, account, parse) == DecodeItems(children[1..], account, parse)
    ensures Filter(children, IsRosterItem(parse)) == Filter(children[1..], IsRosterItem(parse))
  {
  }

  /** A first child that produces an item becomes the first decoded item. */
  lemma DecodeItemsTake(children: seq<Element>, account: Jid, parse: string -> Option<Jid>)
    requires children != [] && IsRosterItem(parse)(children[0])
    requires DecodeItems(children, account, parse).Some?
    ensures GroupTexts(children[0].children).Some? && DecodeItems(children[1..], account, parse).Some?
    ensures DecodeItems(children, account, parse).value
      == [ItemFrom(account, parse, children[0])] + DecodeItems(children[1..], account, parse).value
    ensures Filter(children, IsRosterItem(parse)) == [children[0]] + Filter(children[1..], IsRosterItem(parse))
  {
  }

  lemma {:induction false} DecodedItemOrigin(children: seq<Element>, account: Jid, parse: string -> Option<Jid>, k: nat)
    requires DecodeItems(children, account, parse).Some?
    requires k < |DecodeItems(children, account, parse).value|
    ensures k < |Filter(children, IsRosterItem(parse))|
    ensures var e := Filter(children, IsRosterItem(parse))[k];
      IsRosterItem(parse)(e) && GroupTexts(e.children).Some?
      && DecodeItems(children, account, parse).value[k] == ItemFrom(account, parse, e)
  {
    if !IsRosterItem(parse)(children[0]) {
      DecodeItemsSkip(children, account, parse);
      DecodedItemOrigin(children[1..], account, parse, k);
    } else {
      DecodeItemsTake(children, account, parse);
      if k > 0 {
        DecodedItemOrigin(children[1..], account, parse, k - 1);
      }
    }
  }

  lemma DecodedItemFields(children: seq<Element>, account: Jid, parse: string -> Option<Jid>, k: nat)
    requires DecodeItems(children, account, parse).Some?
    requires k < |DecodeItems(children, account, parse).value|
    ensures k < |Filter(children, IsRosterItem(parse))|
    ensures var item := DecodeItems(children, account, parse).value[k];
      var e := Filter(children, IsRosterItem(parse))[k];
      e.qname == ItemName && JidOf(e, parse) == Some(item.counterpart)
      && item.account == account
      && item.subscription == SubscriptionOf(e) && item.pending == PendingOf(e)
      && item.name == Attribute(e, "name") && GroupTexts(e.children) == Some(item.groups)
  {
    DecodedItemOrigin(children, account, parse, k);
  }

  /** `ver` is sent as the stored version, or empty when there is none (section 2.6.2 of RFC 6121). */
  function PullQuery(version: Option<string>): (q: Element)
    ensures q.qname == QueryName && q.children == []
    ensures Attribute(q, "ver") == Some(version.GetOr(""))
  {
    Element(QueryName, map["ver" := version.GetOr("")], [], Option.None)
  }

  function GroupElement(name: string): Element {
    Element(GroupName, map[], [], Some(name))
  }

  /** The query of the set request a local add sends: `jid`, `name` (empty when none) and one `group` per group. */
  function AddQuery(item: Item): Element {
    Element(QueryName, map[], [AddedItem(item)], Option.None)
  }

  function AddedItem(item: Item): Element {
    Element(ItemName, map["jid" := item.counterpart.ToString(), "name" := item.name.GetOr("")],
      Map(item.groups, GroupElement), Option.None)
  }

  /** The attributes of an add request's item element: `jid` and `name`, no `subscription`, no `ask`. */
  lemma AddedItemAttributes(item: Item)
    ensures var e := AddedItem(item);
      && Attribute(e, "jid") == Some(item.counterpart.ToString())
      && Attribute(e, "name") == Some(item.name.GetOr(""))
      && Attribute(e, "subscription").None? && Attribute(e, "ask").None?
  {
    var e := AddedItem(item);
    assert e.attributes.Keys == {"jid", "name"};
    assert "subscription" != "jid" && "subscription" != "name";
    assert "ask" != "jid" && "ask" != "name";
  }

  /** The item element of an add request reads back as the item's counterpart, name and groups, and nothing else. */
  lemma AddedItemFields(item: Item, parse: string -> Option<Jid>)
    requires parse(item.counterpart.ToString()) == Some(item.counterpart)
    requires forall k :: 0 <= k < |item.groups| ==> IsTrimmed(item.groups[k])
    ensures var e := AddedItem(item);
      && IsRosterItem(parse)(e) && JidOf(e, parse) == Some(item.counterpart)
      && SubscriptionOf(e) == Subscription.None && PendingOf(e) == Pending.None
      && Attribute(e, "name") == Some(item.name.GetOr(""))
      && GroupTexts(e.children) == Some(item.groups)
  {
    AddedItemAttributes(item);
    GroupElementsDecode(item.groups);
  }

  /** The query of the set request a local remove sends: `jid` and `subscription='remove'`. */
  function RemoveQuery(item: Item): Element {
    Element(QueryName, map[], [
      Element(ItemName, map["jid" := item.counterpart.ToString(), "subscription" := "remove"], [], Option.None)],
      Option.None)
  }

  /** A query without `ver` holding one item child decodes to that child's item and no version. */
  lemma DecodeOneItem(e: Element, account: Jid, parse: string -> Option<Jid>)
    requires IsRosterItem(parse)(e) && GroupTexts(e.children).Some?
    ensures Decode(Element(QueryName, map[], [e], Option.None), account, parse) == Some(RosterResult(Option.None, [
      Item(account, JidOf(e, parse).value, SubscriptionOf(e), PendingOf(e), Attribute(e, "name"), GroupTexts(e.children).value)]))
  {
    assert [e][1..] == [];
    assert DecodeItems([e], account, parse) == Some([ItemFrom(account, parse, e)] + []);
    assert [ItemFrom(account, parse, e)] + [] == [ItemFrom(account, parse, e)];
  }

  lemma GroupElementText(name: string)
    requires IsTrimmed(name)
    ensures GroupText(GroupElement(name)) == name
  {
    TrimKeepsTrimmed(name);
  }

  lemma {:induction false} GroupElementsDecode(groups: seq<string>)
    requires forall k :: 0 <= k < |groups| ==> IsTrimmed(groups[k])
    ensures GroupTexts(Map(groups, GroupElement)) == Some(groups)
  {
    if groups != [] {
      var es := Map(groups, GroupElement);
      var rest := groups[1..];
      assert es[0] == GroupElement(groups[0]) && es[1..] == Map(rest, GroupElement);
      assert forall k :: 0 <= k < |rest| ==> rest[k] == groups[k + 1];
      GroupElementsDecode(rest);
      GroupElementText(groups[0]);
      assert GroupTexts(es) == Some([groups[0]] + rest);
      assert [groups[0]] + rest == groups;
    }
  }

  /**
   * The request a local add sends decodes back to the item's counterpart,
   * name (empty when it had none) and groups, with no subscription and no
   * pending marker.
   */
  lemma AddQueryRoundTrip(item: Item, account: Jid, parse: string -> Option<Jid>)
    requires parse(item.counterpart.ToString()) == Some(item.counterpart)
    requires forall k :: 0 <= k < |item.groups| ==> IsTrimmed(item.groups[k])
    ensures Decode(AddQuery(item), account, parse) == Some(RosterResult(Option.None, [
      Item(account, item.counterpart, Subscription.None, Pending.None, Some(item.name.GetOr("")), item.groups)]))
  {
    AddedItemFields(item, parse);
    DecodeOneItem(AddedItem(item), account, parse);
  }

  /** The request a local remove sends decodes back to a `remove` item for the same counterpart. */
  lemma RemoveQueryRoundTrip(item: Item, account: Jid, parse: string -> Option<Jid>)
    requires parse(item.counterpart.ToString()) == Some(item.counterpart)
    ensures Decode(RemoveQuery(item), account, parse) == Some(RosterResult(Option.None, [
      Item(account, item.counterpart, Remove, Pending.None, Option.None, [])]))
  {
    var e := RemoveQuery(item).children[0];
    assert RemoveQuery(item) == Element(QueryName, map[], [e], Option.None);
    assert Attribute(e, "subscription") == Some("remove");
    assert Attribute(e, "ask").None? && Attribute(e, "name").None?;
    assert JidOf(e, parse) == Some(item.counterpart);
    assert GroupTexts(e.children) == Some([]);
    DecodeOneItem(e, account, parse);
  }
}

# Roster synchronisation of XMPPContactHub, in Dafny

This project models the roster layer of XMPPContactHub and proves properties of it. The roster is an XMPP client's contact list. The layer has five parts:

- **Items** (`Roster`): a contact with its subscription state, its pending request, its name and its groups. Two items are equal when their account and counterpart are equal.
- **The versioned store** (`RosterTables` and `FileRosters`): a SQLite database with an item table, a group table (one row per contact and group, unique per pair) and a stored roster version.
  - `RosterTables` gives each transaction (`add`, `remove`, `replace`) as a pure function. The function yields the new tables or the error that rolled the transaction back.
  - The class `FileRosters.FileRoster` performs the same transactions in place. The `for` loops of the source are methods of their own (`InsertGroupRows`, `InsertItemRows`, `GroupsByCounterpart`, `ItemsOfRows`), each proved against the pure function it computes. Each class method is proved to commit exactly what the pure function yields, or to keep the old state.
  - The queries read the tables back as items and filter them.
- **The per-account registry** (`FileRosterManagers`): the map of live stores and the map of stores still opening. An opening store holds the callers waiting for it.
  - Pure transition functions state the registry's lifecycle.
  - The class `FileRosterManager` is proved to follow those functions.
  - Callbacks are returned as lists of notices.
- **The payload decoder** (`RosterResults`): it turns a `{jabber:iq:roster}query` element into a version and a list of items. The element is an abstract tree (`Xml`). The roster format follows section 2.1 of RFC 6121.
- **The handler** (`RosterHandlers`): the cache of stores per account.
  - Roster pushes are applied as in section 2.1.6 of RFC 6121.
  - On connect, the roster is pulled with roster versioning, as in section 2.6 of RFC 6121.
  - `RosterHandlerProxy` marks a local edit as pending before it writes through to the store, then builds the request to the server.

JIDs are a concrete datatype (`Jids`) with `Bare()` and a string form. JID parsing is a parameter `parse: string -> Option<Jid>`, because the library that implements it is not part of this model.

## Model

| member | source | states |
|---|---|---|
| Roster.SubscriptionRaw | XMPPContactHub/XMPPContactHub/Roster.swift:46-52 | each subscription's raw value is non-empty and decodes back to that subscription |
| Roster.SubscriptionFromRaw | XMPPContactHub/XMPPContactHub/Roster.swift:46-52 | a raw string decodes to a subscription exactly when it is one of none, to, from, both, remove |
| Roster.PendingRaw | XMPPContactHub/XMPPContactHub/Roster.swift:54-58 | each pending value's raw value is non-empty and decodes back to it |
| Roster.PendingFromRaw | XMPPContactHub/XMPPContactHub/Roster.swift:54-58 | a raw string decodes to a pending value exactly when it is none, local or remote |
| Roster.RawValuesRoundTrip | XMPPContactHub/XMPPContactHub/FileRoster.swift:457-479 | a stored raw value that decodes encodes back to the same string, for both enums |
| Roster.SameItemIsEquivalence | XMPPContactHub/XMPPContactHub/Roster.swift:70-72 | item equality is reflexive, symmetric and transitive |
| Roster.SameItemIgnoresPayload | XMPPContactHub/XMPPContactHub/Roster.swift:70-72 | changing the subscription, pending, name and groups keeps an item equal to itself |
| Roster.EqualItemsHashEqually | XMPPContactHub/XMPPContactHub/Roster.swift:67-72 | equal items have equal hash values, for any JID hash |
| Roster.ContainsIsUpToEquality | XMPPContactHub/XMPPContactHubTests/FileRosterTests.swift:139-144 | a list contains an item exactly when it contains every item equal to it |
| Jids.Jid.Bare | XMPPContactHub/XMPPContactHub/FileRoster.swift:55 | the bare JID keeps the local part and the domain and drops the resource |
| Jids.BareIsIdempotent | XMPPContactHub/XMPPContactHub/FileRoster.swift:55 | a bare JID is bare, and taking it again changes nothing |
| Seqs.Filter | XMPPContactHub/XMPPContactHub/FileRoster.swift:259-273 | the filter keeps exactly the elements that satisfy the predicate |
| Seqs.Dedup | XMPPContactHub/XMPPContactHub/FileRoster.swift:282-288 | the result has no repetitions and holds exactly the elements of the input |
| Seqs.FilterSnoc | XMPPContactHub/XMPPContactHub/FileRoster.swift:259-273 | the filter keeps the input's order: an element added at the end is kept at the end exactly when it satisfies the predicate |
| Seqs.DedupSnoc | XMPPContactHub/XMPPContactHub/FileRoster.swift:282-288 | the distinct list keeps first occurrences in order: an element added at the end is appended exactly when it is new |
| RosterTables.AddOutcome | XMPPContactHub/XMPPContactHub/FileRoster.swift:107-137 | add fails with notSetup when the store is closed, with invalidItem on a foreign account, with a constraint violation on a repeated group, and succeeds otherwise |
| RosterTables.AddIsUpsert | XMPPContactHub/XMPPContactHub/FileRoster.swift:117-151 | after add, the counterpart has exactly one row with the item's fields and exactly the item's groups; other counterparts keep their rows and groups; the version is the given one |
| RosterTables.RemoveDeletes | XMPPContactHub/XMPPContactHub/FileRoster.swift:158-183 | remove deletes every row and group of the counterpart, whatever the item's account; it keeps all others and stores the given version |
| RosterTables.ItemForRows | XMPPContactHub/XMPPContactHub/FileRoster.swift:245-251 | item(for:) is absent exactly when no row has that counterpart, and is the first such row otherwise |
| RosterTables.AddThenItemFor | XMPPContactHub/XMPPContactHub/FileRoster.swift:107-155 | after a committed add, item(for:) returns the added item for its counterpart and the old answer for every other counterpart |
| RosterTables.RemoveThenItemFor | XMPPContactHub/XMPPContactHub/FileRoster.swift:158-187 | after remove, item(for:) returns nothing for the counterpart and the old answer for every other counterpart |
| RosterTables.InsertItemsAccounts | XMPPContactHub/XMPPContactHub/FileRoster.swift:204-215 | a replace loop that commits only ever saw items of the store's account |
| RosterTables.ReplaceRejectsForeignItems | XMPPContactHub/XMPPContactHub/FileRoster.swift:196-226 | replace fails, and so rolls back, when any item belongs to another account |
| RosterTables.InsertItemsRows | XMPPContactHub/XMPPContactHub/FileRoster.swift:204-226 | after the replace loop, a counterpart has a row exactly when some item names it, and that row has the fields of the last such item |
| RosterTables.InsertItemsGroups | XMPPContactHub/XMPPContactHub/FileRoster.swift:204-226 | after the replace loop, a counterpart's groups are the groups of all items naming it, concatenated in order |
| RosterTables.ReplaceLastWins | XMPPContactHub/XMPPContactHubTests/FileRosterTests.swift:139-144 | after replace, item(for:) returns the last item with that counterpart, with the accumulated groups; the version is the given one |
| RosterTables.InsertItemsFresh | XMPPContactHub/XMPPContactHub/FileRoster.swift:196-226 | replacing with items of distinct counterparts and without repeated groups succeeds, with one row and the item's own groups per item, in order |
| RosterTables.InsertFreshItem | XMPPContactHub/XMPPContactHub/FileRoster.swift:117-137 | an item whose counterpart has no row yet and whose groups do not repeat is inserted by appending its row and its group rows |
| RosterTables.GroupsNamedByDistinct | XMPPContactHub/XMPPContactHub/FileRoster.swift:204-226 | with distinct counterparts, the groups named for an item's counterpart are that item's groups |
| RosterTables.ReplaceRoundTrip | XMPPContactHub/XMPPContactHub/FileRoster.swift:189-243 | replacing with such items and reading all items back returns exactly those items, and the version is the given one |
| RosterTables.ReadBackAt | XMPPContactHub/XMPPContactHub/FileRoster.swift:298-346 | after a fresh replace, the k-th item read back equals the k-th item written |
| RosterTables.InsertGroupsSpec | XMPPContactHub/XMPPContactHub/FileRoster.swift:130-137 | inserting group rows succeeds exactly when no name repeats and no pair exists already (line 419), and then appends one row per name |
| RosterTables.UpsertRowsFor | XMPPContactHub/XMPPContactHub/FileRoster.swift:117-129 | insert-or-replace leaves exactly the new row for its counterpart and keeps the rows of the others |
| RosterTables.DeleteRowsFor | XMPPContactHub/XMPPContactHub/FileRoster.swift:164-170 | deleting by counterpart removes its rows and keeps every other row |
| RosterTables.GroupNamesAppend | XMPPContactHub/XMPPContactHub/FileRoster.swift:130-137 | appending group rows for a counterpart extends its group list with those names and leaves the others' lists alone |
| RosterTables.GroupNamesWithout | XMPPContactHub/XMPPContactHub/FileRoster.swift:164-170 | deleting a counterpart's group rows empties its list and leaves the others' lists alone |
| RosterTables.InsertItemsSnoc | XMPPContactHub/XMPPContactHub/FileRoster.swift:204-226 | the replace loop over items plus one more is the loop over the items, then that one insert |
| RosterTables.InsertItemCommitted | XMPPContactHub/XMPPContactHub/FileRoster.swift:204-226 | one committed insert upserts the item row, appends its group rows and keeps the version |
| RosterTables.InsertItemGroups | XMPPContactHub/XMPPContactHub/FileRoster.swift:130-137 | one committed insert extends a counterpart's group names by the item's groups when the item is that counterpart's, and leaves them otherwise |
| RosterTables.GroupsNamedBySnoc | XMPPContactHub/XMPPContactHub/FileRoster.swift:204-226 | the groups named for a counterpart grow by an item's groups exactly when the item names that counterpart |
| RosterTables.InsertableSnoc | XMPPContactHub/XMPPContactHub/FileRoster.swift:419 | a list of group names can still be inserted after one more name exactly when that name is new and the pair is not stored |
| RosterTables.RowInGroupRowsOf | XMPPContactHub/XMPPContactHub/FileRoster.swift:130-137 | a group row is among the rows built for a counterpart exactly when it names that counterpart and one of the names |
| RosterTables.InsertableOfPrefix | XMPPContactHub/XMPPContactHub/FileRoster.swift:419 | any prefix of insertable group names is insertable |
| RosterTables.InsertGroupsPrefixFails | XMPPContactHub/XMPPContactHub/FileRoster.swift:130-137 | once inserting a prefix of the groups violates the constraint, inserting them all does too |
| RosterTables.InsertItemsPrefixFails | XMPPContactHub/XMPPContactHub/FileRoster.swift:204-226 | once the replace loop fails on a prefix, the whole loop fails with the same error |
| RosterTables.GroupNamesStep | XMPPContactHub/XMPPContactHub/FileRoster.swift:306-318 | each group row read adds its name to its counterpart's list and to no other |
| RosterTables.GroupListStep | XMPPContactHub/XMPPContactHub/FileRoster.swift:282-288 | each name read extends the distinct list exactly when the name is new |
| RosterTables.DeleteGroupsKeepsConsistency | XMPPContactHub/XMPPContactHub/FileRoster.swift:164-170 | deleting a counterpart's group rows keeps the store's invariant: at most one row per counterpart, unique group pairs, no group row without its item |
| RosterTables.UpsertKeepsOneRowEach | XMPPContactHub/XMPPContactHub/FileRoster.swift:117-129 | insert-or-replace keeps at most one item row per counterpart |
| RosterTables.AppendGroupRowsNoDuplicates | XMPPContactHub/XMPPContactHub/FileRoster.swift:130-137 | appending insertable group rows keeps every (counterpart, group) pair unique |
| RosterTables.UpsertKeepsGroupOwners | XMPPContactHub/XMPPContactHub/FileRoster.swift:117-137 | after an insert, every group row, old or new, belongs to a counterpart that has an item row |
| RosterTables.InsertItemKeepsConsistency | XMPPContactHub/XMPPContactHub/FileRoster.swift:117-137 | a committed insert keeps the store's invariant |
| RosterTables.AddKeepsConsistency | XMPPContactHub/XMPPContactHub/FileRoster.swift:107-155 | a committed add keeps the store's invariant |
| RosterTables.RemoveKeepsConsistency | XMPPContactHub/XMPPContactHub/FileRoster.swift:158-187 | remove keeps the store's invariant |
| RosterTables.InsertItemsKeepConsistency | XMPPContactHub/XMPPContactHub/FileRoster.swift:204-226 | the committed replace loop keeps the store's invariant |
| RosterTables.ReplaceKeepsConsistency | XMPPContactHub/XMPPContactHub/FileRoster.swift:190-243 | a committed replace yields a store that satisfies the invariant |
| RosterTables.ItemsIn | XMPPContactHub/XMPPContactHub/FileRoster.swift:259-265 | every item of a group carries the store's account and lists that group |
| RosterTables.ItemsPending | XMPPContactHub/XMPPContactHub/FileRoster.swift:267-273 | every item returned carries the store's account and has that pending value |
| RosterTables.GroupListedIsHeld | XMPPContactHub/XMPPContactHub/FileRoster.swift:275-291 | every stored group name is held by some item |
| RosterTables.GroupHeldIsListed | XMPPContactHub/XMPPContactHub/FileRoster.swift:275-291 | every group name an item holds is stored |
| RosterTables.GroupRowIsNamed | XMPPContactHub/XMPPContactHub/FileRoster.swift:306-319 | a stored group row is among the names gathered for its counterpart |
| RosterTables.NamedGroupIsRow | XMPPContactHub/XMPPContactHub/FileRoster.swift:306-319 | a name gathered for a counterpart comes from a stored group row |
| RosterTables.GroupListIsItemGroups | XMPPContactHub/XMPPContactHubTests/FileRosterTests.swift:183-190 | groups() lists each name some item holds exactly once, and no other name |
| FileRosters.InsertGroupRows | XMPPContactHub/XMPPContactHub/FileRoster.swift:130-137 | the group loop yields the table with one row appended per name, or nothing as soon as a pair is already stored, exactly as the group inserts of the transaction do |
| FileRosters.InsertItemRows | XMPPContactHub/XMPPContactHub/FileRoster.swift:204-226 | the item loop of replace yields the tables the sequence of inserts gives, stopping with invalidItem or a constraint violation at the first item that throws |
| FileRosters.GroupsByCounterpart | XMPPContactHub/XMPPContactHub/FileRoster.swift:306-319 | the dictionary built from the group rows maps every counterpart to its group names in row order, and an absent counterpart to none |
| FileRosters.ItemsOfRows | XMPPContactHub/XMPPContactHub/FileRoster.swift:321-342 | the item loop reads back each item row, in order, as an item of the account with the groups gathered for its counterpart |
| FileRosters.FileRoster.constructor | XMPPContactHub/XMPPContactHub/FileRoster.swift:53-58 | a new store is closed, holds the existing tables and keeps the account bare |
| FileRosters.FileRoster.Open | XMPPContactHub/XMPPContactHub/FileRoster.swift:62-71 | open reports the setup outcome, leaves the tables alone and makes the store usable when setup succeeds |
| FileRosters.FileRoster.Close | XMPPContactHub/XMPPContactHub/FileRoster.swift:73-77 | close makes the store unusable and keeps its tables |
| FileRosters.FileRoster.Version | XMPPContactHub/XMPPContactHub/FileRoster.swift:86-104 | the version is absent on a closed store, and is the stored version otherwise |
| FileRosters.FileRoster.Add | XMPPContactHub/XMPPContactHub/FileRoster.swift:106-155 | add returns the transaction's error and commits its tables, or keeps the old ones; the store's invariant holds |
| FileRosters.FileRoster.Remove | XMPPContactHub/XMPPContactHub/FileRoster.swift:157-187 | remove returns the transaction's error and commits its tables, or keeps the old ones |
| FileRosters.FileRoster.Replace | XMPPContactHub/XMPPContactHub/FileRoster.swift:189-243 | replace returns the transaction's error and commits its tables, or keeps the old ones, whatever item fails |
| FileRosters.FileRoster.All | XMPPContactHub/XMPPContactHub/FileRoster.swift:298-346 | all() fails with notSetup on a closed store, and otherwise returns every row, in order, as an item with its groups |
| FileRosters.FileRoster.Items | XMPPContactHub/XMPPContactHub/FileRoster.swift:253-257 | items() is all() |
| FileRosters.FileRoster.ItemFor | XMPPContactHub/XMPPContactHub/FileRoster.swift:245-251 | item(for:) fails with notSetup on a closed store, and otherwise returns the first item with that counterpart |
| FileRosters.FileRoster.ItemsIn | XMPPContactHub/XMPPContactHub/FileRoster.swift:259-265 | items(in:) fails with notSetup on a closed store, and otherwise returns the items of that group, in order |
| FileRosters.FileRoster.ItemsPending | XMPPContactHub/XMPPContactHub/FileRoster.swift:267-273 | items(pending:) fails with notSetup on a closed store, and otherwise returns the items with that pending value |
| FileRosters.FileRoster.Groups | XMPPContactHub/XMPPContactHub/FileRoster.swift:275-291 | groups() fails with notSetup on a closed store, and otherwise lists the distinct group names |
| FileRosterManagers.RequestKeepsInvariant | XMPPContactHub/XMPPContactHub/FileRosterManager.swift:65-82 | a request keeps the registry's invariant: no account is both live and opening, and each has a directory |
| FileRosterManagers.CompleteOpenKeepsInvariant | XMPPContactHub/XMPPContactHub/FileRosterManager.swift:104-118 | a completed open keeps the invariant |
| FileRosterManagers.DeleteKeepsInvariant | XMPPContactHub/XMPPContactHub/FileRosterManager.swift:84-102 | a delete keeps the invariant |
| FileRosterManagers.LiveRosterIsShared | XMPPContactHub/XMPPContactHub/FileRosterManager.swift:68-69 | a live store is handed back as it is, and the registry does not change |
| FileRosterManagers.MissingRosterIsRefused | XMPPContactHub/XMPPContactHub/FileRosterManager.swift:120-124 | without create and without a directory, the caller gets doesNotExist and the registry does not change |
| FileRosterManagers.RequestStartsOpen | XMPPContactHub/XMPPContactHub/FileRosterManager.swift:73-80 | a request changes the registry exactly when it starts an open, and the new entry holds exactly this caller |
| FileRosterManagers.CompleteOpenNotifiesEveryWaiter | XMPPContactHub/XMPPContactHub/FileRosterManager.swift:107-114 | the entry is removed, the store goes live only without an error, and every waiter gets the same store and error, in order |
| FileRosterManagers.DeletedOpenNeverBecomesLive | XMPPContactHub/XMPPContactHub/FileRosterManager.swift:107 | an open that completes after its entry was deleted changes nothing and calls nobody |
| FileRosterManagers.DeletedRosterDoesNotExist | XMPPContactHub/XMPPContactHubTests/FileRosterManagerTests.swift:88-103 | after a delete, a request without create gets doesNotExist |
| FileRosterManagers.DeleteNotifiesWaiters | XMPPContactHub/XMPPContactHub/FileRosterManager.swift:90-95 | deleting an opening store calls every waiter with deleted |
| FileRosterManagers.OpenDeleteScenario | XMPPContactHub/XMPPContactHubTests/FileRosterManagerTests.swift:58-104 | create, open, delete, then a request without create: the outcomes the test expects |
| FileRosterManagers.LateWaiterIsDropped | XMPPContactHub/XMPPContactHub/FileRosterManager.swift:70-71 | a caller that arrives while the store is opening is never called back |
| FileRosterManagers.FullJidRequestNeverResolves | XMPPContactHub/XMPPContactHub/FileRosterManager.swift:73-76 | a request for a full JID is parked under that JID, while the completion looks under the bare JID, so the caller is never answered |
| FileRosterManagers.StaleOpenIsAdopted | XMPPContactHub/XMPPContactHub/FileRosterManager.swift:104-118 | after request, delete and a second request, the first, deleted store's completion goes live and answers the second caller |
| FileRosterManagers.CorrectedNotifiesLateWaiter | XMPPContactHub/XMPPContactHub/FileRosterManager.swift:70-71 | with the waiter appended to the stored entry, the late caller is answered with the others |
| FileRosterManagers.CorrectedResolvesFullJid | XMPPContactHub/XMPPContactHub/FileRosterManager.swift:73-76 | with requests keyed by the bare JID, a full-JID request is answered when its store opens |
| FileRosterManagers.CorrectedIgnoresStaleOpen | XMPPContactHub/XMPPContactHub/FileRosterManager.swift:107 | a completion whose store is not the entry's store changes nothing |
| FileRosterManagers.CorrectedKeepsInvariant | XMPPContactHub/XMPPContactHub/FileRosterManager.swift:65-118 | the corrected request and completion keep the invariant |
| FileRosterManagers.Notify | XMPPContactHub/XMPPContactHub/FileRosterManager.swift:112-114 | the loop calls every handler, in order, with the same outcome |
| FileRosterManagers.FileRosterManager.constructor | XMPPContactHub/XMPPContactHub/FileRosterManager.swift:57-61 | a new manager has no live and no opening store |
| FileRosterManagers.FileRosterManager.RosterFor | XMPPContactHub/XMPPContactHub/FileRosterManager.swift:65-82 | the manager follows the registry's request step; when it starts an open, the store is new, closed, bare and holds the existing tables |
| FileRosterManagers.FileRosterManager.OpenCompleted | XMPPContactHub/XMPPContactHub/FileRosterManager.swift:104-118 | the manager follows the registry's completion step, looked up by the store's account; the store opens exactly when set-up succeeds and keeps its tables |
| FileRosterManagers.FileRosterManager.DeleteRoster | XMPPContactHub/XMPPContactHub/FileRosterManager.swift:84-102 | the manager follows the registry's delete step; a live store it drops is closed with its tables kept, and every other live store is left untouched |
| RosterResults.TrimStart | XMPPContactHub/XMPPContactHub/RosterResult.swift:73 | the result is a suffix of the input, and the characters dropped are whitespace |
| RosterResults.TrimEnd | XMPPContactHub/XMPPContactHub/RosterResult.swift:73 | the result is a prefix of the input, and the characters dropped are whitespace |
| RosterResults.Trim | XMPPContactHub/XMPPContactHub/RosterResult.swift:73 | the result is a slice of the input with only whitespace outside it, and it neither starts nor ends with whitespace |
| RosterResults.TrimKeepsTrimmed | XMPPContactHub/XMPPContactHub/RosterResult.swift:73 | trimming yields a trimmed string and leaves a trimmed string as it is |
| RosterResults.GroupTexts | XMPPContactHub/XMPPContactHub/RosterResult.swift:70-75 | reading groups succeeds exactly when every group child has text, which is the force-unwrap's condition |
| RosterResults.GroupTextsInOrder | XMPPContactHub/XMPPContactHub/RosterResult.swift:70-75 | the groups are the trimmed texts of the group children, in document order |
| RosterResults.SubscriptionOf | XMPPContactHub/XMPPContactHub/RosterResult.swift:65-66 | an attribute holding a subscription's raw value gives that subscription, "remove" gives remove, an absent attribute gives none, and any value other than none is the one the attribute names |
| RosterResults.PendingOf | XMPPContactHub/XMPPContactHub/RosterResult.swift:69 | pending is remote exactly when ask is "subscribe", and is never local |
| RosterResults.DecodeItems | XMPPContactHub/XMPPContactHub/RosterResult.swift:56-83 | every decoded item carries the given account |
| RosterResults.Decode | XMPPContactHub/XMPPContactHub/RosterResult.swift:46-88 | a root that is not a roster query gives no version and no items; otherwise the version is the ver attribute and every item carries the account |
| RosterResults.DecodeItemsTraps | XMPPContactHub/XMPPContactHub/RosterResult.swift:70-75 | decoding traps exactly when some roster item has a group child without text |
| RosterResults.DecodedItemCount | XMPPContactHub/XMPPContactHub/RosterResult.swift:56-63 | one item per item child whose jid parses, and no other |
| RosterResults.DecodedItemOrigin | XMPPContactHub/XMPPContactHub/RosterResult.swift:56-83 | the k-th decoded item is the item built from the k-th child that produces one, and that child has text in every group |
| RosterResults.DecodedItemFields | XMPPContactHub/XMPPContactHub/RosterResult.swift:56-83 | the k-th item comes from the k-th item child with a parsable jid, field by field |
| RosterResults.PullQuery | XMPPContactHub/XMPPContactHub/RosterHandler.swift:252-256 | the pull query is an empty roster query whose ver is the stored version, or "" when there is none |
| RosterResults.DecodeOneItem | XMPPContactHub/XMPPContactHub/RosterResult.swift:56-83 | a query without ver holding one item child whose jid parses and whose groups all have text decodes to no version and that one item, with the account, the jid, its subscription, its pending state, its name attribute and its trimmed groups |
| RosterResults.GroupElementsDecode | XMPPContactHub/XMPPContactHub/RosterHandler.swift:304-306 | the group children of an outgoing add read back as the item's groups when these are trimmed |
| RosterResults.AddedItemAttributes | XMPPContactHub/XMPPContactHub/RosterHandler.swift:300-303 | the item element of an add carries the counterpart as jid and the name (empty when none), and neither subscription nor ask |
| RosterResults.AddedItemFields | XMPPContactHub/XMPPContactHub/RosterHandler.swift:300-306 | the item element of an add is a roster item whose jid, subscription (none), pending state (none), name and groups read back from the item |
| RosterResults.GroupElementText | XMPPContactHub/XMPPContactHub/RosterHandler.swift:304-306 | a group child built from a name without surrounding whitespace reads back as that name |
| RosterResults.AddQueryRoundTrip | XMPPContactHub/XMPPContactHub/RosterHandler.swift:298-306 | an outgoing add decodes back to the contact with its name (or "") and groups, and no subscription or pending state |
| RosterResults.RemoveQueryRoundTrip | XMPPContactHub/XMPPContactHub/RosterHandler.swift:318-323 | an outgoing remove decodes back to the contact with subscription remove and nothing else |
| RosterHandlers.QueryOf | XMPPContactHub/XMPPContactHub/RosterHandler.swift:155-157 | the query found is a roster query of the payload, and none is found exactly when the payload has none |
| RosterHandlers.PushWrites | XMPPContactHub/XMPPContactHub/RosterHandler.swift:164-188 | a push with the stored version writes nothing; otherwise there is one write per item, in order, with the push's version, and a remove exactly for subscription remove |
| RosterHandlers.ApplyWritesStopsAtFirstFailure | XMPPContactHub/XMPPContactHub/RosterHandler.swift:166-191 | what a push stores is the effect of the writes before the first failing one, all of which succeeded, and the error is that write's error |
| RosterHandlers.WriteKeepsConsistency | XMPPContactHub/XMPPContactHub/RosterHandler.swift:168-174 | a committed push write keeps the store's invariant |
| RosterHandlers.ApplyWritesKeepsConsistency | XMPPContactHub/XMPPContactHub/RosterHandler.swift:166-188 | a push keeps the store's invariant, whether or not a write fails |
| RosterHandlers.ApplyWritesStoresVersion | XMPPContactHub/XMPPContactHub/RosterHandler.swift:164-188 | a push whose writes all succeed leaves its own version stored, or none for an unversioned push |
| RosterHandlers.PerformWrite | XMPPContactHub/XMPPContactHub/RosterHandler.swift:168-185 | one push write calls remove or add on the store and commits exactly what that transaction yields, or keeps the old tables and reports its error |
| RosterHandlers.PushedRemoveDeletes | XMPPContactHub/XMPPContactHub/RosterHandler.swift:168-170 | a pushed remove item deletes its contact from an open store and leaves every other contact alone |
| RosterHandlers.InsertItemsInvalidItem | XMPPContactHub/XMPPContactHub/FileRoster.swift:204-215 | the replace loop fails with invalidItem only if some item belongs to another account |
| RosterHandlers.PullNeverRejectsForeignItems | XMPPContactHub/XMPPContactHub/RosterHandler.swift:280-290 | a pulled roster never makes replace fail with invalidItem |
| RosterHandlers.ReplayedPullKeeps | XMPPContactHub/XMPPContactHub/RosterHandler.swift:280-286 | once a versioned pull is stored, the same answer again writes nothing |
| RosterHandlers.PulledRosterReadsBack | XMPPContactHub/XMPPContactHub/RosterHandler.swift:280-290 | a pulled roster with distinct contacts, stored in an open store, reads back as exactly the pulled items with the pulled version |
| RosterHandlers.StampForAdd | XMPPContactHub/XMPPContactHub/RosterHandler.swift:356-362 | the item written by a local add equals the given one, is pending local and differs from it in nothing else |
| RosterHandlers.StampForRemove | XMPPContactHub/XMPPContactHub/RosterHandler.swift:367-373 | the item written by a local remove is pending local with subscription remove, and differs from the given one in nothing else |
| RosterHandlers.LocalAddIsPending | XMPPContactHub/XMPPContactHub/RosterHandler.swift:356-365 | after a local add the store returns the item as given but pending local, and holds no version |
| RosterHandlers.EchoedRemoveDeletes | XMPPContactHub/XMPPContactHub/RosterHandler.swift:318-323 | when the server pushes back a local remove unversioned, the push is acknowledged, the contact is gone and the version is cleared |
| RosterHandlers.RosterHandlerProxy.constructor | XMPPContactHub/XMPPContactHub/RosterHandler.swift:350-353 | the proxy wraps the given store |
| RosterHandlers.RosterHandlerProxy.Add | XMPPContactHub/XMPPContactHub/RosterHandler.swift:356-365 | the store commits the item marked pending local, or keeps its tables; the add request is built only when the store call succeeded |
| RosterHandlers.RosterHandlerProxy.Remove | XMPPContactHub/XMPPContactHub/RosterHandler.swift:367-376 | the store removes the item marked pending local and remove; the remove request is built only when the store call succeeded |
| RosterHandlers.RosterHandlerProxy.ItemFor | XMPPContactHub/XMPPContactHub/RosterHandler.swift:378 | the proxy answers item(for:) as the store does |
| RosterHandlers.RosterHandlerProxy.Items | XMPPContactHub/XMPPContactHub/RosterHandler.swift:380 | the proxy answers items() as the store does |
| RosterHandlers.RosterHandlerProxy.ItemsIn | XMPPContactHub/XMPPContactHub/RosterHandler.swift:381 | the proxy answers items(in:) as the store does |
| RosterHandlers.RosterHandlerProxy.ItemsPending | XMPPContactHub/XMPPContactHub/RosterHandler.swift:382 | the proxy answers items(pending:) as the store does |
| RosterHandlers.RosterHandlerProxy.Groups | XMPPContactHub/XMPPContactHub/RosterHandler.swift:384 | the proxy answers groups() as the store does |
| RosterHandlers.RosterHandler.constructor | XMPPContactHub/XMPPContactHub/RosterHandler.swift:64 | the cache starts empty |
| RosterHandlers.RosterHandler.AddRoster | XMPPContactHub/XMPPContactHub/RosterHandler.swift:66-77 | a cached store comes back without asking the manager; otherwise the manager is asked, always with create |
| RosterHandlers.RosterHandler.RosterArrived | XMPPContactHub/XMPPContactHub/RosterHandler.swift:71-74 | the manager's answer is cached, and an answer without a store removes the account from the cache |
| RosterHandlers.RosterHandler.RosterFor | XMPPContactHub/XMPPContactHub/RosterHandler.swift:89-101 | a cached store comes back in a new proxy; otherwise the manager is asked with create |
| RosterHandlers.RosterHandler.DeleteRoster | XMPPContactHub/XMPPContactHub/RosterHandler.swift:103-108 | the account leaves the cache and the deletion goes to the manager for that account |
| RosterHandlers.RosterHandler.DidConnect | XMPPContactHub/XMPPContactHub/RosterHandler.swift:112-133 | a resumed stream does nothing; otherwise a cached store is pulled with its version, or the store is requested first |
| RosterHandlers.RosterHandler.DidDisconnect | XMPPContactHub/XMPPContactHub/RosterHandler.swift:135-139 | the account leaves the cache and nothing else changes |
| RosterHandlers.RosterHandler.Update | XMPPContactHub/XMPPContactHub/RosterHandler.swift:252-256 | the roster request carries the store's version, or "" |
| RosterHandlers.RosterHandler.ApplyPullResponse | XMPPContactHub/XMPPContactHub/RosterHandler.swift:262-295 | the handler takes the pull decision on the store as it was, replaces the roster exactly when that decision says so, and otherwise leaves the tables alone |
| RosterHandlers.RosterHandler.ApplyPush | XMPPContactHub/XMPPContactHub/RosterHandler.swift:166-188 | the push loop stores what the writes up to the first failure yield, and returns that failure |
| RosterHandlers.RosterHandler.HandleIqRequest | XMPPContactHub/XMPPContactHub/RosterHandler.swift:143-194 | no sender or no cached store gives forbidden; otherwise the reply and the new tables are those of the push decision on the sender's store |

## Left out

- SQLite setup, the busy handler, the schema's `version.txt` file and table creation: these are I/O. Storage is modelled as tables with transactional rollback. A failed setup is a parameter of `Open`.
- Dispatch queues and completion plumbing: each queue block is one atomic step, and callbacks are returned as values (notices, requests, replies).
- The change notification posted after each write: a process-wide side effect.
- The dispatcher, stanza construction, XPath lookup, the 120-second timeout and the presence stanzas for subscribe, unsubscribe, approve and deny: transport. Outgoing requests are modelled as the query elements they carry. `subscribe(to:)` and its siblings are therefore not modelled, on the store or on the proxy.
- JID parsing and the XML library: JID parsing is the parameter `parse`, and an element is an abstract tree of qualified name, attributes, children and text.
- The store directory is named from the account string. The model keeps the set of accounts that have a directory instead.
- Creating the directory, and removing it, are modelled by the parameters `mkdirFails` and `removeFails`.
- The test fixture of the decoder test (three items) is not part of this model. Decoding is proved for every element instead.
- Query order: rows are read in insertion (rowid) order. Insert-or-replace deletes the old row and appends the new one.
- The foreign key from the group table to the item table is not enforced in the model. The store's invariant states that every group row has its item.
- Logging.
- The older `XMPPRoster` copy of the store and manager, `ContactHub.swift` (a forwarding wrapper) and `RosterManager.swift` (a protocol and an error enum, reused here as `RosterManagerError`).
- FileRosterManagers.FileRosterManager.RosterFor: the class follows the registry as written (waiters dropped, entries keyed by the requested JID). The corrected functions are stated and proved beside it and are not wired into the class.
- RosterHandlers.RosterHandler.HandleIqRequest: a payload that makes the decoder trap is modelled as the reply `Crashed`. The process itself stops there.

## Findings

| source | as written | input that shows it | evidently intended | confidence | as-written member | corrected member |
|---|---|---|---|---|---|---|
| XMPPContactHub/XMPPContactHub/FileRosterManager.swift:70-71 | the waiter is appended to a local copy of the pending entry, so the stored entry never sees it | two requests for the same account while its store is opening: the second caller is never called back | append the waiter to the stored entry | high, not executed | FileRosterManagers.LateWaiterIsDropped | FileRosterManagers.CorrectedNotifiesLateWaiter |
| XMPPContactHub/XMPPContactHub/FileRosterManager.swift:73-76 | the pending entry is keyed by the requested JID, but the completion at line 107 looks it up by the store's bare account | a request for `user@example.com/phone` with create: the open completes, finds no entry under `user@example.com`, and nobody is answered | key requests by the bare JID | medium, not executed | FileRosterManagers.FullJidRequestNeverResolves | FileRosterManagers.CorrectedResolvesFullJid |
| XMPPContactHub/XMPPContactHub/FileRosterManager.swift:107 | the completion finds the entry by account only, not by store | request, delete, request again; the first (deleted) store's open completes first and is made live for the second caller | complete only the entry whose store is the one that opened | medium, not executed | FileRosterManagers.StaleOpenIsAdopted | FileRosterManagers.CorrectedIgnoresStaleOpen |

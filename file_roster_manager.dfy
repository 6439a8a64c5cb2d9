/**
 * The per-account registry of roster stores.  An account is absent, opening
 * (a store is being opened and callers wait for it) or live.  Completion
 * handlers are represented by waiter ids; calling a handler is represented by
 * a notice in the list an operation returns.
 */
module FileRosterManagers {
  import opened Wrappers
  import opened Seqs
  import opened Jids
  import opened Roster
  import opened RosterTables
  import opened FileRosters

  /** A completion handler waiting for a roster. */
  type Waiter = nat

  /** A call of a completion handler with a roster or an error. */
  datatype Notice<R> = Notice(waiter: Waiter, roster: Option<R>, error: Option<Error>)

  /** `PendingRoster`: the store being opened and the handlers waiting for it. */
  datatype Waiting<R> = Waiting(archive: R, handlers: seq<Waiter>)

  /**
   * `rosterByAccount`, `pendingRosterByAccount`, and the accounts whose
   * roster directory exists.
   */
  datatype Registry<R> = Registry(live: map<Jid, R>, pending: map<Jid, Waiting<R>>, directories: set<Jid>)

  /** The new registry and the handler calls of one step. */
  datatype Step<R> = Step(registry: Registry<R>, notices: seq<Notice<R>>)

  /** The new registry, the handler calls, the store closed and the completion of a delete. */
  datatype DeleteStep<R> = DeleteStep(registry: Registry<R>, notices: seq<Notice<R>>, closed: Option<R>, completion: Option<Error>)

  /** An account is never both live and opening, and both have a directory. */
  ghost predicate Invariant<R>(reg: Registry<R>) {
    reg.live.Keys !! reg.pending.Keys
    && reg.live.Keys <= reg.directories
    && reg.pending.Keys <= reg.directories
  }

  /** Every handler called with the same outcome, in order. */
  function NoticesFor<R>(handlers: seq<Waiter>, roster: Option<R>, error: Option<Error>): seq<Notice<R>> {
    Map(handlers, (w: Waiter) => Notice(w, roster, error))
  }

  /** Whether `roster(for:create:)` starts opening a store. */
  predicate Opens<R>(reg: Registry<R>, account: Jid, create: bool, mkdirFails: bool) {
    account !in reg.live && account !in reg.pending
    && (create || account in reg.directories) && !mkdirFails
  }

  /**
   * `roster(for:create:completion:)` as written.  A second caller while the
   * store is opening is appended to a copy of the pending entry, so the
   * registry does not change and that caller is never called back.
   */
  function Request<R>(reg: Registry<R>, account: Jid, create: bool, waiter: Waiter, mkdirFails: bool, archive: R): Step<R> {
    if account in reg.live then Step(reg, [Notice(waiter, Some(reg.live[account]), Option.None)])
    else if account in reg.pending then Step(reg, [])
    else if !create && account !in reg.directories then
      Step(reg, [Notice(waiter, Option.None, Some(ManagerFailure(RosterDoesNotExist)))])
    else if mkdirFails then Step(reg, [Notice(waiter, Option.None, Some(FileSystemFailure))])
    else Step(reg.(pending := reg.pending[account := Waiting(archive, [waiter])],
                   directories := reg.directories + {account}), [])
  }

  /**
   * The open callback: the pending entry found under `key` (the store's own
   * account) is removed, the store becomes live only without an error, and
   * every stored handler is called with the same store and error.
   */
  function CompleteOpen<R>(reg: Registry<R>, key: Jid, roster: R, error: Option<Error>): Step<R> {
    if key !in reg.pending then Step(reg, [])
    else
      var live := if error.None? then reg.live[key := roster] else reg.live;
      Step(Registry(live, reg.pending - {key}, reg.directories),
           NoticesFor(reg.pending[key].handlers, Some(roster), error))
  }

  /**
   * `deleteRoster(for:completion:)`: a live store is unmapped and closed, or
   * else an opening one is unmapped and its handlers get `deleted`; then the
   * directory is removed, which fails when there is none or removal fails.
   */
  function Delete<R>(reg: Registry<R>, account: Jid, removeFails: bool): DeleteStep<R> {
    var removed := account in reg.directories && !removeFails;
    var directories := if removed then reg.directories - {account} else reg.directories;
    var completion := if removed then Option.None else Some(FileSystemFailure);
    if account in reg.live then
      DeleteStep(Registry(reg.live - {account}, reg.pending, directories), [], Some(reg.live[account]), completion)
    else if account in reg.pending then
      DeleteStep(Registry(reg.live, reg.pending - {account}, directories),
                 NoticesFor(reg.pending[account].handlers, Option.None, Some(ManagerFailure(RosterDeleted))),
                 Option.None, completion)
    else DeleteStep(Registry(reg.live, reg.pending, directories), [], Option.None, completion)
  }

  lemma RequestKeepsInvariant<R>(reg: Registry<R>, account: Jid, create: bool, waiter: Waiter, mkdirFails: bool, archive: R)
    requires Invariant(reg)
    ensures Invariant(Request(reg, account, create, waiter, mkdirFails, archive).registry)
  {
  }

  lemma CompleteOpenKeepsInvariant<R>(reg: Registry<R>, key: Jid, roster: R, error: Option<Error>)
    requires Invariant(reg)
    ensures Invariant(CompleteOpen(reg, key, roster, error).registry)
  {
  }

  lemma DeleteKeepsInvariant<R>(reg: Registry<R>, account: Jid, removeFails: bool)
    requires Invariant(reg)
    ensures Invariant(Delete(reg, account, removeFails).registry)
  {
  }

  /** A live store is handed out as it is, and no open starts. */
  lemma LiveRosterIsShared<R>(reg: Registry<R>, account: Jid, create: bool, waiter: Waiter, mkdirFails: bool, archive: R)
    requires account in reg.live
    ensures var s := Request(reg, account, create, waiter, mkdirFails, archive);
      s.registry == reg && s.notices == [Notice(waiter, Some(reg.live[account]), Option.None)]
  {
  }

  /** Without `create` and without a directory the caller gets `doesNotExist` and nothing changes. */
  lemma MissingRosterIsRefused<R>(reg: Registry<R>, account: Jid, waiter: Waiter, mkdirFails: bool, archive: R)
    requires account !in reg.live && account !in reg.pending && account !in reg.directories
    ensures var s := Request(reg, account, false, waiter, mkdirFails, archive);
      s.registry == reg && s.notices == [Notice(waiter, Option.None, Some(ManagerFailure(RosterDoesNotExist)))]
  {
  }

  /** Otherwise one open starts, and its entry holds exactly this caller. */
  lemma RequestStartsOpen<R>(reg: Registry<R>, account: Jid, create: bool, waiter: Waiter, mkdirFails: bool, archive: R)
    ensures var s := Request(reg, account, create, waiter, mkdirFails, archive);
      Opens(reg, account, create, mkdirFails) <==> s.registry != reg
    ensures var s := Request(reg, account, create, waiter, mkdirFails, archive);
      Opens(reg, account, create, mkdirFails) ==>
        s.notices == [] && s.registry.pending == reg.pending[account := Waiting(archive, [waiter])]
        && s.registry.live == reg.live && account in s.registry.directories
  {
    var s := Request(reg, account, create, waiter, mkdirFails, archive);
    if Opens(reg, account, create, mkdirFails) {
      assert account in s.registry.pending && account !in reg.pending;
    }
  }

  /** Every stored handler is called once, in order, with the same store and error. */
  lemma CompleteOpenNotifiesEveryWaiter<R>(reg: Registry<R>, key: Jid, roster: R, error: Option<Error>)
    requires key in reg.pending
    ensures var s := CompleteOpen(reg, key, roster, error);
      |s.notices| == |reg.pending[key].handlers|
      && (forall k :: 0 <= k < |s.notices| ==>
            s.notices[k] == Notice(reg.pending[key].handlers[k], Some(roster), error))
      && key !in s.registry.pending
      && (key in s.registry.live <==> error.None? || key in reg.live)
  {
  }

  /** An open whose entry is gone (deleted meanwhile) changes nothing and calls nobody. */
  lemma DeletedOpenNeverBecomesLive<R>(reg: Registry<R>, account: Jid, removeFails: bool, roster: R, error: Option<Error>)
    requires Invariant(reg) && account in reg.pending
    ensures var d := Delete(reg, account, removeFails);
      CompleteOpen(d.registry, account, roster, error) == Step(d.registry, [])
      && account !in d.registry.live
  {
  }

  /** After a delete whose removal succeeds, asking without `create` gets `doesNotExist`. */
  lemma DeletedRosterDoesNotExist<R>(reg: Registry<R>, account: Jid, waiter: Waiter, mkdirFails: bool, archive: R)
    requires Invariant(reg) && account in reg.directories
    ensures var d := Delete(reg, account, false);
      d.completion == Option.None
      && Request(d.registry, account, false, waiter, mkdirFails, archive).notices
         == [Notice(waiter, Option.None, Some(ManagerFailure(RosterDoesNotExist)))]
  {
  }

  /** Deleting an opening store calls each of its handlers with `deleted`. */
  lemma DeleteNotifiesWaiters<R>(reg: Registry<R>, account: Jid, removeFails: bool)
    requires Invariant(reg) && account in reg.pending
    ensures var d := Delete(reg, account, removeFails);
      d.closed.None? && account !in d.registry.pending
      && |d.notices| == |reg.pending[account].handlers|
      && forall k :: 0 <= k < |d.notices| ==>
           d.notices[k] == Notice(reg.pending[account].handlers[k], Option.None, Some(ManagerFailure(RosterDeleted)))
  {
  }

  /**
   * The manager's test, step by step: refused without `create`, opened and
   * handed out, handed out again, deleted, refused again.
   */
  lemma OpenDeleteScenario<R>(account: Jid, roster: R)
    ensures var r0 := Registry(map[], map[], {});
      var s1 := Request(r0, account, false, 1, false, roster);
      var s2 := Request(s1.registry, account, true, 2, false, roster);
      var s3 := CompleteOpen(s2.registry, account, roster, Option.None);
      var s4 := Request(s3.registry, account, false, 3, false, roster);
      var d := Delete(s4.registry, account, false);
      var s5 := Request(d.registry, account, false, 4, false, roster);
      s1.notices == [Notice(1, Option.None, Some(ManagerFailure(RosterDoesNotExist)))]
      && s2.notices == [] && s3.notices == [Notice(2, Some(roster), Option.None)]
      && s4.notices == [Notice(3, Some(roster), Option.None)]
      && d.completion == Option.None && d.closed == Some(roster)
      && s5.notices == [Notice(4, Option.None, Some(ManagerFailure(RosterDoesNotExist)))]
  {
    var r0: Registry<R> := Registry(map[], map[], {});
    var s2 := Request(Request(r0, account, false, 1, false, roster).registry, account, true, 2, false, roster);
    assert s2.registry.pending[account].handlers == [2];
    assert NoticesFor([2], Some(roster), Option.None) == [Notice(2, Some(roster), Option.None)];
  }

  // Findings: as written, and corrected.

  /** A caller arriving while the store is opening is never called back, whatever the open yields. */
  lemma LateWaiterIsDropped<R>(reg: Registry<R>, account: Jid, create: bool, waiter: Waiter, mkdirFails: bool,
                              archive: R, roster: R, error: Option<Error>)
    requires account in reg.pending && account !in reg.live
    requires waiter !in reg.pending[account].handlers
    ensures var s := Request(reg, account, create, waiter, mkdirFails, archive);
      s == Step(reg, [])
      && forall k :: 0 <= k < |CompleteOpen(s.registry, account, roster, error).notices| ==>
           CompleteOpen(s.registry, account, roster, error).notices[k].waiter != waiter
  {
  }

  /**
   * A request for a JID with a resource is keyed by that JID, but the store
   * answers under its bare account: the completion finds no entry, the
   * caller is never called back and the account stays opening.
   */
  lemma FullJidRequestNeverResolves<R>(reg: Registry<R>, account: Jid, create: bool, waiter: Waiter, archive: R, error: Option<Error>)
    requires account.resource.Some? && Opens(reg, account, create, false)
    requires account.Bare() !in reg.pending
    ensures var s1 := Request(reg, account, create, waiter, false, archive);
      var s2 := CompleteOpen(s1.registry, account.Bare(), archive, error);
      s2.notices == [] && account in s2.registry.pending && account !in s2.registry.live
  {
    assert account != account.Bare();
  }

  /**
   * An open that finishes after its entry was deleted and a new open for the
   * same account started takes over the new entry: its store becomes live and
   * the new callers get it.
   */
  lemma StaleOpenIsAdopted<R>(reg: Registry<R>, account: Jid, first: R, second: R)
    requires Invariant(reg) && account !in reg.live && account !in reg.pending && first != second
    ensures var s1 := Request(reg, account, true, 1, false, first);
      var d := Delete(s1.registry, account, false);
      var s2 := Request(d.registry, account, true, 2, false, second);
      var s3 := CompleteOpen(s2.registry, account, first, Option.None);
      s3.registry.live[account] == first && s3.notices == [Notice(2, Some(first), Option.None)]
  {
    var s1 := Request(reg, account, true, 1, false, first);
    var d := Delete(s1.registry, account, false);
    var s2 := Request(d.registry, account, true, 2, false, second);
    assert s2.registry.pending[account] == Waiting(second, [2]);
    assert NoticesFor([2], Some(first), Option.None) == [Notice(2, Some(first), Option.None)];
  }

  /**
   * The registry as evidently intended: keyed by bare account, a late caller
   * joins the waiting list, and only the store that was started can complete
   * its entry.
   */
  function RequestCorrected<R>(reg: Registry<R>, account: Jid, create: bool, waiter: Waiter, mkdirFails: bool, archive: R): Step<R> {
    var key := account.Bare();
    if key in reg.pending && key !in reg.live then
      var w := reg.pending[key];
      Step(reg.(pending := reg.pending[key := w.(handlers := w.handlers + [waiter])]), [])
    else Request(reg, key, create, waiter, mkdirFails, archive)
  }

  function CompleteOpenCorrected<R(==)>(reg: Registry<R>, key: Jid, roster: R, error: Option<Error>): Step<R> {
    if key in reg.pending && reg.pending[key].archive == roster then CompleteOpen(reg, key, roster, error)
    else Step(reg, [])
  }

  /** Corrected: the late caller is called back with the others when the open completes. */
  lemma CorrectedNotifiesLateWaiter<R>(reg: Registry<R>, account: Jid, create: bool, waiter: Waiter, mkdirFails: bool,
                                         archive: R, error: Option<Error>)
    requires account.Bare() in reg.pending && account.Bare() !in reg.live
    ensures var old_handlers := reg.pending[account.Bare()].handlers;
      var s := RequestCorrected(reg, account, create, waiter, mkdirFails, archive);
      var c := CompleteOpenCorrected(s.registry, account.Bare(), reg.pending[account.Bare()].archive, error);
      s.notices == [] && |c.notices| == |old_handlers| + 1
      && c.notices[|old_handlers|] == Notice(waiter, Some(reg.pending[account.Bare()].archive), error)
      && forall k :: 0 <= k < |old_handlers| ==> c.notices[k].waiter == old_handlers[k]
  {
  }

  /** Corrected: a request for a JID with a resource is answered when its store opens. */
  lemma CorrectedResolvesFullJid<R>(reg: Registry<R>, account: Jid, create: bool, waiter: Waiter, archive: R, error: Option<Error>)
    requires Opens(reg, account.Bare(), create, false)
    ensures var s1 := RequestCorrected(reg, account, create, waiter, false, archive);
      var s2 := CompleteOpenCorrected(s1.registry, account.Bare(), archive, error);
      s2.notices == [Notice(waiter, Some(archive), error)] && account.Bare() !in s2.registry.pending
  {
    var s1 := RequestCorrected(reg, account, create, waiter, false, archive);
    assert s1.registry.pending[account.Bare()] == Waiting(archive, [waiter]);
    assert NoticesFor([waiter], Some(archive), error) == [Notice(waiter, Some(archive), error)];
  }

  /** Corrected: a store whose entry was replaced cannot complete it. */
  lemma CorrectedIgnoresStaleOpen<R>(reg: Registry<R>, key: Jid, roster: R, error: Option<Error>)
    requires key in reg.pending && reg.pending[key].archive != roster
    ensures CompleteOpenCorrected(reg, key, roster, error) == Step(reg, [])
  {
  }

  lemma CorrectedKeepsInvariant<R>(reg: Registry<R>, account: Jid, create: bool, waiter: Waiter, mkdirFails: bool,
                                      archive: R, key: Jid, roster: R, error: Option<Error>)
    requires Invariant(reg)
    ensures Invariant(RequestCorrected(reg, account, create, waiter, mkdirFails, archive).registry)
    ensures Invariant(CompleteOpenCorrected(reg, key, roster, error).registry)
  {
  }

  /** The loop that calls every stored handler with the same outcome. */
  method Notify<R>(handlers: seq<Waiter>, roster: Option<R>, error: Option<Error>) returns (notices: seq<Notice<R>>)
    ensures notices == NoticesFor(handlers, roster, error)
  {
    notices := [];
    var i := 0;
    while i < |handlers|
      invariant 0 <= i <= |handlers|
      invariant notices == NoticesFor(handlers[..i], roster, error)
    {
      assert handlers[..i + 1] == handlers[..i] + [handlers[i]];
      MapAppend(handlers[..i], [handlers[i]], (w: Waiter) => Notice(w, roster, error));
      notices := notices + [Notice(handlers[i], roster, error)];
      i := i + 1;
    }
    assert handlers[..i] == handlers;
  }

  /** `FileRosterManager`, as written. */
  class FileRosterManager {
    var rosterByAccount: map<Jid, FileRoster>
    var pendingRosterByAccount: map<Jid, Waiting<FileRoster>>
    /** The accounts whose directory exists under the manager's directory. */
    var directories: set<Jid>

    function State(): Registry<FileRoster>
      reads this
    {
      Registry(rosterByAccount, pendingRosterByAccount, directories)
    }

    /** The registry invariant, and every store is held under its own account. */
    ghost predicate Valid()
      reads this
    {
      Invariant(State())
      && (forall k :: k in rosterByAccount ==> rosterByAccount[k].account == k)
      && (forall k :: k in pendingRosterByAccount ==> pendingRosterByAccount[k].archive.account == k.Bare())
    }

    /** A manager over a directory holding the roster directories of `existing`. */
    constructor (existing: set<Jid>)
      ensures Valid() && State() == Registry(map[], map[], existing)
    {
      rosterByAccount, pendingRosterByAccount, directories := map[], map[], existing;
    }

    /**
     * `roster(for:create:completion:)`.  A store started here opens over
     * `existing`, the tables already in its directory; `mkdirFails` is the
     * outcome of creating the directory.
     */
    method RosterFor(account: Jid, create: bool, waiter: Waiter, existing: Tables, mkdirFails: bool)
      returns (notices: seq<Notice<FileRoster>>, started: Option<FileRoster>)
      requires Valid() && Consistent(existing)
      modifies this
      ensures Valid()
      ensures started.Some? <==> Opens(old(State()), account, create, mkdirFails)
      ensures started.Some? ==>
        fresh(started.value) && started.value.Valid() && !started.value.connected
        && started.value.account == account.Bare() && started.value.Contents() == existing
        && Step(State(), notices) == Request(old(State()), account, create, waiter, mkdirFails, started.value)
      ensures started.None? ==> forall archive :: Step(State(), notices) == Request(old(State()), account, create, waiter, mkdirFails, archive)
    {
      started := Option.None;
      if account in rosterByAccount {
        notices := [Notice(waiter, Some(rosterByAccount[account]), Option.None)];
      } else if account in pendingRosterByAccount {
        var pendingRoster := pendingRosterByAccount[account];
        pendingRoster := pendingRoster.(handlers := pendingRoster.handlers + [waiter]);
        notices := [];
      } else if !create && account !in directories {
        notices := [Notice(waiter, Option.None, Some(ManagerFailure(RosterDoesNotExist)))];
      } else if mkdirFails {
        notices := [Notice(waiter, Option.None, Some(FileSystemFailure))];
      } else {
        directories := directories + {account};
        var roster := new FileRoster(account, existing);
        pendingRosterByAccount := pendingRosterByAccount[account := Waiting(roster, [waiter])];
        notices := [];
        started := Some(roster);
      }
    }

    /**
     * The open started for `roster` finishes: `failure` is the outcome of
     * its schema set-up, then the callback runs.
     */
    method OpenCompleted(roster: FileRoster, failure: Option<Error>) returns (notices: seq<Notice<FileRoster>>)
      requires Valid() && roster.Valid()
      modifies this, roster
      ensures Valid() && roster.Valid()
      ensures roster.connected == (old(roster.connected) || failure.None?)
      ensures roster.Contents() == old(roster.Contents())
      ensures Step(State(), notices) == CompleteOpen(old(State()), roster.account, roster, failure)
    {
      var error := roster.Open(failure);
      notices := [];
      if roster.account in pendingRosterByAccount {
        var pendingRoster := pendingRosterByAccount[roster.account];
        pendingRosterByAccount := pendingRosterByAccount - {roster.account};
        if error.None? {
          rosterByAccount := rosterByAccount[roster.account := roster];
        }
        notices := Notify(pendingRoster.handlers, Some(roster), error);
      }
    }

    /** `deleteRoster(for:completion:)`; `removeFails` is the outcome of removing the directory. */
    method DeleteRoster(account: Jid, removeFails: bool) returns (notices: seq<Notice<FileRoster>>, completion: Option<Error>)
      requires Valid()
      modifies this, if account in rosterByAccount then {rosterByAccount[account]} else {}
      ensures Valid()
      ensures forall k :: k in old(rosterByAccount) && k != account ==> unchanged(old(rosterByAccount[k]))
      ensures var d := Delete(old(State()), account, removeFails);
        State() == d.registry && notices == d.notices && completion == d.completion
        && (d.closed.Some? ==> !d.closed.value.connected && d.closed.value.Contents() == old(d.closed.value.Contents()))
    {
      notices := [];
      if account in rosterByAccount {
        var roster := rosterByAccount[account];
        rosterByAccount := rosterByAccount - {account};
        roster.Close();
      } else if account in pendingRosterByAccount {
        var pendingRoster := pendingRosterByAccount[account];
        pendingRosterByAccount := pendingRosterByAccount - {account};
        notices := Notify(pendingRoster.handlers, Option.None, Some(ManagerFailure(RosterDeleted)));
      }
      if account in directories && !removeFails {
        directories := directories - {account};
        completion := Option.None;
      } else {
        completion := Some(FileSystemFailure);
      }
    }
  }
}

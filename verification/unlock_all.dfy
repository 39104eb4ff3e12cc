/** The maintenance script AccountFramework/app/unlock_all_sessions.py: in
    one database transaction, every session held by some experiment goes
    through `unlock_session`. An exception anywhere in the loop rolls the
    transaction back and is only reported; the script exits with 0 either
    way. */
module BulkUnlock {
  import opened Base
  import opened LeaseRecords
  import opened LeaseApi

  /** `main`. `fault` is the position in the selection of the session whose
      unlock raises (a failed `save()`, a lost connection), or `None` when
      every unlock goes through. The transaction keeps a copy of the tables
      it started from and restores it on the exception. */
  method UnlockAllSessions(store: LeaseStore, now: int, cfg: Config, fault: Option<nat>) returns (code: int)
    modifies store
    ensures code == 0
    ensures var held := HeldIndices(old(store.sessions));
      if fault.Some? && fault.value < |held| then
        store.sessions == old(store.sessions) && store.tasks == old(store.tasks)
      else
        store.sessions == UnlockAt(old(store.sessions), held, now, cfg) &&
        store.tasks == old(store.tasks) + TasksFor(old(store.sessions), held)
    ensures store.history == old(store.history)
  {
    var before, queued := store.sessions, store.tasks;
    var held := HeldIndices(store.sessions);
    var stop := if fault.Some? && fault.value < |held| then fault.value else |held|;
    UnlockPrefix(store, held, stop, now, cfg);
    if stop < |held| {
      // the unlock of held[stop] raised: the transaction rolls back
      store.sessions, store.tasks := before, queued;
    } else {
      assert held[..stop] == held;
    }
    return 0;
  }

  /** The loop of `main` over the selected sessions, up to (not including)
      position `stop`, where it ends or an unlock raises. */
  method UnlockPrefix(store: LeaseStore, held: seq<nat>, stop: nat, now: int, cfg: Config)
    requires InRange(store.sessions, held) && stop <= |held|
    modifies store
    ensures UnlockedUpTo(old(store.sessions), old(store.tasks), held, stop, now, cfg, store.sessions, store.tasks)
    ensures store.history == old(store.history)
  {
    ghost var before, queued := store.sessions, store.tasks;
    var n := 0;
    while n < stop
      invariant n <= stop
      invariant UnlockedUpTo(before, queued, held, n, now, cfg, store.sessions, store.tasks)
      invariant store.history == old(store.history)
    {
      UnlockStep(before, queued, held, n, now, cfg, store.sessions, store.tasks);
      store.UnlockSession(held[n], now, cfg);
      n := n + 1;
    }
  }


  /** After a run without an exception no session is held by an experiment:
      each held one is unlocked as `unlock_session` does it, and a session
      without an experiment is left exactly as it was. */
  lemma UnlockAllSessionsClears(ss: seq<Session>, now: int, cfg: Config)
    ensures var r := UnlockAt(ss, HeldIndices(ss), now, cfg);
      |r| == |ss| &&
      (forall j :: 0 <= j < |r| ==> r[j].experiment.None?) &&
      forall j :: 0 <= j < |ss| ==> r[j] == if ss[j].experiment.Some? then Unlocked(ss[j], now, cfg) else ss[j]
  {
    var held := HeldIndices(ss);
    UnlockAtPointwise(ss, held, now, cfg);
    forall j | 0 <= j < |ss| ensures (j in held) == ss[j].experiment.Some? {
    }
  }

  /** A run without an exception queues one "auto" validation task per held
      session, in store order, and no other. */
  lemma UnlockAllSessionsTasks(ss: seq<Session>)
    ensures var held := HeldIndices(ss); var ts := TasksFor(ss, held);
      |ts| == |held| &&
      (forall n :: 0 <= n < |held| ==> ss[held[n]].experiment.Some? && ts[n] == ValidateTask(ss[held[n]].id, "auto")) &&
      (forall j :: 0 <= j < |ss| && ss[j].experiment.Some? ==> exists n :: 0 <= n < |held| && held[n] == j)
  {
    var held := HeldIndices(ss);
    TasksForPointwise(ss, held);
    forall n | 0 <= n < |held| ensures ss[held[n]].experiment.Some? {
      assert held[n] in held;
    }
  }
}

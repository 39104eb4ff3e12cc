/** The request handlers of the lease manager (AccountFramework/app/api.py):
    the store of sessions, website history and validation tasks, the two
    reclamation sweeps, single and batch allocation, unlock on request, and
    the dispatch of one request to one reply.

    The database is the `LeaseStore` object; a session row is written back
    with `save()` by replacing its entry in `sessions`. Nothing runs in a
    transaction, so what a handler changed before it raises stays changed. */
module LeaseApi {
  import opened Base
  import opened PyDict
  import opened LeaseRecords
  import opened SiteGroups
  import opened LeaseRequests

  // ---------------------------------------------------------------------------
  // The store

  /** The tables the lease manager uses: sessions (joined with their
      accounts), ExperimentWebsite records and ValidateTask records. */
  class LeaseStore {
    var sessions: seq<Session>
    var history: seq<ExperimentWebsite>
    var tasks: seq<ValidateTask>

    /** The tables as a value. */
    function Tables(): Db
      reads this
    {
      Db(sessions, history, tasks)
    }

    constructor (sessions0: seq<Session>, history0: seq<ExperimentWebsite>, tasks0: seq<ValidateTask>)
      ensures sessions == sessions0 && history == history0 && tasks == tasks0
    {
      sessions := sessions0;
      history := history0;
      tasks := tasks0;
    }

    /** `unlock_session`: the session is unlocked, unverified and expired,
        and one "auto" validation task is queued for it. */
    method UnlockSession(i: nat, now: int, cfg: Config)
      requires i < |sessions|
      modifies this
      ensures sessions == old(sessions)[i := Unlocked(old(sessions)[i], now, cfg)]
      ensures var s := sessions[i];
        !s.locked && !s.verified && s.verifyType == "no" && s.verifiedBrowsers == "" &&
        s.status == Status("expired", cfg.expiredActive) && s.unlockTime == Some(now) && s.experiment.None?
      ensures tasks == old(tasks) + [ValidateTask(old(sessions)[i].id, "auto")]
      ensures history == old(history)
    {
      sessions := sessions[i := Unlocked(sessions[i], now, cfg)];
      tasks := tasks + [ValidateTask(sessions[i].id, "auto")];
    }

    /** `unlock_old_sessions`: every lease that is due is unlocked, in store
        order, and no other session changes. */
    method UnlockOldSessions(now: int, cfg: Config)
      modifies this
      ensures var due := DueIndices(old(sessions), now);
        sessions == UnlockAt(old(sessions), due, now, cfg) &&
        tasks == old(tasks) + TasksFor(old(sessions), due)
      ensures history == old(history)
    {
      var due := DueIndices(sessions, now);
      ghost var S := sessions;
      ghost var T := tasks;
      var n := 0;
      while n < |due|
        invariant n <= |due|
        invariant UnlockedUpTo(S, T, due, n, now, cfg, sessions, tasks)
        invariant history == old(history)
      {
        UnlockStep(S, T, due, n, now, cfg, sessions, tasks);
        UnlockSession(due[n], now, cfg);
        n := n + 1;
      }
      assert due[..n] == due;
    }

    /** `expire_old_sessions(cands)`: walks the candidates in order; one whose
        verify type is neither "auto" nor "manual" raises, leaving the
        candidates before it handled; one unused for longer than its window
        is unlocked; the others are returned, in input order. */
    method ExpireOldSessions(cands: seq<nat>, now: int, cfg: Config) returns (r: Result<seq<nat>, string>)
      requires InRange(sessions, cands) && Distinct(cands)
      modifies this
      ensures var S := old(sessions); var E := ExpiredBy(S, cands, now, cfg);
        sessions == UnlockAt(S, E, now, cfg) && tasks == old(tasks) + TasksFor(S, E)
      ensures var S := old(sessions); var p := FirstInvalid(S, cands, cfg);
        r == if p < |cands| then Err(InvalidVerifyTypeMessage(S[cands[p]].verifyType))
             else Ok(FreshAmong(S, cands, now, cfg))
      ensures history == old(history)
    {
      ghost var S := sessions;
      ghost var T := tasks;
      var usable: seq<nat> := [];
      var n := 0;
      while n < |cands|
        invariant n <= |cands|
        invariant Sweeping(S, T, cands, n, now, cfg, sessions, tasks, usable)
        invariant history == old(history)
      {
        var x := cands[n];
        SweepAt(S, T, cands, n, now, cfg, sessions, tasks, usable);
        var s := sessions[x];
        var limit := VerifyLimitHours(s.verifyType, cfg);
        if limit.None? {
          SweepRaises(S, T, cands, n, now, cfg, sessions, tasks, usable);
          return Err(InvalidVerifyTypeMessage(s.verifyType));
        }
        usable := ExpireCandidate(S, T, cands, n, now, cfg, usable);
        n := n + 1;
      }
      SweepDone(S, T, cands, now, cfg, sessions, tasks, usable);
      return Ok(usable);
    }

    /** One candidate with a freshness window (api.py:118-136): unlocked
        when it was unused for longer than the window, kept otherwise. */
    method ExpireCandidate(ghost S: seq<Session>, ghost T: seq<ValidateTask>, cands: seq<nat>, n: nat, now: int,
                           cfg: Config, usable: seq<nat>) returns (next: seq<nat>)
      requires Sweeping(S, T, cands, n, now, cfg, sessions, tasks, usable) && n < |cands|
      requires VerifyLimitHours(S[cands[n]].verifyType, cfg).Some?
      modifies this
      ensures Sweeping(S, T, cands, n + 1, now, cfg, sessions, tasks, next)
      ensures history == old(history)
    {
      var x := cands[n];
      SweepAt(S, T, cands, n, now, cfg, sessions, tasks, usable);
      var s := sessions[x];
      var limit := VerifyLimitHours(s.verifyType, cfg);
      if now - s.updateTime > limit.value * SECONDS_PER_HOUR {
        SweepStale(S, T, cands, n, now, cfg, sessions, tasks, usable);
        UnlockSession(x, now, cfg);
        next := usable;
      } else {
        SweepFresh(S, T, cands, n, now, cfg, sessions, tasks, usable);
        next := usable + [x];
      }
    }

    /** `handle_unlock_session` (api.py:69-83). */
    method HandleUnlockSession(owner: Option<string>, id: Option<int>, now: int, cfg: Config) returns (o: Outcome)
      modifies this
      ensures (Tables(), o) == UnlockRequest(old(Tables()), owner, id, now, cfg)
    {
      if owner.None? {
        return Sent(Error(EXPERIMENT_REQUIRED));
      }
      var j := FindOwned(sessions, id, owner.value);
      if j == |sessions| {
        return Sent(Error(NOT_OWNED));
      }
      ghost var ss := sessions;
      UnlockAtSnoc(ss, [], j, now, cfg);
      assert [] + [j] == [j];
      UnlockSession(j, now, cfg);
      assert sessions == UnlockAt(ss, [j], now, cfg);
      assert tasks == old(tasks) + TasksFor(ss, [j]);
      assert Tables() == UnlockAll(old(Tables()), [j], now, cfg);
      return Sent(Success(Empty));
    }

    /** `handle_get_session` (api.py:141-241): the first usable session that
        is acceptable is leased to `experiment`; with no site its website is
        recorded, so the experiment is never given it again. */
    method HandleGetSession(experiment: Option<string>, site: Option<string>, now: int, cfg: Config,
                            catalog: seq<LoginForm>, files: map<string, string>) returns (o: Outcome)
      modifies this
      ensures (Tables(), o) == LeaseOne(old(Tables()), experiment, site, now, cfg, catalog, files)
    {
      var cands := EligibleIndices(sessions);
      var r := ExpireOldSessions(cands, now, cfg);
      if r.Err? {
        return Raised(r.error);
      }
      UnlockOldSessions(now, cfg);
      o := HandOutFirstFit(r.value, experiment, site, now, cfg, catalog, files);
    }

    /** The second half of `handle_get_session` (api.py:163-241). */
    method HandOutFirstFit(usable: seq<nat>, experiment: Option<string>, site: Option<string>, now: int, cfg: Config,
                           catalog: seq<LoginForm>, files: map<string, string>) returns (o: Outcome)
      requires InRange(sessions, usable)
      modifies this
      ensures (Tables(), o) == LeaseFirstFit(old(Tables()), usable, experiment, site, now, cfg, catalog, files)
    {
      var chosen := Choose(sessions, usable, history, experiment, site);
      if chosen == [] {
        return Sent(Error(NO_SESSIONS));
      }
      var sent := LeaseGroup([chosen[0]], experiment, site, now, cfg, catalog, files);
      o := if sent.Ok? then Sent(Success(Single(sent.value[0]))) else Raised(sent.error);
    }

    /** `handle_get_sessions` (api.py:244-403). */
    method HandleGetSessions(experiment: Option<string>, site: Option<string>, k: int, now: int, cfg: Config,
                             catalog: seq<LoginForm>, files: map<string, string>) returns (o: Outcome)
      modifies this
      ensures (Tables(), o) == LeaseBatch(old(Tables()), experiment, site, k, now, cfg, catalog, files)
    {
      ghost var db := Tables();
      var rows := QueryRows(sessions, k);
      var groups := GroupBySite(sessions, rows);
      var r := ExpireOldSessions(rows, now, cfg);
      if r.Err? {
        return Raised(r.error);
      }
      UnlockOldSessions(now, cfg);
      o := HandOutFirstSite(db.sessions, rows, groups, r.value, experiment, site, k, now, cfg, catalog, files);
    }

    /** `handle_get_sessions` with `k` null (api.py:255-308, 397-398). */
    method HandleNoRows(now: int, cfg: Config) returns (o: Outcome)
      modifies this
      ensures (Tables(), o) == LeaseBatchNoRows(old(Tables()), now, cfg)
    {
      var r := ExpireOldSessions([], now, cfg);
      UnlockOldSessions(now, cfg);
      o := Sent(Error(NO_SESSIONS));
    }

    /** The batch handler called with the request's `k` (api.py:436-439). */
    method HandleBatchRequest(experiment: Option<string>, site: Option<string>, k: BatchK, now: int, cfg: Config,
                              catalog: seq<LoginForm>, files: map<string, string>) returns (o: Outcome)
      modifies this
      ensures (Tables(), o) == BatchRequest(old(Tables()), experiment, site, k, now, cfg, catalog, files)
    {
      match k {
        case Absent =>
          o := HandleGetSessions(experiment, site, DEFAULT_K, now, cfg, catalog, files);
        case Null =>
          o := HandleNoRows(now, cfg);
        case Given(n) =>
          o := HandleGetSessions(experiment, site, n, now, cfg, catalog, files);
      }
    }

    /** The second half of `handle_get_sessions` (api.py:310-403). */
    method HandOutFirstSite(ghost ss: seq<Session>, rows: seq<nat>, groups: Dict<string, seq<nat>>, usable: seq<nat>,
                          experiment: Option<string>, site: Option<string>, k: int, now: int, cfg: Config,
                          catalog: seq<LoginForm>, files: map<string, string>) returns (o: Outcome)
      requires InRange(ss, rows) && |sessions| == |ss| && groups == Grouped(ss, rows)
      modifies this
      ensures (Tables(), o) == LeaseFirstSite(old(Tables()), ss, rows, usable, experiment, site, k, now, cfg, catalog, files)
    {
      var pruned, last := PruneGroups(groups, usable, k, site);
      var used := UsedSiteNames(history, experiment);
      var offered := Offer(pruned, last, used);
      if offered.keys == [] {
        return Sent(Error(NO_SESSIONS));
      }
      var key := offered.keys[0];
      OfferedRows(ss, rows, usable, k, last, used);
      var sent := LeaseGroup(Get(offered, key), experiment, Some(key), now, cfg, catalog, files);
      o := if sent.Ok? then Sent(Success(Batch(key, sent.value))) else Raised(sent.error);
    }

    /** The lock loop of `handle_get_sessions` (api.py:351-396). */
    method LeaseGroup(group: seq<nat>, experiment: Option<string>, site: Option<string>, now: int, cfg: Config,
                      catalog: seq<LoginForm>, files: map<string, string>) returns (sent: Result<seq<Item>, string>)
      requires InRange(sessions, group)
      modifies this
      ensures (Tables(), sent) == LeaseEach(old(Tables()), group, experiment, site, now, cfg, catalog, files)
    {
      ghost var db := Tables();
      var items: seq<Item> := [];
      var n := 0;
      assert group[..0] == [];
      while n < |group|
        invariant LockedUpTo(db, group, n, experiment, site, now, cfg, catalog, files, Tables(), items)
      {
        ghost var before := Tables();
        var s := Lock(group[n], experiment, site, now, cfg);
        LockStep(db, group, n, experiment, site, now, cfg, catalog, files, before, items, Tables());
        var path := SessionFilePath(s.name);
        if path !in files {
          sent := Err(NoSuchFile(path));
          return;
        }
        items := items + [ItemFor(s, catalog, files)];
        n := n + 1;
      }
      assert group[..n] == group;
      return Ok(items);
    }

    /** The lease of one session (api.py:353-368): it is locked for
        `experiment` and saved, and, when `site` is None, its website is
        recorded for the experiment. */
    method Lock(x: nat, experiment: Option<string>, site: Option<string>, now: int, cfg: Config) returns (s: Session)
      requires x < |sessions|
      modifies this
      ensures s == Leased(old(sessions)[x], experiment, now, cfg)
      ensures sessions == old(sessions)[x := s] && tasks == old(tasks)
      ensures history == old(history) + if site.None? then [ExperimentWebsite(experiment, s.website, s.id)] else []
    {
      s := Leased(sessions[x], experiment, now, cfg);
      sessions := sessions[x := s];
      if site.None? {
        history := history + [ExperimentWebsite(experiment, s.website, s.id)];
      } else {
        assert history + [] == history;
      }
    }

    /** One turn of the main loop (api.py:424-445). */
    method Serve(req: Request, now: int, cfg: Config, catalog: seq<LoginForm>, files: map<string, string>)
      returns (reply: Reply)
      modifies this
      ensures (Tables(), reply) == Dispatch(old(Tables()), req, now, cfg, catalog, files)
    {
      var o: Outcome;
      match req {
        case GetSession(e) =>
          o := HandleGetSession(e, None, now, cfg, catalog, files);
        case GetSpecificSession(e, site) =>
          o := HandleGetSession(e, site, now, cfg, catalog, files);
        case GetSessions(e, k) =>
          o := HandleBatchRequest(e, None, k, now, cfg, catalog, files);
        case GetSpecificSessions(e, site, k) =>
          o := HandleBatchRequest(e, site, k, now, cfg, catalog, files);
        case Unlock(owner, id) =>
          o := HandleUnlockSession(owner, id, now, cfg);
        case Illegal(t) =>
          o := Sent(Error("illegal request type " + t));
        case Invalid(e) =>
          o := Raised(e);
      }
      reply := Answer(o);
    }
  }

  /** The lock loop has leased the first `n` sessions of `group` without
      raising, leaving the tables `t` and the items sent so far. */
  ghost predicate LockedUpTo(db: Db, group: seq<nat>, n: nat, experiment: Option<string>, site: Option<string>, now: int,
                             cfg: Config, catalog: seq<LoginForm>, files: map<string, string>, t: Db, items: seq<Item>)
  {
    InRange(db.sessions, group) && n <= |group| &&
    (t, Ok(items)) == LeaseEach(db, group[..n], experiment, site, now, cfg, catalog, files)
  }

  /** One turn of the lock loop: after the next lease the loop goes on when
      the session's file exists, and otherwise it has raised for good. */
  lemma LockStep(db: Db, group: seq<nat>, n: nat, experiment: Option<string>, site: Option<string>, now: int, cfg: Config,
                 catalog: seq<LoginForm>, files: map<string, string>, t: Db, items: seq<Item>, t': Db)
    requires LockedUpTo(db, group, n, experiment, site, now, cfg, catalog, files, t, items) && n < |group|
    requires var s := Leased(t.sessions[group[n]], experiment, now, cfg);
      t' == t.(sessions := t.sessions[group[n] := s],
               history := t.history + if site.None? then [ExperimentWebsite(experiment, s.website, s.id)] else [])
    ensures var s := Leased(t.sessions[group[n]], experiment, now, cfg); var path := SessionFilePath(s.name);
      (path in files ==> LockedUpTo(db, group, n + 1, experiment, site, now, cfg, catalog, files, t', items + [ItemFor(s, catalog, files)])) &&
      (path !in files ==> (t', Err(NoSuchFile(path))) == LeaseEach(db, group, experiment, site, now, cfg, catalog, files))
  {
    LeaseEachStep(db, group, n, experiment, site, now, cfg, catalog, files);
    var s := Leased(t.sessions[group[n]], experiment, now, cfg);
    if SessionFilePath(s.name) !in files {
      LeaseEachRest(db, group, n + 1, experiment, site, now, cfg, catalog, files);
    }
  }

  /** The choice of api.py:163-189: with a site, the first usable session of
      that site (a search that stops at the first hit); without one, the
      usable sessions whose website the experiment has not had. Either way
      the session handed out is the head of the list. */
  method Choose(ss: seq<Session>, usable: seq<nat>, history: seq<ExperimentWebsite>, experiment: Option<string>,
                site: Option<string>) returns (chosen: seq<nat>)
    requires InRange(ss, usable)
    ensures var q := PickPos(ss, usable, history, experiment, site);
      chosen == [] <==> q == |usable|
    ensures var q := PickPos(ss, usable, history, experiment, site);
      chosen != [] ==> chosen[0] == usable[q]
  {
    var accept := AcceptableIn(ss, history, experiment, site);
    if Truthy(site) {
      chosen := FirstOnSite(ss, usable, site.value);
      forall i | 0 <= i < |usable| ensures OnSite(ss, site.value)(usable[i]) == accept(usable[i]) {
      }
      FirstMatchSame(usable, OnSite(ss, site.value), accept);
    } else {
      chosen := Keep(usable, accept);
      KeepHead(usable, accept);
    }
  }

  /** The site filter of api.py:320-342. */
  method Offer(pruned: Dict<string, seq<nat>>, site: Option<string>, used: set<string>) returns (offered: Dict<string, seq<nat>>)
    requires WellFormed(pruned)
    ensures offered == Offered(pruned, site, used)
  {
    if Truthy(site) {
      offered := if HasKey(pruned, site.value) then Dict([site.value], map[site.value := Get(pruned, site.value)]) else Dict([], map[]);
    } else {
      offered := DropUsedSites(pruned, used);
    }
  }

  /** The search of api.py:167-173: the first usable session of `site`, as
      a list of at most one. */
  method FirstOnSite(ss: seq<Session>, usable: seq<nat>, site: string) returns (chosen: seq<nat>)
    requires InRange(ss, usable)
    ensures var q := FirstMatch(usable, OnSite(ss, site)); chosen == if q < |usable| then [usable[q]] else []
  {
    chosen := [];
    var n := 0;
    while n < |usable|
      invariant n <= |usable| && forall i :: 0 <= i < n ==> !OnSite(ss, site)(usable[i])
    {
      if ss[usable[n]].website.site == site {
        FirstMatchAt(usable, OnSite(ss, site), n);
        chosen := [usable[n]];
        break;
      }
      n := n + 1;
    }
  }


  // ---------------------------------------------------------------------------
  // The steps of `unlock_old_sessions`

  /** The first `n` listed sessions are unlocked, with one task each. */
  ghost predicate UnlockedUpTo(S: seq<Session>, T: seq<ValidateTask>, xs: seq<nat>, n: nat, now: int, cfg: Config,
                               sessions: seq<Session>, tasks: seq<ValidateTask>)
  {
    InRange(S, xs) && n <= |xs| &&
    sessions == UnlockAt(S, xs[..n], now, cfg) && tasks == T + TasksFor(S, xs[..n])
  }

  lemma UnlockStep(S: seq<Session>, T: seq<ValidateTask>, xs: seq<nat>, n: nat, now: int, cfg: Config,
                   sessions: seq<Session>, tasks: seq<ValidateTask>)
    requires UnlockedUpTo(S, T, xs, n, now, cfg, sessions, tasks) && n < |xs|
    ensures xs[n] < |sessions|
    ensures UnlockedUpTo(S, T, xs, n + 1, now, cfg,
                         sessions[xs[n] := Unlocked(sessions[xs[n]], now, cfg)],
                         tasks + [ValidateTask(sessions[xs[n]].id, "auto")])
  {
    assert xs[..n + 1] == xs[..n] + [xs[n]];
    UnlockAtSnoc(S, xs[..n], xs[n], now, cfg);
  }

  // ---------------------------------------------------------------------------
  // The steps of `expire_old_sessions`

  /** After the first `n` candidates: the stale ones among them are unlocked
      with one task each, the fresh ones are kept, and none raised. */
  ghost predicate Sweeping(S: seq<Session>, T: seq<ValidateTask>, cands: seq<nat>, n: nat, now: int, cfg: Config,
                           sessions: seq<Session>, tasks: seq<ValidateTask>, usable: seq<nat>)
  {
    InRange(S, cands) && Distinct(cands) && n <= |cands| && n <= FirstInvalid(S, cands, cfg) &&
    sessions == UnlockAt(S, StaleAmong(S, cands[..n], now, cfg), now, cfg) &&
    tasks == T + TasksFor(S, StaleAmong(S, cands[..n], now, cfg)) &&
    usable == FreshAmong(S, cands[..n], now, cfg)
  }

  /** The next candidate has not been touched yet. */
  lemma SweepAt(S: seq<Session>, T: seq<ValidateTask>, cands: seq<nat>, n: nat, now: int, cfg: Config,
                sessions: seq<Session>, tasks: seq<ValidateTask>, usable: seq<nat>)
    requires Sweeping(S, T, cands, n, now, cfg, sessions, tasks, usable) && n < |cands|
    ensures cands[n] < |sessions| && sessions[cands[n]] == S[cands[n]]
  {
    var expired := StaleAmong(S, cands[..n], now, cfg);
    assert cands[n] !in cands[..n];
    UnlockAtOutside(S, expired, cands[n], now, cfg);
  }

  lemma SweepRaises(S: seq<Session>, T: seq<ValidateTask>, cands: seq<nat>, n: nat, now: int, cfg: Config,
                    sessions: seq<Session>, tasks: seq<ValidateTask>, usable: seq<nat>)
    requires Sweeping(S, T, cands, n, now, cfg, sessions, tasks, usable) && n < |cands|
    requires VerifyLimitHours(S[cands[n]].verifyType, cfg).None?
    ensures FirstInvalid(S, cands, cfg) == n
    ensures var E := ExpiredBy(S, cands, now, cfg);
      sessions == UnlockAt(S, E, now, cfg) && tasks == T + TasksFor(S, E)
  {
  }

  lemma SweepStale(S: seq<Session>, T: seq<ValidateTask>, cands: seq<nat>, n: nat, now: int, cfg: Config,
                   sessions: seq<Session>, tasks: seq<ValidateTask>, usable: seq<nat>)
    requires Sweeping(S, T, cands, n, now, cfg, sessions, tasks, usable) && n < |cands|
    requires cands[n] < |S| && Stale(S[cands[n]], now, cfg)
    requires sessions[cands[n]] == S[cands[n]]
    ensures Sweeping(S, T, cands, n + 1, now, cfg,
                     sessions[cands[n] := Unlocked(sessions[cands[n]], now, cfg)],
                     tasks + [ValidateTask(sessions[cands[n]].id, "auto")], usable)
  {
    var x := cands[n];
    var expired := StaleAmong(S, cands[..n], now, cfg);
    CandidateStep(S, cands, n, now, cfg);
    ValidNext(S, cands, n, cfg);
    StaleState(S, T, expired, x, now, cfg, sessions, tasks);
  }

  /** Unlocking one more session extends the unlocked list and the tasks. */
  lemma StaleState(S: seq<Session>, T: seq<ValidateTask>, expired: seq<nat>, x: nat, now: int, cfg: Config,
                   sessions: seq<Session>, tasks: seq<ValidateTask>)
    requires InRange(S, expired) && x < |S|
    requires sessions == UnlockAt(S, expired, now, cfg) && tasks == T + TasksFor(S, expired)
    requires sessions[x] == S[x]
    ensures sessions[x := Unlocked(sessions[x], now, cfg)] == UnlockAt(S, expired + [x], now, cfg)
    ensures tasks + [ValidateTask(sessions[x].id, "auto")] == T + TasksFor(S, expired + [x])
  {
    UnlockAtSnoc(S, expired, x, now, cfg);
  }

  lemma SweepFresh(S: seq<Session>, T: seq<ValidateTask>, cands: seq<nat>, n: nat, now: int, cfg: Config,
                   sessions: seq<Session>, tasks: seq<ValidateTask>, usable: seq<nat>)
    requires Sweeping(S, T, cands, n, now, cfg, sessions, tasks, usable) && n < |cands|
    requires cands[n] < |S| && VerifyLimitHours(S[cands[n]].verifyType, cfg).Some? && !Stale(S[cands[n]], now, cfg)
    ensures Sweeping(S, T, cands, n + 1, now, cfg, sessions, tasks, usable + [cands[n]])
  {
    var x := cands[n];
    CandidateStep(S, cands, n, now, cfg);
    ValidNext(S, cands, n, cfg);
    assert StaleAmong(S, cands[..n + 1], now, cfg) == StaleAmong(S, cands[..n], now, cfg);
    assert FreshAmong(S, cands[..n + 1], now, cfg) == usable + [x];
  }

  /** A candidate with a freshness window does not stop the sweep. */
  lemma ValidNext(S: seq<Session>, cands: seq<nat>, n: nat, cfg: Config)
    requires n < |cands| && n <= FirstInvalid(S, cands, cfg)
    requires cands[n] < |S| && VerifyLimitHours(S[cands[n]].verifyType, cfg).Some?
    ensures n + 1 <= FirstInvalid(S, cands, cfg)
  {
  }

  /** One more candidate joins the stale or the fresh ones. */
  lemma CandidateStep(S: seq<Session>, cands: seq<nat>, n: nat, now: int, cfg: Config)
    requires n < |cands| && cands[n] < |S|
    ensures var x := cands[n];
      StaleAmong(S, cands[..n + 1], now, cfg) ==
        StaleAmong(S, cands[..n], now, cfg) + (if Stale(S[x], now, cfg) then [x] else []) &&
      FreshAmong(S, cands[..n + 1], now, cfg) ==
        FreshAmong(S, cands[..n], now, cfg) + (if Stale(S[x], now, cfg) then [] else [x])
  {
    var x := cands[n];
    assert cands[..n + 1] == cands[..n] + [x];
    KeepSnoc(cands[..n], x, StaleIn(S, now, cfg));
    KeepSnoc(cands[..n], x, FreshIn(S, now, cfg));
  }

  lemma SweepDone(S: seq<Session>, T: seq<ValidateTask>, cands: seq<nat>, now: int, cfg: Config,
                  sessions: seq<Session>, tasks: seq<ValidateTask>, usable: seq<nat>)
    requires Sweeping(S, T, cands, |cands|, now, cfg, sessions, tasks, usable)
    ensures FirstInvalid(S, cands, cfg) == |cands|
    ensures var E := ExpiredBy(S, cands, now, cfg);
      sessions == UnlockAt(S, E, now, cfg) && tasks == T + TasksFor(S, E)
    ensures usable == FreshAmong(S, cands, now, cfg)
  {
    assert cands[..|cands|] == cands;
  }
}

/** What the request handlers of the lease manager guarantee, stated about
    the functions of `LeaseRequests` that the handlers of `LeaseApi` are
    proved to compute. */
module LeaseProperties {
  import opened Base
  import opened PyDict
  import opened LeaseRecords
  import opened SiteGroups
  import opened LeaseRequests

  // ---------------------------------------------------------------------------
  // The lock loop

  /** The ExperimentWebsite records of the listed sessions, in list order. */
  function Records(ss: seq<Session>, xs: seq<nat>, experiment: Option<string>): (r: seq<ExperimentWebsite>)
    requires InRange(ss, xs)
    ensures |r| == |xs|
    ensures forall i :: 0 <= i < |xs| ==> r[i] == ExperimentWebsite(experiment, ss[xs[i]].website, ss[xs[i]].id)
    decreases |xs|
  {
    if xs == [] then []
    else
      var x := xs[|xs| - 1];
      Records(ss, xs[..|xs| - 1], experiment) + [ExperimentWebsite(experiment, ss[x].website, ss[x].id)]
  }

  /** How many sessions of `group` the lock loop gets to lease: all of them,
      or up to and including the first one whose file is missing. */
  function Reached(ss: seq<Session>, group: seq<nat>, files: map<string, string>): (n: nat)
    requires InRange(ss, group)
    ensures n <= |group|
  {
    var q := FirstMissing(ss, group, files);
    if q < |group| then q + 1 else q
  }

  /** `d` is `db` with the sessions `xs` leased to `experiment` and, when
      `site` is None, recorded. */
  ghost predicate LeasedState(db: Db, xs: seq<nat>, experiment: Option<string>, site: Option<string>, now: int, cfg: Config, d: Db)
    requires InRange(db.sessions, xs)
  {
    d == db.(sessions := LockAt(db.sessions, xs, experiment, now, cfg),
             history := db.history + if site.None? then Records(db.sessions, xs, experiment) else [])
  }

  /** `items` sends each of the sessions `xs`, leased, with its file and
      login form. */
  ghost predicate SentAll(db: Db, xs: seq<nat>, experiment: Option<string>, now: int, cfg: Config,
                          catalog: seq<LoginForm>, files: map<string, string>, items: seq<Item>)
    requires InRange(db.sessions, xs)
  {
    |items| == |xs| &&
    forall i :: 0 <= i < |xs| ==>
      SessionFilePath(db.sessions[xs[i]].name) in files &&
      items[i] == ItemFor(Leased(db.sessions[xs[i]], experiment, now, cfg), catalog, files)
  }

  /** One more turn of the lock loop after a prefix that went through. */
  lemma LeaseNext(db: Db, group: seq<nat>, n: nat, experiment: Option<string>, site: Option<string>, now: int,
                  cfg: Config, catalog: seq<LoginForm>, files: map<string, string>)
    requires InRange(db.sessions, group) && n < |group|
    requires InRange(db.sessions, group[..n])
    requires var r := LeaseEach(db, group[..n], experiment, site, now, cfg, catalog, files);
      r.1.Ok? && LeasedState(db, group[..n], experiment, site, now, cfg, r.0) &&
      SentAll(db, group[..n], experiment, now, cfg, catalog, files, r.1.value)
    ensures InRange(db.sessions, group[..n + 1])
    ensures var r := LeaseEach(db, group[..n + 1], experiment, site, now, cfg, catalog, files);
      LeasedState(db, group[..n + 1], experiment, site, now, cfg, r.0)
    ensures var r := LeaseEach(db, group[..n + 1], experiment, site, now, cfg, catalog, files);
      var path := SessionFilePath(db.sessions[group[n]].name);
      if path in files then r.1.Ok? && SentAll(db, group[..n + 1], experiment, now, cfg, catalog, files, r.1.value)
      else r.1 == Err(NoSuchFile(path))
  {
    LeaseNextState(db, group, n, experiment, site, now, cfg, catalog, files);
    LeaseNextSent(db, group, n, experiment, site, now, cfg, catalog, files);
  }

  /** Locking one more session of a list: it is leased as it was in the
      original table, whatever the earlier locks did. */
  lemma LockSnoc(ss: seq<Session>, xs: seq<nat>, n: nat, experiment: Option<string>, now: int, cfg: Config)
    requires InRange(ss, xs) && n < |xs|
    ensures InRange(ss, xs[..n]) && InRange(ss, xs[..n + 1])
    ensures Leased(LockAt(ss, xs[..n], experiment, now, cfg)[xs[n]], experiment, now, cfg) == Leased(ss[xs[n]], experiment, now, cfg)
    ensures LockAt(ss, xs[..n + 1], experiment, now, cfg) ==
      LockAt(ss, xs[..n], experiment, now, cfg)[xs[n] := Leased(ss[xs[n]], experiment, now, cfg)]
    ensures Records(ss, xs[..n + 1], experiment) ==
      Records(ss, xs[..n], experiment) + [ExperimentWebsite(experiment, ss[xs[n]].website, ss[xs[n]].id)]
  {
    assert xs[..n + 1][..n] == xs[..n];
    LockAtPointwise(ss, xs[..n], experiment, now, cfg);
  }

  lemma LeaseNextState(db: Db, group: seq<nat>, n: nat, experiment: Option<string>, site: Option<string>, now: int,
                       cfg: Config, catalog: seq<LoginForm>, files: map<string, string>)
    requires InRange(db.sessions, group) && n < |group|
    requires InRange(db.sessions, group[..n])
    requires var r := LeaseEach(db, group[..n], experiment, site, now, cfg, catalog, files);
      r.1.Ok? && LeasedState(db, group[..n], experiment, site, now, cfg, r.0)
    ensures InRange(db.sessions, group[..n + 1])
    ensures var r := LeaseEach(db, group[..n + 1], experiment, site, now, cfg, catalog, files);
      LeasedState(db, group[..n + 1], experiment, site, now, cfg, r.0)
  {
    LockSnoc(db.sessions, group, n, experiment, now, cfg);
    NextSessions(db, group, n, experiment, site, now, cfg, catalog, files);
    NextHistory(db, group, n, experiment, site, now, cfg, catalog, files);
  }

  /** One more turn of the lock loop, field by field, after a prefix that
      went through. */
  lemma StepFields(db: Db, group: seq<nat>, n: nat, experiment: Option<string>, site: Option<string>, now: int,
                   cfg: Config, catalog: seq<LoginForm>, files: map<string, string>)
    requires InRange(db.sessions, group) && n < |group| && InRange(db.sessions, group[..n])
    requires LeaseEach(db, group[..n], experiment, site, now, cfg, catalog, files).1.Ok?
    ensures InRange(db.sessions, group[..n + 1])
    ensures var prev := LeaseEach(db, group[..n], experiment, site, now, cfg, catalog, files).0;
      var next := LeaseEach(db, group[..n + 1], experiment, site, now, cfg, catalog, files).0;
      var s := Leased(prev.sessions[group[n]], experiment, now, cfg);
      next.sessions == prev.sessions[group[n] := s] && next.tasks == prev.tasks &&
      next.history == prev.history + if site.None? then [ExperimentWebsite(experiment, s.website, s.id)] else []
  {
    assert group[..n + 1][..n] == group[..n];
  }

  lemma NextSessions(db: Db, group: seq<nat>, n: nat, experiment: Option<string>, site: Option<string>, now: int,
                     cfg: Config, catalog: seq<LoginForm>, files: map<string, string>)
    requires InRange(db.sessions, group) && n < |group|
    requires InRange(db.sessions, group[..n])
    requires var r := LeaseEach(db, group[..n], experiment, site, now, cfg, catalog, files);
      r.1.Ok? && r.0.sessions == LockAt(db.sessions, group[..n], experiment, now, cfg) && r.0.tasks == db.tasks
    ensures InRange(db.sessions, group[..n + 1])
    ensures var r := LeaseEach(db, group[..n + 1], experiment, site, now, cfg, catalog, files).0;
      r.sessions == LockAt(db.sessions, group[..n + 1], experiment, now, cfg) && r.tasks == db.tasks
  {
    StepFields(db, group, n, experiment, site, now, cfg, catalog, files);
    LockSnoc(db.sessions, group, n, experiment, now, cfg);
  }

  lemma NextHistory(db: Db, group: seq<nat>, n: nat, experiment: Option<string>, site: Option<string>, now: int,
                    cfg: Config, catalog: seq<LoginForm>, files: map<string, string>)
    requires InRange(db.sessions, group) && n < |group|
    requires InRange(db.sessions, group[..n])
    requires var r := LeaseEach(db, group[..n], experiment, site, now, cfg, catalog, files);
      r.1.Ok? && r.0.sessions == LockAt(db.sessions, group[..n], experiment, now, cfg) &&
      r.0.history == db.history + if site.None? then Records(db.sessions, group[..n], experiment) else []
    ensures InRange(db.sessions, group[..n + 1])
    ensures LeaseEach(db, group[..n + 1], experiment, site, now, cfg, catalog, files).0.history ==
      db.history + if site.None? then Records(db.sessions, group[..n + 1], experiment) else []
  {
    var ss := db.sessions;
    StepFields(db, group, n, experiment, site, now, cfg, catalog, files);
    LockSnoc(ss, group, n, experiment, now, cfg);
    if site.None? {
      var s := Leased(ss[group[n]], experiment, now, cfg);
      var before := Records(ss, group[..n], experiment);
      assert LeaseEach(db, group[..n + 1], experiment, site, now, cfg, catalog, files).0.history ==
        (db.history + before) + [ExperimentWebsite(experiment, s.website, s.id)];
    }
  }


  lemma LeaseNextSent(db: Db, group: seq<nat>, n: nat, experiment: Option<string>, site: Option<string>, now: int,
                      cfg: Config, catalog: seq<LoginForm>, files: map<string, string>)
    requires InRange(db.sessions, group) && n < |group|
    requires InRange(db.sessions, group[..n])
    requires var r := LeaseEach(db, group[..n], experiment, site, now, cfg, catalog, files);
      r.1.Ok? && r.0.sessions == LockAt(db.sessions, group[..n], experiment, now, cfg) &&
      SentAll(db, group[..n], experiment, now, cfg, catalog, files, r.1.value)
    ensures InRange(db.sessions, group[..n + 1])
    ensures var r := LeaseEach(db, group[..n + 1], experiment, site, now, cfg, catalog, files);
      var path := SessionFilePath(db.sessions[group[n]].name);
      if path in files then r.1.Ok? && SentAll(db, group[..n + 1], experiment, now, cfg, catalog, files, r.1.value)
      else r.1 == Err(NoSuchFile(path))
  {
    LeaseEachStep(db, group, n, experiment, site, now, cfg, catalog, files);
    LockSnoc(db.sessions, group, n, experiment, now, cfg);
    var s := Leased(db.sessions[group[n]], experiment, now, cfg);
    if SessionFilePath(s.name) in files {
      var prev := LeaseEach(db, group[..n], experiment, site, now, cfg, catalog, files);
      SentSnoc(db, group, n, experiment, now, cfg, catalog, files, prev.1.value);
    }
  }

  /** Sending one more session after a prefix that was sent. */
  lemma SentSnoc(db: Db, xs: seq<nat>, n: nat, experiment: Option<string>, now: int, cfg: Config,
                 catalog: seq<LoginForm>, files: map<string, string>, items: seq<Item>)
    requires InRange(db.sessions, xs) && n < |xs| && InRange(db.sessions, xs[..n])
    requires SentAll(db, xs[..n], experiment, now, cfg, catalog, files, items)
    requires SessionFilePath(db.sessions[xs[n]].name) in files
    ensures InRange(db.sessions, xs[..n + 1])
    ensures SentAll(db, xs[..n + 1], experiment, now, cfg, catalog, files,
                    items + [ItemFor(Leased(db.sessions[xs[n]], experiment, now, cfg), catalog, files)])
  {
    var ss := db.sessions;
    var ys := xs[..n + 1];
    var all := items + [ItemFor(Leased(ss[xs[n]], experiment, now, cfg), catalog, files)];
    forall i | 0 <= i < n + 1
      ensures SessionFilePath(ss[ys[i]].name) in files
      ensures all[i] == ItemFor(Leased(ss[ys[i]], experiment, now, cfg), catalog, files)
    {
      if i < n {
        assert ys[i] == xs[..n][i];
      }
    }
  }



  /** The lock loop goes through every session before the first one whose
      file is missing. */
  lemma {:induction false} LeaseUpTo(db: Db, group: seq<nat>, n: nat, experiment: Option<string>, site: Option<string>, now: int,
                                     cfg: Config, catalog: seq<LoginForm>, files: map<string, string>)
    requires InRange(db.sessions, group) && n <= FirstMissing(db.sessions, group, files)
    ensures InRange(db.sessions, group[..n])
    ensures var r := LeaseEach(db, group[..n], experiment, site, now, cfg, catalog, files);
      r.1.Ok? && LeasedState(db, group[..n], experiment, site, now, cfg, r.0) &&
      SentAll(db, group[..n], experiment, now, cfg, catalog, files, r.1.value)
  {
    if n == 0 {
      assert group[..0] == [];
      assert db.history + [] == db.history;
    } else {
      LeaseUpTo(db, group, n - 1, experiment, site, now, cfg, catalog, files);
      LeaseNext(db, group, n - 1, experiment, site, now, cfg, catalog, files);
    }
  }

  /** The lock loop leases the sessions it reaches and nothing else; it
      records them when `site` is None; it sends every session of the group
      with its file and login form, or raises at the first missing file. */
  lemma LeaseEachEffect(db: Db, group: seq<nat>, experiment: Option<string>, site: Option<string>, now: int,
                        cfg: Config, catalog: seq<LoginForm>, files: map<string, string>)
    requires InRange(db.sessions, group)
    ensures var n := Reached(db.sessions, group, files);
      InRange(db.sessions, group[..n]) &&
      LeasedState(db, group[..n], experiment, site, now, cfg, LeaseEach(db, group, experiment, site, now, cfg, catalog, files).0)
    ensures var r := LeaseEach(db, group, experiment, site, now, cfg, catalog, files);
      var q := FirstMissing(db.sessions, group, files);
      if q < |group| then r.1 == Err(NoSuchFile(SessionFilePath(db.sessions[group[q]].name)))
      else r.1.Ok? && SentAll(db, group, experiment, now, cfg, catalog, files, r.1.value)
  {
    var q := FirstMissing(db.sessions, group, files);
    LeaseUpTo(db, group, q, experiment, site, now, cfg, catalog, files);
    if q < |group| {
      LeaseNext(db, group, q, experiment, site, now, cfg, catalog, files);
      LeaseEachRest(db, group, q + 1, experiment, site, now, cfg, catalog, files);
    } else {
      assert group[..q] == group;
    }
  }

  // ---------------------------------------------------------------------------
  // The sweeps of a request

  /** No session is locked in `after` that was not locked in `before`. */
  predicate NoNewLocks(before: seq<Session>, after: seq<Session>) {
    |after| == |before| && forall j :: 0 <= j < |before| ==> after[j].locked ==> before[j].locked
  }

  /** The sweeps keep every row's identity, lock nothing and record
      nothing, and leave the fresh eligible candidates as they were. */
  lemma SweptRows(db: Db, cands: seq<nat>, now: int, cfg: Config)
    requires InRange(db.sessions, cands)
    requires forall i :: 0 <= i < |cands| ==> Eligible(db.sessions[cands[i]])
    ensures var r := Swept(db, cands, now, cfg);
      NoNewLocks(db.sessions, r.sessions) &&
      forall j :: 0 <= j < |db.sessions| ==> SameRow(r.sessions[j], db.sessions[j])
    ensures var r := Swept(db, cands, now, cfg);
      forall x :: x in FreshAmong(db.sessions, cands, now, cfg) ==> r.sessions[x] == db.sessions[x]
  {
    var ss := db.sessions;
    var expired := ExpiredBy(ss, cands, now, cfg);
    var s1 := UnlockAt(ss, expired, now, cfg);
    var due := DueIndices(s1, now);
    UnlockAtPointwise(ss, expired, now, cfg);
    UnlockAtPointwise(s1, due, now, cfg);
    forall x | x in FreshAmong(ss, cands, now, cfg)
      ensures UnlockAt(s1, due, now, cfg)[x] == ss[x]
    {
      assert x !in expired;
      var i :| 0 <= i < |cands| && cands[i] == x;
      assert Eligible(ss[x]);
      assert x !in due;
    }
  }

  /** The sweeps change no session's site or website, so the choice of the
      session to hand out can be read off the tables before them. */
  lemma PickUnswept(db: Db, cands: seq<nat>, usable: seq<nat>, experiment: Option<string>, site: Option<string>, now: int, cfg: Config)
    requires InRange(db.sessions, cands) && InRange(db.sessions, usable)
    requires forall i :: 0 <= i < |cands| ==> Eligible(db.sessions[cands[i]])
    ensures var r := Swept(db, cands, now, cfg);
      PickPos(r.sessions, usable, r.history, experiment, site) == PickPos(db.sessions, usable, db.history, experiment, site)
  {
    var r := Swept(db, cands, now, cfg);
    SweptRows(db, cands, now, cfg);
    var p := AcceptableIn(r.sessions, r.history, experiment, site);
    var p' := AcceptableIn(db.sessions, db.history, experiment, site);
    forall i | 0 <= i < |usable| ensures p(usable[i]) == p'(usable[i]) {
      assert SameRow(r.sessions[usable[i]], db.sessions[usable[i]]);
    }
    FirstMatchSame(usable, p, p');
  }

  // ---------------------------------------------------------------------------
  // handle_get_session

  /** A candidate with an unknown verify type makes the request raise, after
      the stale candidates ahead of it were unlocked; nothing is locked. */
  lemma {:induction false} LeaseOneRaises(db: Db, experiment: Option<string>, site: Option<string>, now: int, cfg: Config,
                                          catalog: seq<LoginForm>, files: map<string, string>)
    ensures var ss := db.sessions; var cands := EligibleIndices(ss);
      var p := FirstInvalid(ss, cands, cfg);
      var r := LeaseOne(db, experiment, site, now, cfg, catalog, files);
      p < |cands| ==>
        r.1 == Raised(InvalidVerifyTypeMessage(ss[cands[p]].verifyType)) &&
        r.0.sessions == UnlockAt(ss, StaleAmong(ss, cands[..p], now, cfg), now, cfg) &&
        r.0.history == db.history && NoNewLocks(ss, r.0.sessions)
  {
    var ss := db.sessions;
    var cands := EligibleIndices(ss);
    UnlockAtPointwise(ss, ExpiredBy(ss, cands, now, cfg), now, cfg);
  }

  /** Without an unknown verify type, `handle_get_session` goes on to the
      choice on the swept tables. */
  lemma LeaseOneSwept(db: Db, experiment: Option<string>, site: Option<string>, now: int, cfg: Config,
                      catalog: seq<LoginForm>, files: map<string, string>)
    ensures var ss := db.sessions; var cands := EligibleIndices(ss);
      FirstInvalid(ss, cands, cfg) == |cands| ==>
        LeaseOne(db, experiment, site, now, cfg, catalog, files) ==
        LeaseFirstFit(Swept(db, cands, now, cfg), FreshAmong(ss, cands, now, cfg), experiment, site, now, cfg, catalog, files)
  {
  }

  /** The choice: the session at `PickPos` is leased, recorded when `site`
      is None, and sent or its missing file raised; with none, nothing
      changes. */
  lemma LeaseFirstFitPick(db: Db, usable: seq<nat>, experiment: Option<string>, site: Option<string>, now: int, cfg: Config,
                          catalog: seq<LoginForm>, files: map<string, string>)
    requires InRange(db.sessions, usable)
    ensures var q := PickPos(db.sessions, usable, db.history, experiment, site);
      q == |usable| ==> LeaseFirstFit(db, usable, experiment, site, now, cfg, catalog, files) == (db, Sent(Error(NO_SESSIONS)))
    ensures var q := PickPos(db.sessions, usable, db.history, experiment, site);
      var r := LeaseFirstFit(db, usable, experiment, site, now, cfg, catalog, files);
      q < |usable| ==>
        var x := usable[q];
        var s := Leased(db.sessions[x], experiment, now, cfg);
        r.0 == db.(sessions := db.sessions[x := s],
                   history := db.history + if site.None? then [ExperimentWebsite(experiment, s.website, s.id)] else []) &&
        r.1 == if SessionFilePath(s.name) in files then Sent(Success(Single(ItemFor(s, catalog, files))))
               else Raised(NoSuchFile(SessionFilePath(s.name)))
  {
    var q := PickPos(db.sessions, usable, db.history, experiment, site);
    if q < |usable| {
      var x := usable[q];
      LeaseEachStep(db, [x], 0, experiment, site, now, cfg, catalog, files);
      assert [x][..0] == [] && [x][..1] == [x];
    }
  }

  /** `handle_get_session` answers "no sessions available" exactly when no
      eligible, fresh session is acceptable (of the site asked for, or of a
      website the experiment has not had); it then locks and records
      nothing. */
  lemma {:induction false} LeaseOneNone(db: Db, experiment: Option<string>, site: Option<string>, now: int, cfg: Config,
                                        catalog: seq<LoginForm>, files: map<string, string>)
    ensures var ss := db.sessions; var cands := EligibleIndices(ss);
      var r := LeaseOne(db, experiment, site, now, cfg, catalog, files);
      r.1 == Sent(Error(NO_SESSIONS)) <==>
        FirstInvalid(ss, cands, cfg) == |cands| &&
        forall x :: x in FreshAmong(ss, cands, now, cfg) ==> !Acceptable(ss, db.history, experiment, site, x)
    ensures var ss := db.sessions;
      var r := LeaseOne(db, experiment, site, now, cfg, catalog, files);
      r.1 == Sent(Error(NO_SESSIONS)) ==> NoNewLocks(ss, r.0.sessions) && r.0.history == db.history
  {
    var ss := db.sessions;
    var cands := EligibleIndices(ss);
    LeaseOneRaises(db, experiment, site, now, cfg, catalog, files);
    if FirstInvalid(ss, cands, cfg) == |cands| {
      var usable := FreshAmong(ss, cands, now, cfg);
      var q := PickPos(ss, usable, db.history, experiment, site);
      LeaseOneSwept(db, experiment, site, now, cfg, catalog, files);
      PickUnswept(db, cands, usable, experiment, site, now, cfg);
      SweptRows(db, cands, now, cfg);
      LeaseFirstFitPick(Swept(db, cands, now, cfg), usable, experiment, site, now, cfg, catalog, files);
      if q == |usable| {
        forall x | x in usable ensures !Acceptable(ss, db.history, experiment, site, x) {
          var i :| 0 <= i < |usable| && usable[i] == x;
        }
      }
    }
  }

  /** The session `handle_get_session` hands out is eligible (active,
      unlocked, verified), fresh and acceptable, and it is the first such
      one among the candidates in store order. */
  lemma LeaseOneChoice(db: Db, experiment: Option<string>, site: Option<string>, now: int, cfg: Config)
    ensures var ss := db.sessions; var usable := FreshAmong(ss, EligibleIndices(ss), now, cfg);
      var q := PickPos(ss, usable, db.history, experiment, site);
      q < |usable| ==>
        var x := usable[q];
        Eligible(ss[x]) && !Stale(ss[x], now, cfg) && Acceptable(ss, db.history, experiment, site, x) &&
        forall n :: 0 <= n < q ==> !Acceptable(ss, db.history, experiment, site, usable[n])
  {
    var ss := db.sessions;
    var usable := FreshAmong(ss, EligibleIndices(ss), now, cfg);
    var q := PickPos(ss, usable, db.history, experiment, site);
    if q < |usable| {
      assert usable[q] in usable;
    }
  }

  /** The choice on swept tables in which the chosen session is as it was
      in `ss` and no session is locked that was not in `ss`. */
  lemma FitGrants(ss: seq<Session>, db: Db, usable: seq<nat>, experiment: Option<string>, site: Option<string>, now: int, cfg: Config,
                  catalog: seq<LoginForm>, files: map<string, string>)
    requires InRange(ss, usable) && NoNewLocks(ss, db.sessions)
    requires var q := PickPos(db.sessions, usable, db.history, experiment, site);
      q < |usable| && db.sessions[usable[q]] == ss[usable[q]]
    ensures var q := PickPos(db.sessions, usable, db.history, experiment, site);
      var r := LeaseFirstFit(db, usable, experiment, site, now, cfg, catalog, files);
      var x := usable[q];
      var s := Leased(ss[x], experiment, now, cfg);
      r.0.sessions[x] == s && NoNewLocks(ss, r.0.sessions[x := ss[x]]) &&
      r.0.history == db.history + (if site.None? then [ExperimentWebsite(experiment, ss[x].website, ss[x].id)] else []) &&
      r.1 == if SessionFilePath(ss[x].name) in files then Sent(Success(Single(ItemFor(s, catalog, files))))
             else Raised(NoSuchFile(SessionFilePath(ss[x].name)))
  {
    var q := PickPos(db.sessions, usable, db.history, experiment, site);
    var x := usable[q];
    LeaseFirstFitPick(db, usable, experiment, site, now, cfg, catalog, files);
    assert db.sessions[x := Leased(ss[x], experiment, now, cfg)][x := ss[x]] == db.sessions;
  }

  /** Otherwise the first eligible, fresh and acceptable session is leased
      to the experiment, for `leaseHours` from now, and no other session is
      locked; its website is recorded only when no site was given; it is
      sent with its file, and when the file is missing the request raises
      but the lease and the record stay. */
  lemma {:induction false} LeaseOneGrants(db: Db, experiment: Option<string>, site: Option<string>, now: int, cfg: Config,
                                          catalog: seq<LoginForm>, files: map<string, string>)
    ensures var ss := db.sessions; var cands := EligibleIndices(ss);
      var usable := FreshAmong(ss, cands, now, cfg);
      var q := PickPos(ss, usable, db.history, experiment, site);
      var r := LeaseOne(db, experiment, site, now, cfg, catalog, files);
      FirstInvalid(ss, cands, cfg) == |cands| && q < |usable| ==>
        var x := usable[q];
        var s := Leased(ss[x], experiment, now, cfg);
        r.0.sessions[x] == s && NoNewLocks(ss, r.0.sessions[x := ss[x]]) &&
        r.0.history == db.history + (if site.None? then [ExperimentWebsite(experiment, ss[x].website, ss[x].id)] else []) &&
        r.1 == if SessionFilePath(ss[x].name) in files then Sent(Success(Single(ItemFor(s, catalog, files))))
               else Raised(NoSuchFile(SessionFilePath(ss[x].name)))
  {
    var ss := db.sessions;
    var cands := EligibleIndices(ss);
    var usable := FreshAmong(ss, cands, now, cfg);
    var q := PickPos(ss, usable, db.history, experiment, site);
    if FirstInvalid(ss, cands, cfg) == |cands| && q < |usable| {
      LeaseOneSwept(db, experiment, site, now, cfg, catalog, files);
      SweptPick(db, experiment, site, now, cfg);
      FitGrants(ss, Swept(db, cands, now, cfg), usable, experiment, site, now, cfg, catalog, files);
    }
  }

  /** On the swept tables the same session is picked, as it was queried,
      and no session is locked that was not locked before. */
  lemma SweptPick(db: Db, experiment: Option<string>, site: Option<string>, now: int, cfg: Config)
    requires var ss := db.sessions; var cands := EligibleIndices(ss);
      var usable := FreshAmong(ss, cands, now, cfg);
      PickPos(ss, usable, db.history, experiment, site) < |usable|
    ensures var ss := db.sessions; var cands := EligibleIndices(ss);
      var usable := FreshAmong(ss, cands, now, cfg); var sw := Swept(db, cands, now, cfg);
      var q := PickPos(ss, usable, db.history, experiment, site);
      NoNewLocks(ss, sw.sessions) && PickPos(sw.sessions, usable, sw.history, experiment, site) == q &&
      sw.sessions[usable[q]] == ss[usable[q]]
  {
    var ss := db.sessions;
    var cands := EligibleIndices(ss);
    var usable := FreshAmong(ss, cands, now, cfg);
    var q := PickPos(ss, usable, db.history, experiment, site);
    assert usable[q] in usable;
    PickUnswept(db, cands, usable, experiment, site, now, cfg);
    SweptRows(db, cands, now, cfg);
  }

  // ---------------------------------------------------------------------------
  // handle_get_sessions

  /** No website passed the quorum query: nothing to offer, whatever site
      was asked for. */
  lemma LeaseFirstSiteEmpty(db: Db, ss: seq<Session>, rows: seq<nat>, usable: seq<nat>, experiment: Option<string>,
                            site: Option<string>, k: int, now: int, cfg: Config,
                            catalog: seq<LoginForm>, files: map<string, string>)
    requires rows == [] && |db.sessions| == |ss|
    ensures LeaseFirstSite(db, ss, rows, usable, experiment, site, k, now, cfg, catalog, files) == (db, Sent(Error(NO_SESSIONS)))
  {
    var pruned := Pruned(Grouped(ss, rows), usable, k);
    assert forall key :: !HasKey(pruned, key);
  }

  /** The batch the trimming loop leaves for the site of the last row: its
      first `k` rows that survived the freshness sweep. */
  function LastGroup(ss: seq<Session>, rows: seq<nat>, usable: seq<nat>, k: int): seq<nat>
    requires rows != [] && InRange(ss, rows)
  {
    PySlice(Remaining(OfSite(ss, rows, ss[rows[|rows| - 1]].website.site), usable), k)
  }

  /** The last row's site is the last key of the grouping; asked for by
      name, it is the one offered, with its trimmed group. */
  lemma OfferedLast(ss: seq<Session>, rows: seq<nat>, usable: seq<nat>, k: int, used: set<string>)
    requires rows != [] && InRange(ss, rows) && SortedByWebsite(ss, rows) && ConsistentWebsites(ss)
    requires ss[rows[|rows| - 1]].website.site != ""
    ensures var groups := Grouped(ss, rows); var key := ss[rows[|rows| - 1]].website.site;
      groups.keys != [] && groups.keys[|groups.keys| - 1] == key &&
      var offered := Offered(Pruned(groups, usable, k), Some(key), used);
      offered.keys == [key] && HasKey(offered, key) && Get(offered, key) == LastGroup(ss, rows, usable, k)
  {
    LastSiteKey(ss, rows);
    assert rows[|rows| - 1] in rows;
  }

  /** The last group holds at most `k` rows, each a fresh row of the last
      row's site, none twice. */
  lemma LastGroupRows(ss: seq<Session>, rows: seq<nat>, usable: seq<nat>, k: int)
    requires rows != [] && InRange(ss, rows) && Distinct(rows)
    ensures var group := LastGroup(ss, rows, usable, k);
      InRange(ss, group) && Distinct(group) && (k >= 0 ==> |group| <= k) &&
      forall x :: x in group ==> x in rows && x in usable && ss[x].website.site == ss[rows[|rows| - 1]].website.site
  {
    var key := ss[rows[|rows| - 1]].website.site;
    var remaining := Remaining(OfSite(ss, rows, key), usable);
    var group := LastGroup(ss, rows, usable, k);
    assert group == remaining[..|group|];
    assert forall x :: x in group ==> x in remaining;
    forall i | 0 <= i < |group| ensures group[i] < |ss| {
      assert group[i] in group;
    }
  }

  /** With rows in website order, one name per website and a non-empty
      name on the last row, the site offered is the site of the last row,
      whatever site was asked for and whatever the experiment had: the
      trimming loop leaves `site` bound to it. */
  lemma LeaseFirstSiteLast(db: Db, ss: seq<Session>, rows: seq<nat>, usable: seq<nat>, experiment: Option<string>,
                           site: Option<string>, k: int, now: int, cfg: Config,
                           catalog: seq<LoginForm>, files: map<string, string>)
    requires rows != [] && InRange(ss, rows) && |db.sessions| == |ss| && SortedByWebsite(ss, rows) && ConsistentWebsites(ss)
    requires ss[rows[|rows| - 1]].website.site != ""
    ensures InRange(db.sessions, LastGroup(ss, rows, usable, k))
    ensures var key := ss[rows[|rows| - 1]].website.site;
      var r := LeaseEach(db, LastGroup(ss, rows, usable, k), experiment, Some(key), now, cfg, catalog, files);
      LeaseFirstSite(db, ss, rows, usable, experiment, site, k, now, cfg, catalog, files) ==
        (r.0, if r.1.Ok? then Sent(Success(Batch(key, r.1.value))) else Raised(r.1.error))
  {
    var used := UsedSiteNames(db.history, experiment);
    OfferedLast(ss, rows, usable, k, used);
    var key := ss[rows[|rows| - 1]].website.site;
    OfferedRows(ss, rows, usable, k, Some(key), used);
  }

  /** `handle_get_sessions` answers "no sessions available" exactly when no
      website passed the quorum query (given non-empty site names, one per
      website). */
  lemma LeaseBatchNone(db: Db, experiment: Option<string>, site: Option<string>, k: int, now: int, cfg: Config,
                       catalog: seq<LoginForm>, files: map<string, string>)
    requires ConsistentWebsites(db.sessions)
    requires forall j :: 0 <= j < |db.sessions| ==> db.sessions[j].website.site != ""
    ensures LeaseBatch(db, experiment, site, k, now, cfg, catalog, files).1 == Sent(Error(NO_SESSIONS)) <==>
      QueryRows(db.sessions, k) == []
  {
    var ss := db.sessions;
    var rows := QueryRows(ss, k);
    if FirstInvalid(ss, rows, cfg) == |rows| {
      var db2 := Swept(db, rows, now, cfg);
      var usable := FreshAmong(ss, rows, now, cfg);
      LeaseBatchSwept(db, experiment, site, k, now, cfg, catalog, files);
      if rows == [] {
        LeaseFirstSiteEmpty(db2, ss, rows, usable, experiment, site, k, now, cfg, catalog, files);
      } else {
        LeaseFirstSiteLast(db2, ss, rows, usable, experiment, site, k, now, cfg, catalog, files);
      }
    }
  }

  /** Two session tables that agree on the rows of `group` fail on the same
      missing file. */
  lemma FirstMissingSame(ss: seq<Session>, ss2: seq<Session>, group: seq<nat>, files: map<string, string>)
    requires |ss2| == |ss| && InRange(ss, group) && forall x :: x in group ==> ss2[x] == ss[x]
    ensures FirstMissing(ss2, group, files) == FirstMissing(ss, group, files)
    ensures Reached(ss2, group, files) == Reached(ss, group, files)
  {
    var p := FileMissingIn(ss, files);
    var p2 := FileMissingIn(ss2, files);
    forall i | 0 <= i < |group| ensures p(group[i]) == p2(group[i]) {
      assert group[i] in group;
    }
    FirstMatchSame(group, p, p2);
  }

  lemma SentAllSame(db: Db, db2: Db, xs: seq<nat>, experiment: Option<string>, now: int, cfg: Config,
                    catalog: seq<LoginForm>, files: map<string, string>, items: seq<Item>)
    requires |db2.sessions| == |db.sessions| && InRange(db.sessions, xs)
    requires forall x :: x in xs ==> db2.sessions[x] == db.sessions[x]
    ensures SentAll(db2, xs, experiment, now, cfg, catalog, files, items) == SentAll(db, xs, experiment, now, cfg, catalog, files, items)
  {
    forall i | 0 <= i < |xs| ensures db2.sessions[xs[i]] == db.sessions[xs[i]] {
      assert xs[i] in xs;
    }
  }

  /** What the batch handler did with `group` of site `key`, given the
      tables `swept` it found after the sweeps: the sessions of `group` up
      to and including the first one whose file is missing are leased, no
      record is kept, and the reply is that error or the whole batch. */
  ghost predicate BatchOutcome(db: Db, swept: Db, group: seq<nat>, key: string, experiment: Option<string>, now: int, cfg: Config,
                               catalog: seq<LoginForm>, files: map<string, string>, r: (Db, Outcome))
    requires InRange(db.sessions, group) && |swept.sessions| == |db.sessions|
  {
    var q := FirstMissing(db.sessions, group, files);
    r.0.sessions == LockAt(swept.sessions, group[..Reached(db.sessions, group, files)], experiment, now, cfg) &&
    r.0.history == db.history &&
    if q < |group| then r.1 == Raised(NoSuchFile(SessionFilePath(db.sessions[group[q]].name)))
    else r.1.Sent? && r.1.reply.Success? && r.1.reply.payload.Batch? && r.1.reply.payload.site == key &&
         SentAll(db, group, experiment, now, cfg, catalog, files, r.1.reply.payload.items)
  }

  /** The lock loop on swept tables in which the group's sessions are as
      they were before the sweep. */
  lemma BatchFromSwept(db: Db, db2: Db, group: seq<nat>, experiment: Option<string>, key: string, now: int, cfg: Config,
                       catalog: seq<LoginForm>, files: map<string, string>)
    requires |db2.sessions| == |db.sessions| && db2.history == db.history && InRange(db.sessions, group)
    requires forall x :: x in group ==> db2.sessions[x] == db.sessions[x]
    ensures var r := LeaseEach(db2, group, experiment, Some(key), now, cfg, catalog, files);
      BatchOutcome(db, db2, group, key, experiment, now, cfg, catalog, files,
                   (r.0, if r.1.Ok? then Sent(Success(Batch(key, r.1.value))) else Raised(r.1.error)))
  {
    FirstMissingSame(db.sessions, db2.sessions, group, files);
    LeaseEachEffect(db2, group, experiment, Some(key), now, cfg, catalog, files);
    assert db2.history + [] == db2.history;
    var r := LeaseEach(db2, group, experiment, Some(key), now, cfg, catalog, files);
    if r.1.Ok? {
      SentAllSame(db, db2, group, experiment, now, cfg, catalog, files, r.1.value);
    }
  }

  /** When the query found rows and none has an unknown verify type, the
      batch is the last row's site with its group (see `LastGroupRows`):
      each session of the group is leased to the experiment and sent with
      its file, or the first missing file raises after the sessions before
      it and itself were leased; no other session is locked and no record
      is kept. */
  lemma LeaseBatchSite(db: Db, experiment: Option<string>, site: Option<string>, k: int, now: int, cfg: Config,
                       catalog: seq<LoginForm>, files: map<string, string>)
    requires ConsistentWebsites(db.sessions)
    requires var rows := QueryRows(db.sessions, k);
      rows != [] && FirstInvalid(db.sessions, rows, cfg) == |rows| && db.sessions[rows[|rows| - 1]].website.site != ""
    ensures var ss := db.sessions; var rows := QueryRows(ss, k);
      InRange(ss, rows) &&
      var group := LastGroup(ss, rows, FreshAmong(ss, rows, now, cfg), k);
      InRange(ss, group) &&
      BatchOutcome(db, Swept(db, rows, now, cfg), group, ss[rows[|rows| - 1]].website.site, experiment, now, cfg, catalog, files,
                   LeaseBatch(db, experiment, site, k, now, cfg, catalog, files))
  {
    var ss := db.sessions;
    var rows := QueryRows(ss, k);
    LeaseBatchSwept(db, experiment, site, k, now, cfg, catalog, files);
    var key := ss[rows[|rows| - 1]].website.site;
    var usable := FreshAmong(ss, rows, now, cfg);
    var group := LastGroup(ss, rows, usable, k);
    var db2 := Swept(db, rows, now, cfg);
    LastGroupRows(ss, rows, usable, k);
    LeaseFirstSiteLast(db2, ss, rows, usable, experiment, site, k, now, cfg, catalog, files);
    SweptFresh(db, rows, group, now, cfg);
    BatchFromSwept(db, db2, group, experiment, key, now, cfg, catalog, files);
  }

  /** With no unknown verify type among the rows, the batch handler works
      on the swept tables with the rows that stayed fresh. */
  lemma LeaseBatchSwept(db: Db, experiment: Option<string>, site: Option<string>, k: int, now: int, cfg: Config,
                        catalog: seq<LoginForm>, files: map<string, string>)
    ensures var ss := db.sessions; var rows := QueryRows(ss, k);
      InRange(ss, rows) &&
      (forall i :: 0 <= i < |rows| ==> Eligible(ss[rows[i]])) &&
      (FirstInvalid(ss, rows, cfg) == |rows| ==>
        LeaseBatch(db, experiment, site, k, now, cfg, catalog, files) ==
        LeaseFirstSite(Swept(db, rows, now, cfg), ss, rows, FreshAmong(ss, rows, now, cfg), experiment, site, k, now, cfg, catalog, files))
  {
    var ss := db.sessions;
    var rows := QueryRows(ss, k);
    forall i | 0 <= i < |rows| ensures rows[i] < |ss| && Eligible(ss[rows[i]]) {
      assert rows[i] in rows;
    }
  }

  /** The sweeps leave the fresh rows of the query as they were. */
  lemma SweptFresh(db: Db, rows: seq<nat>, group: seq<nat>, now: int, cfg: Config)
    requires InRange(db.sessions, rows) && forall i :: 0 <= i < |rows| ==> Eligible(db.sessions[rows[i]])
    requires forall x :: x in group ==> x < |db.sessions| && x in FreshAmong(db.sessions, rows, now, cfg)
    ensures var r := Swept(db, rows, now, cfg);
      |r.sessions| == |db.sessions| && r.history == db.history &&
      forall x :: x in group ==> r.sessions[x] == db.sessions[x]
  {
    SweptRows(db, rows, now, cfg);
  }


  // ---------------------------------------------------------------------------
  // handle_unlock_session

  /** Without an owner the request is refused; otherwise it succeeds exactly
      when a session with that id is leased to the owner, and then that
      session is unlocked and one "auto" validation task is queued for it,
      and nothing else changes. */
  lemma UnlockRequestOutcome(db: Db, owner: Option<string>, id: Option<int>, now: int, cfg: Config)
    ensures owner.None? ==> UnlockRequest(db, owner, id, now, cfg) == (db, Sent(Error(EXPERIMENT_REQUIRED)))
    ensures var ss := db.sessions; var r := UnlockRequest(db, owner, id, now, cfg);
      owner.Some? ==>
        (r.1 == Sent(Success(Empty)) <==> exists j :: 0 <= j < |ss| && id == Some(ss[j].id as int) && ss[j].experiment == owner) &&
        (r.1 != Sent(Success(Empty)) ==> r == (db, Sent(Error(NOT_OWNED))))
    ensures owner.Some? && (id.None? || id.value < 0) ==> UnlockRequest(db, owner, id, now, cfg) == (db, Sent(Error(NOT_OWNED)))
    ensures var ss := db.sessions; var r := UnlockRequest(db, owner, id, now, cfg);
      r.1 == Sent(Success(Empty)) ==>
        var j := FindOwned(ss, id, owner.value);
        j < |ss| && id == Some(ss[j].id as int) && ss[j].experiment == owner &&
        r.0 == db.(sessions := ss[j := Unlocked(ss[j], now, cfg)], tasks := db.tasks + [ValidateTask(ss[j].id, "auto")])
  {
    var ss := db.sessions;
    if owner.Some? {
      var j := FindOwned(ss, id, owner.value);
      if j < |ss| {
        UnlockAtSnoc(ss, [], j, now, cfg);
        assert [] + [j] == [j];
      }
    }
  }

  /** With unique session ids, repeating a successful unlock request is
      refused: the first one cleared the session's experiment. */
  lemma UnlockTwice(db: Db, owner: Option<string>, id: Option<int>, now: int, cfg: Config)
    requires UniqueIds(db.sessions)
    requires UnlockRequest(db, owner, id, now, cfg).1 == Sent(Success(Empty))
    ensures var db' := UnlockRequest(db, owner, id, now, cfg).0;
      UnlockRequest(db', owner, id, now, cfg) == (db', Sent(Error(NOT_OWNED)))
  {
    UnlockRequestOutcome(db, owner, id, now, cfg);
    var ss := db.sessions;
    var j := FindOwned(ss, id, owner.value);
    var db' := UnlockRequest(db, owner, id, now, cfg).0;
    UnlockRequestOutcome(db', owner, id, now, cfg);
    forall i | 0 <= i < |ss| ensures !(id == Some(db'.sessions[i].id as int) && db'.sessions[i].experiment == owner) {
    }
  }

  // ---------------------------------------------------------------------------
  // The main loop

  /** No experiment has two ExperimentWebsite records for one website. */
  predicate NoRepeatedWebsites(history: seq<ExperimentWebsite>) {
    forall i, j :: 0 <= i < j < |history| && history[i].experiment == history[j].experiment ==>
      history[i].website.id != history[j].website.id
  }

  /** A request adds at most one record, for a website its experiment did
      not have, and removes none. */
  lemma DispatchRecords(db: Db, req: Request, now: int, cfg: Config, catalog: seq<LoginForm>, files: map<string, string>)
    ensures var h := Dispatch(db, req, now, cfg, catalog, files).0.history;
      h == db.history ||
      exists e, w, id :: h == db.history + [ExperimentWebsite(e, w, id)] && w.id !in UsedWebsiteIds(db.history, e)
  {
    match req
    case GetSession(e) => LeaseOneRecords(db, e, None, now, cfg, catalog, files);
    case GetSpecificSession(e, site) => LeaseOneRecords(db, e, site, now, cfg, catalog, files);
    case GetSessions(e, k) =>
    case GetSpecificSessions(e, site, k) =>
    case Unlock(owner, id) =>
    case Illegal(t) =>
    case Invalid(e) =>
  }

  lemma LeaseOneRecords(db: Db, experiment: Option<string>, site: Option<string>, now: int, cfg: Config,
                        catalog: seq<LoginForm>, files: map<string, string>)
    ensures var h := LeaseOne(db, experiment, site, now, cfg, catalog, files).0.history;
      h == db.history ||
      exists w, id :: h == db.history + [ExperimentWebsite(experiment, w, id)] && w.id !in UsedWebsiteIds(db.history, experiment)
  {
    var ss := db.sessions;
    var cands := EligibleIndices(ss);
    LeaseOneRaises(db, experiment, site, now, cfg, catalog, files);
    LeaseOneNone(db, experiment, site, now, cfg, catalog, files);
    LeaseOneChoice(db, experiment, site, now, cfg);
    LeaseOneGrants(db, experiment, site, now, cfg, catalog, files);
    var usable := FreshAmong(ss, cands, now, cfg);
    var q := PickPos(ss, usable, db.history, experiment, site);
    if FirstInvalid(ss, cands, cfg) == |cands| && q < |usable| && site.None? {
      var x := usable[q];
      assert LeaseOne(db, experiment, site, now, cfg, catalog, files).0.history ==
        db.history + [ExperimentWebsite(experiment, ss[x].website, ss[x].id)];
    }
  }

  /** One step of the main loop: a request, the time it is served at, the
      configuration, the login forms and the session files. */
  datatype Step = Step(req: Request, now: int, cfg: Config, catalog: seq<LoginForm>, files: map<string, string>)

  /** The tables after the main loop served `steps`, one after the other. */
  function Run(db: Db, steps: seq<Step>): Db
    decreases |steps|
  {
    if steps == [] then db
    else
      var s := steps[0];
      Run(Dispatch(db, s.req, s.now, s.cfg, s.catalog, s.files).0, steps[1..])
  }

  /** Records are never removed, even by unlocks, and an experiment is
      never recorded twice for one website: so across any run of requests,
      a tenant never gets two single leases without a site on one website. */
  lemma {:induction false} RunKeepsRecords(db: Db, steps: seq<Step>)
    requires NoRepeatedWebsites(db.history)
    ensures NoRepeatedWebsites(Run(db, steps).history)
    ensures db.history <= Run(db, steps).history
    decreases |steps|
  {
    if steps != [] {
      var s := steps[0];
      DispatchKeepsRecords(db, s.req, s.now, s.cfg, s.catalog, s.files);
      RunKeepsRecords(Dispatch(db, s.req, s.now, s.cfg, s.catalog, s.files).0, steps[1..]);
    }
  }

  /** Once a website is recorded for an experiment, after any run of
      requests a single lease of that experiment without a site picks no
      session of that website. */
  lemma NoSecondLease(db: Db, steps: seq<Step>, rec: ExperimentWebsite, now: int, cfg: Config)
    requires NoRepeatedWebsites(db.history) && rec in db.history
    ensures var d := Run(db, steps); var ss := d.sessions;
      var usable := FreshAmong(ss, EligibleIndices(ss), now, cfg);
      var q := PickPos(ss, usable, d.history, rec.experiment, None);
      q < |usable| ==> ss[usable[q]].website.id != rec.website.id
  {
    RunKeepsRecords(db, steps);
    var d := Run(db, steps);
    assert rec in d.history by {
      var i :| 0 <= i < |db.history| && db.history[i] == rec;
      assert d.history[i] == rec;
    }
    assert rec.website.id in UsedWebsiteIds(d.history, rec.experiment);
  }

  /** One request keeps the records of earlier ones and adds no repeat. */
  lemma DispatchKeepsRecords(db: Db, req: Request, now: int, cfg: Config, catalog: seq<LoginForm>, files: map<string, string>)
    requires NoRepeatedWebsites(db.history)
    ensures var h := Dispatch(db, req, now, cfg, catalog, files).0.history;
      NoRepeatedWebsites(h) && db.history <= h
  {
    DispatchRecords(db, req, now, cfg, catalog, files);
    var h := Dispatch(db, req, now, cfg, catalog, files).0.history;
    if h != db.history {
      var e, w, id :| h == db.history + [ExperimentWebsite(e, w, id)] && w.id !in UsedWebsiteIds(db.history, e);
      RecordNew(db.history, e, w, id);
    }
  }

  /** Recording a website the experiment did not have adds no repeat. */
  lemma RecordNew(h: seq<ExperimentWebsite>, e: Option<string>, w: Website, id: nat)
    requires NoRepeatedWebsites(h) && w.id !in UsedWebsiteIds(h, e)
    ensures NoRepeatedWebsites(h + [ExperimentWebsite(e, w, id)])
  {
    forall i | 0 <= i < |h| && h[i].experiment == e ensures h[i].website.id != w.id {
      assert h[i] in h;
    }
  }

  // ---------------------------------------------------------------------------
  // The lease invariant: a locked session has a holder and an unlock time

  /** Unlocking keeps the invariant: an unlocked session is not locked, and
      the other sessions are as they were. */
  lemma UnlockKeepsLeases(ss: seq<Session>, xs: seq<nat>, now: int, cfg: Config)
    requires AllLeasesHeld(ss)
    ensures AllLeasesHeld(UnlockAt(ss, xs, now, cfg))
  {
    UnlockAtPointwise(ss, xs, now, cfg);
  }

  /** Both sweeps of a request keep the invariant. */
  lemma SweptKeepsLeases(db: Db, cands: seq<nat>, now: int, cfg: Config)
    requires InRange(db.sessions, cands) && AllLeasesHeld(db.sessions)
    ensures AllLeasesHeld(Swept(db, cands, now, cfg).sessions)
  {
    var expired := ExpiredBy(db.sessions, cands, now, cfg);
    var db1 := UnlockAll(db, expired, now, cfg);
    UnlockKeepsLeases(db.sessions, expired, now, cfg);
    UnlockKeepsLeases(db1.sessions, DueIndices(db1.sessions, now), now, cfg);
  }

  /** The lock loop sets the lock, the holder and the unlock time together. */
  lemma {:induction false} LeaseEachKeepsLeases(db: Db, group: seq<nat>, experiment: Option<string>, site: Option<string>, now: int,
                                                cfg: Config, catalog: seq<LoginForm>, files: map<string, string>)
    requires InRange(db.sessions, group) && AllLeasesHeld(db.sessions) && experiment.Some?
    ensures AllLeasesHeld(LeaseEach(db, group, experiment, site, now, cfg, catalog, files).0.sessions)
    decreases |group|
  {
    if group != [] {
      LeaseEachKeepsLeases(db, group[..|group| - 1], experiment, site, now, cfg, catalog, files);
    }
  }

  lemma LeaseOneKeepsLeases(db: Db, experiment: Option<string>, site: Option<string>, now: int, cfg: Config,
                            catalog: seq<LoginForm>, files: map<string, string>)
    requires AllLeasesHeld(db.sessions) && experiment.Some?
    ensures AllLeasesHeld(LeaseOne(db, experiment, site, now, cfg, catalog, files).0.sessions)
  {
    var ss := db.sessions;
    var cands := EligibleIndices(ss);
    var p := FirstInvalid(ss, cands, cfg);
    if p < |cands| {
      LeaseOneRaises(db, experiment, site, now, cfg, catalog, files);
      UnlockKeepsLeases(ss, StaleAmong(ss, cands[..p], now, cfg), now, cfg);
    } else {
      LeaseOneSwept(db, experiment, site, now, cfg, catalog, files);
      SweptKeepsLeases(db, cands, now, cfg);
      FitKeepsLeases(Swept(db, cands, now, cfg), FreshAmong(ss, cands, now, cfg), experiment, site, now, cfg, catalog, files);
    }
  }

  lemma FitKeepsLeases(db: Db, usable: seq<nat>, experiment: Option<string>, site: Option<string>, now: int, cfg: Config,
                       catalog: seq<LoginForm>, files: map<string, string>)
    requires InRange(db.sessions, usable) && AllLeasesHeld(db.sessions) && experiment.Some?
    ensures AllLeasesHeld(LeaseFirstFit(db, usable, experiment, site, now, cfg, catalog, files).0.sessions)
  {
    var q := PickPos(db.sessions, usable, db.history, experiment, site);
    if q < |usable| {
      LeaseEachKeepsLeases(db, [usable[q]], experiment, site, now, cfg, catalog, files);
    }
  }

  lemma FirstSiteKeepsLeases(db: Db, ss: seq<Session>, rows: seq<nat>, usable: seq<nat>, experiment: Option<string>,
                             site: Option<string>, k: int, now: int, cfg: Config,
                             catalog: seq<LoginForm>, files: map<string, string>)
    requires InRange(ss, rows) && |db.sessions| == |ss| && AllLeasesHeld(db.sessions) && experiment.Some?
    ensures AllLeasesHeld(LeaseFirstSite(db, ss, rows, usable, experiment, site, k, now, cfg, catalog, files).0.sessions)
  {
    var group, key := FirstSiteShape(db, ss, rows, usable, experiment, site, k, now, cfg, catalog, files);
    if group != [] {
      LeaseEachKeepsLeases(db, group, experiment, Some(key), now, cfg, catalog, files);
    }
  }

  /** The tables the second half of the batch handler leaves: as they were,
      or those the lock loop leaves on one group of sessions. */
  lemma FirstSiteShape(db: Db, ss: seq<Session>, rows: seq<nat>, usable: seq<nat>, experiment: Option<string>,
                       site: Option<string>, k: int, now: int, cfg: Config,
                       catalog: seq<LoginForm>, files: map<string, string>)
    returns (group: seq<nat>, key: string)
    requires InRange(ss, rows) && |db.sessions| == |ss|
    ensures InRange(db.sessions, group)
    ensures var r := LeaseFirstSite(db, ss, rows, usable, experiment, site, k, now, cfg, catalog, files).0;
      r == if group == [] then db else LeaseEach(db, group, experiment, Some(key), now, cfg, catalog, files).0
  {
    var groups := Grouped(ss, rows);
    var last := if groups.keys == [] then site else Some(groups.keys[|groups.keys| - 1]);
    var used := UsedSiteNames(db.history, experiment);
    var offered := Offered(Pruned(groups, usable, k), last, used);
    if offered.keys == [] {
      group, key := [], "";
    } else {
      key := offered.keys[0];
      OfferedRows(ss, rows, usable, k, last, used);
      group := Get(offered, key);
      if group == [] {
        assert LeaseEach(db, group, experiment, Some(key), now, cfg, catalog, files).0 == db;
      }
    }
  }

  lemma LeaseBatchKeepsLeases(db: Db, experiment: Option<string>, site: Option<string>, k: int, now: int, cfg: Config,
                              catalog: seq<LoginForm>, files: map<string, string>)
    requires AllLeasesHeld(db.sessions) && experiment.Some?
    ensures AllLeasesHeld(LeaseBatch(db, experiment, site, k, now, cfg, catalog, files).0.sessions)
  {
    var rows := QueryRows(db.sessions, k);
    UnlockKeepsLeases(db.sessions, ExpiredBy(db.sessions, rows, now, cfg), now, cfg);
    var u := Usable(db.sessions, rows, now, cfg);
    if u.Ok? {
      SweptKeepsLeases(db, rows, now, cfg);
      FirstSiteKeepsLeases(Swept(db, rows, now, cfg), db.sessions, rows, u.value, experiment, site, k, now, cfg, catalog, files);
    }
  }

  lemma BatchRequestKeepsLeases(db: Db, experiment: Option<string>, site: Option<string>, k: BatchK, now: int, cfg: Config,
                                catalog: seq<LoginForm>, files: map<string, string>)
    requires AllLeasesHeld(db.sessions) && experiment.Some?
    ensures AllLeasesHeld(BatchRequest(db, experiment, site, k, now, cfg, catalog, files).0.sessions)
  {
    match k
    case Absent => LeaseBatchKeepsLeases(db, experiment, site, DEFAULT_K, now, cfg, catalog, files);
    case Null => SweptKeepsLeases(db, [], now, cfg);
    case Given(n) => LeaseBatchKeepsLeases(db, experiment, site, n, now, cfg, catalog, files);
  }

  /** Every request that names its experiment keeps the invariant, whatever
      its reply. */
  lemma DispatchKeepsLeases(db: Db, req: Request, now: int, cfg: Config, catalog: seq<LoginForm>, files: map<string, string>)
    requires AllLeasesHeld(db.sessions) && Named(req)
    ensures AllLeasesHeld(Dispatch(db, req, now, cfg, catalog, files).0.sessions)
  {
    match req
    case GetSession(e) => LeaseOneKeepsLeases(db, e, None, now, cfg, catalog, files);
    case GetSpecificSession(e, site) => LeaseOneKeepsLeases(db, e, site, now, cfg, catalog, files);
    case GetSessions(e, k) => BatchRequestKeepsLeases(db, e, None, k, now, cfg, catalog, files);
    case GetSpecificSessions(e, site, k) => BatchRequestKeepsLeases(db, e, site, k, now, cfg, catalog, files);
    case Unlock(owner, id) =>
      if owner.Some? {
        UnlockKeepsLeases(db.sessions, [FindOwned(db.sessions, id, owner.value)], now, cfg);
      }
    case Illegal(t) =>
    case Invalid(e) =>
  }

  /** The invariant holds after every request of any run of the main loop
      whose lease requests name their experiment. */
  lemma {:induction false} RunKeepsLeases(db: Db, steps: seq<Step>)
    requires AllLeasesHeld(db.sessions) && forall i :: 0 <= i < |steps| ==> Named(steps[i].req)
    ensures AllLeasesHeld(Run(db, steps).sessions)
    decreases |steps|
  {
    if steps != [] {
      var s := steps[0];
      DispatchKeepsLeases(db, s.req, s.now, s.cfg, s.catalog, s.files);
      RunKeepsLeases(Dispatch(db, s.req, s.now, s.cfg, s.catalog, s.files).0, steps[1..]);
    }
  }

  /** With the experiment check, every request keeps the invariant. */
  lemma GuardedKeepsLeases(db: Db, req: Request, now: int, cfg: Config, catalog: seq<LoginForm>, files: map<string, string>)
    requires AllLeasesHeld(db.sessions)
    ensures AllLeasesHeld(GuardedDispatch(db, req, now, cfg, catalog, files).0.sessions)
  {
    if Named(req) {
      DispatchKeepsLeases(db, req, now, cfg, catalog, files);
    }
  }

  /** As written, a lease request with a null experiment that finds a
      session locks it for no one, and the invariant is lost. */
  lemma NullLeaseUnheld(db: Db, site: Option<string>, now: int, cfg: Config, catalog: seq<LoginForm>,
                        files: map<string, string>)
    requires var ss := db.sessions; var cands := EligibleIndices(ss);
      var usable := FreshAmong(ss, cands, now, cfg);
      FirstInvalid(ss, cands, cfg) == |cands| && PickPos(ss, usable, db.history, None, site) < |usable|
    ensures !AllLeasesHeld(LeaseOne(db, None, site, now, cfg, catalog, files).0.sessions)
  {
    var ss := db.sessions;
    var usable := FreshAmong(ss, EligibleIndices(ss), now, cfg);
    var x := usable[PickPos(ss, usable, db.history, None, site)];
    LeaseOneGrants(db, None, site, now, cfg, catalog, files);
    assert !LeaseHeld(LeaseOne(db, None, site, now, cfg, catalog, files).0.sessions[x]);
  }

  /** On a store of one eligible, fresh session with a valid verify type,
      the request `{"type": "get_session", "experiment": null}` loses the
      invariant. */
  lemma NullLeaseExample(s: Session, now: int, cfg: Config)
    requires Eligible(s) && VerifyLimitHours(s.verifyType, cfg).Some? && !Stale(s, now, cfg)
    ensures AllLeasesHeld([s])
    ensures !AllLeasesHeld(Dispatch(Db([s], [], []), GetSession(None), now, cfg, [], map[]).0.sessions)
  {
    var db := Db([s], [], []);
    var cands := EligibleIndices(db.sessions);
    assert 0 in cands;
    var usable := FreshAmong(db.sessions, cands, now, cfg);
    assert 0 in usable;
    var i :| 0 <= i < |usable| && usable[i] == 0;
    assert Acceptable(db.sessions, db.history, None, None, usable[i]);
    NullLeaseUnheld(db, None, now, cfg, [], map[]);
    DispatchSingle(db, None, now, cfg, [], map[]);
  }

  /** A `get_session` request runs the single handler with no site. */
  lemma DispatchSingle(db: Db, experiment: Option<string>, now: int, cfg: Config, catalog: seq<LoginForm>,
                       files: map<string, string>)
    ensures Dispatch(db, GetSession(experiment), now, cfg, catalog, files).0 == LeaseOne(db, experiment, None, now, cfg, catalog, files).0
  {
  }

  // ---------------------------------------------------------------------------
  // A batch request with k null

  /** With `k` null the batch handler answers as it does for a `k` no
      website reaches: either way the query has no rows. */
  lemma NoRowsLikeNoQuorum(db: Db, experiment: Option<string>, site: Option<string>, k: int, now: int, cfg: Config,
                           catalog: seq<LoginForm>, files: map<string, string>)
    requires QueryRows(db.sessions, k) == []
    ensures LeaseBatch(db, experiment, site, k, now, cfg, catalog, files) == LeaseBatchNoRows(db, now, cfg)
  {
    assert FreshAmong(db.sessions, [], now, cfg) == [];
    LeaseFirstSiteEmpty(Swept(db, [], now, cfg), db.sessions, [], [], experiment, site, k, now, cfg, catalog, files);
  }

  /** With `k` null only the leases past their unlock time end, each with a
      validation task, and the reply is that no sessions are available. */
  lemma NoRowsSweepsDue(db: Db, now: int, cfg: Config)
    ensures var r := LeaseBatchNoRows(db, now, cfg); var due := DueIndices(db.sessions, now);
      r.1 == Sent(Error(NO_SESSIONS)) && r.0.history == db.history &&
      r.0.sessions == UnlockAt(db.sessions, due, now, cfg) && r.0.tasks == db.tasks + TasksFor(db.sessions, due)
  {
    assert ExpiredBy(db.sessions, [], now, cfg) == [];
    assert UnlockAll(db, [], now, cfg) == db;
  }
}

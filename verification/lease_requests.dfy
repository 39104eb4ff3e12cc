/** What one request to the lease manager (AccountFramework/app/api.py) does
    to the database and what it answers, as functions of the database before
    it. The handlers of `LeaseApi` are proved to do exactly this; the lemmas
    here state what the service promises of it. */
module LeaseRequests {
  import opened Base
  import opened PyDict
  import opened LeaseRecords
  import opened SiteGroups

  const NO_SESSIONS := "no sessions available"
  const EXPERIMENT_REQUIRED := "Experiment is required!"
  const NOT_OWNED := "Session does not exist or does not belong to the experiment!"
  /** The `k` of a batch request that does not give one. */
  const DEFAULT_K := 2

  /** One session as sent to the client: the leased row, the contents of
      its session file and its login form, if any. */
  datatype Item = Item(session: Session, sessionData: string, loginForm: Option<LoginForm>)

  datatype Payload =
    | Empty
    | Single(item: Item)
    | Batch(site: string, items: seq<Item>)

  /** `{"success": true, ...}` or `{"success": false, "error": ...}`. */
  datatype Reply = Success(payload: Payload) | Error(msg: string)

  /** How a handler ends: it sent a reply, or it raised an exception that the
      main loop turns into a reply. */
  datatype Outcome = Sent(reply: Reply) | Raised(exception: string)

  /** The `k` field of a batch request: absent, JSON null, or an integer. */
  datatype BatchK = Absent | Null | Given(value: int)

  /** A decoded request. The experiment of a lease request is None when the
      request carries a JSON null there; so is the session id of an unlock
      request. `Illegal` is a well-formed request of an unknown
      type; `Invalid` one that could not be decoded (bad JSON, a missing
      field), carrying the text of the exception. */
  datatype Request =
    | GetSession(experiment: Option<string>)
    | GetSpecificSession(experiment: Option<string>, site: Option<string>)
    | GetSessions(experiment: Option<string>, k: BatchK)
    | GetSpecificSessions(experiment: Option<string>, site: Option<string>, k: BatchK)
    | Unlock(owner: Option<string>, sessionId: Option<int>)
    | Illegal(typ: string)
    | Invalid(error: string)

  /** The reply the main loop sends for a handler's outcome. */
  function Answer(o: Outcome): Reply {
    match o
    case Sent(r) => r
    case Raised(e) => Error("invalid request " + e)
  }

  function ItemFor(s: Session, catalog: seq<LoginForm>, files: map<string, string>): Item
    requires SessionFilePath(s.name) in files
  {
    Item(s, files[SessionFilePath(s.name)], BestForm(catalog, s.website.site))
  }

  function FileMissingIn(ss: seq<Session>, files: map<string, string>): nat -> bool {
    (x: nat) => x >= |ss| || SessionFilePath(ss[x].name) !in files
  }

  /** Position in `xs` of the first session whose file cannot be opened. */
  function FirstMissing(ss: seq<Session>, xs: seq<nat>, files: map<string, string>): (q: nat)
    ensures q <= |xs|
    ensures q < |xs| ==> xs[q] >= |ss| || SessionFilePath(ss[xs[q]].name) !in files
    ensures forall n :: 0 <= n < q ==> xs[n] < |ss| && SessionFilePath(ss[xs[n]].name) in files
  {
    FirstMatch(xs, FileMissingIn(ss, files))
  }

  /** The tables the lease manager uses: sessions (joined with their
      accounts), ExperimentWebsite records and ValidateTask records. */
  datatype Db = Db(sessions: seq<Session>, history: seq<ExperimentWebsite>, tasks: seq<ValidateTask>)

  /** `unlock_session` on each listed session in turn. */
  function UnlockAll(db: Db, xs: seq<nat>, now: int, cfg: Config): (r: Db)
    requires InRange(db.sessions, xs)
    ensures |r.sessions| == |db.sessions| && r.history == db.history
  {
    db.(sessions := UnlockAt(db.sessions, xs, now, cfg), tasks := db.tasks + TasksFor(db.sessions, xs))
  }

  /** The tables after both sweeps of a request: `expire_old_sessions` on
      the candidates, then `unlock_old_sessions`. */
  function Swept(db: Db, cands: seq<nat>, now: int, cfg: Config): (r: Db)
    requires InRange(db.sessions, cands)
    ensures |r.sessions| == |db.sessions| && r.history == db.history
  {
    var db1 := UnlockAll(db, ExpiredBy(db.sessions, cands, now, cfg), now, cfg);
    UnlockAll(db1, DueIndices(db1.sessions, now), now, cfg)
  }

  /** What `expire_old_sessions(cands)` returns: the fresh candidates in
      input order, or the message of the exception raised at the first
      candidate with an unknown verify type. */
  function Usable(ss: seq<Session>, cands: seq<nat>, now: int, cfg: Config): (r: Result<seq<nat>, string>)
    requires InRange(ss, cands)
    ensures r.Ok? ==> InRange(ss, r.value) && forall x :: x in r.value ==> x in cands && !Stale(ss[x], now, cfg)
  {
    var p := FirstInvalid(ss, cands, cfg);
    if p < |cands| then Err(InvalidVerifyTypeMessage(ss[cands[p]].verifyType))
    else Ok(FreshAmong(ss, cands, now, cfg))
  }

  /** The lock loop of the batch handler (api.py:351-396), which the single
      handler runs for one session (api.py:193-236): each session of `group`
      in turn is locked for `experiment` and saved, recorded in the history
      when `site` is None, and sent with its file and login form. The first
      missing file raises, and what was done before stays done. */
  function LeaseEach(db: Db, group: seq<nat>, experiment: Option<string>, site: Option<string>, now: int, cfg: Config,
                     catalog: seq<LoginForm>, files: map<string, string>): (r: (Db, Result<seq<Item>, string>))
    requires InRange(db.sessions, group)
    ensures |r.0.sessions| == |db.sessions| && r.0.tasks == db.tasks
    ensures site.Some? ==> r.0.history == db.history
    ensures r.1.Ok? ==> |r.1.value| == |group|
    decreases |group|
  {
    if group == [] then (db, Ok([]))
    else
      var prev := LeaseEach(db, group[..|group| - 1], experiment, site, now, cfg, catalog, files);
      if prev.1.Err? then prev
      else
        var x := group[|group| - 1];
        var s := Leased(prev.0.sessions[x], experiment, now, cfg);
        var next := prev.0.(sessions := prev.0.sessions[x := s],
                            history := prev.0.history + if site.None? then [ExperimentWebsite(experiment, s.website, s.id)] else []);
        if SessionFilePath(s.name) in files then (next, Ok(prev.1.value + [ItemFor(s, catalog, files)]))
        else (next, Err(NoSuchFile(SessionFilePath(s.name))))
  }

  /** One more session of the group: if the lock loop has not raised yet,
      the next session is leased, saved, recorded when `site` is None, and
      sent, or its missing file raises. */
  lemma LeaseEachStep(db: Db, group: seq<nat>, n: nat, experiment: Option<string>, site: Option<string>, now: int, cfg: Config,
                      catalog: seq<LoginForm>, files: map<string, string>)
    requires InRange(db.sessions, group) && n < |group|
    ensures InRange(db.sessions, group[..n]) && InRange(db.sessions, group[..n + 1])
    ensures var prev := LeaseEach(db, group[..n], experiment, site, now, cfg, catalog, files);
      var x := group[n];
      var s := Leased(prev.0.sessions[x], experiment, now, cfg);
      var next := prev.0.(sessions := prev.0.sessions[x := s],
                          history := prev.0.history + if site.None? then [ExperimentWebsite(experiment, s.website, s.id)] else []);
      LeaseEach(db, group[..n + 1], experiment, site, now, cfg, catalog, files) ==
        if prev.1.Err? then prev
        else if SessionFilePath(s.name) in files then (next, Ok(prev.1.value + [ItemFor(s, catalog, files)]))
        else (next, Err(NoSuchFile(SessionFilePath(s.name))))
  {
    assert group[..n + 1][..n] == group[..n];
  }

  /** Once the lock loop has raised, the later sessions are not touched. */
  lemma {:induction false} LeaseEachRest(db: Db, group: seq<nat>, n: nat, experiment: Option<string>, site: Option<string>, now: int,
                                         cfg: Config, catalog: seq<LoginForm>, files: map<string, string>)
    requires InRange(db.sessions, group) && n <= |group|
    requires LeaseEach(db, group[..n], experiment, site, now, cfg, catalog, files).1.Err?
    ensures LeaseEach(db, group, experiment, site, now, cfg, catalog, files) == LeaseEach(db, group[..n], experiment, site, now, cfg, catalog, files)
    decreases |group|
  {
    if n < |group| {
      var front := group[..|group| - 1];
      assert front[..n] == group[..n];
      LeaseEachRest(db, front, n, experiment, site, now, cfg, catalog, files);
    } else {
      assert group[..n] == group;
    }
  }

  /** `handle_get_session(experiment, site)` (api.py:141-241). */
  function LeaseOne(db: Db, experiment: Option<string>, site: Option<string>, now: int, cfg: Config,
                      catalog: seq<LoginForm>, files: map<string, string>): (r: (Db, Outcome))
    ensures |r.0.sessions| == |db.sessions|
  {
    var cands := EligibleIndices(db.sessions);
    var db1 := UnlockAll(db, ExpiredBy(db.sessions, cands, now, cfg), now, cfg);
    match Usable(db.sessions, cands, now, cfg)
    case Err(e) => (db1, Raised(e))
    case Ok(usable) =>
      LeaseFirstFit(Swept(db, cands, now, cfg), usable, experiment, site, now, cfg, catalog, files)
  }

  /** The second half of `handle_get_session` (api.py:163-241), on the
      tables `db` left by the sweeps: the first of the usable sessions that
      is acceptable is leased and sent. */
  function LeaseFirstFit(db: Db, usable: seq<nat>, experiment: Option<string>, site: Option<string>, now: int, cfg: Config,
                         catalog: seq<LoginForm>, files: map<string, string>): (r: (Db, Outcome))
    requires InRange(db.sessions, usable)
    ensures |r.0.sessions| == |db.sessions| && r.0.tasks == db.tasks
  {
    var q := PickPos(db.sessions, usable, db.history, experiment, site);
    if q == |usable| then (db, Sent(Error(NO_SESSIONS)))
    else
      var r := LeaseEach(db, [usable[q]], experiment, site, now, cfg, catalog, files);
      (r.0, if r.1.Ok? then Sent(Success(Single(r.1.value[0]))) else Raised(r.1.error))
  }

  /** The entries left to offer (api.py:320-342): the `site` entry alone
      when `site` is truthy (none when it is not a key), otherwise the
      entries of the sites not yet given to the experiment. */
  function Offered(pruned: Dict<string, seq<nat>>, site: Option<string>, used: set<string>): (r: Dict<string, seq<nat>>)
    ensures (forall key :: key in pruned.keys ==> HasKey(pruned, key)) ==>
      forall key :: key in r.keys ==> HasKey(pruned, key) && HasKey(r, key) && Get(r, key) == Get(pruned, key)
  {
    if Truthy(site) then
      if HasKey(pruned, site.value) then Dict([site.value], map[site.value := Get(pruned, site.value)]) else Dict([], map[])
    else Dropped(pruned, used)
  }

  /** `handle_get_sessions(experiment, site, k)` (api.py:244-403). */
  function LeaseBatch(db: Db, experiment: Option<string>, site: Option<string>, k: int, now: int, cfg: Config,
                      catalog: seq<LoginForm>, files: map<string, string>): (r: (Db, Outcome))
    ensures |r.0.sessions| == |db.sessions| && r.0.history == db.history
  {
    var rows := QueryRows(db.sessions, k);
    var db1 := UnlockAll(db, ExpiredBy(db.sessions, rows, now, cfg), now, cfg);
    match Usable(db.sessions, rows, now, cfg)
    case Err(e) => (db1, Raised(e))
    case Ok(usable) =>
      LeaseFirstSite(Swept(db, rows, now, cfg), db.sessions, rows, usable, experiment, site, k, now, cfg, catalog, files)
  }

  /** The second half of `handle_get_sessions` (api.py:310-403), on the
      tables `db` left by the sweeps: the groups of the query rows `rows` of
      `ss` (the sessions as queried) are trimmed to the fresh rows, the sites
      to offer are chosen, and the first of them is leased. The trimming
      loop leaves `site` bound to the last site walked, and the lock loop
      tests the first offered site in its place, which is never None. */
  function LeaseFirstSite(db: Db, ss: seq<Session>, rows: seq<nat>, usable: seq<nat>, experiment: Option<string>,
                          site: Option<string>, k: int, now: int, cfg: Config,
                          catalog: seq<LoginForm>, files: map<string, string>): (r: (Db, Outcome))
    requires InRange(ss, rows) && |db.sessions| == |ss|
    ensures |r.0.sessions| == |db.sessions| && r.0.history == db.history && r.0.tasks == db.tasks
  {
    var groups := Grouped(ss, rows);
    var last := if groups.keys == [] then site else Some(groups.keys[|groups.keys| - 1]);
    var offered := Offered(Pruned(groups, usable, k), last, UsedSiteNames(db.history, experiment));
    if offered.keys == [] then (db, Sent(Error(NO_SESSIONS)))
    else
      var key := offered.keys[0];
      OfferedRows(ss, rows, usable, k, last, UsedSiteNames(db.history, experiment));
      var r := LeaseEach(db, Get(offered, key), experiment, Some(key), now, cfg, catalog, files);
      (r.0, if r.1.Ok? then Sent(Success(Batch(key, r.1.value))) else Raised(r.1.error))
  }

  /** Every offered group holds fresh rows of the query, of its own site. */
  lemma OfferedRows(ss: seq<Session>, rows: seq<nat>, usable: seq<nat>, k: int, last: Option<string>, used: set<string>)
    requires InRange(ss, rows)
    ensures var offered := Offered(Pruned(Grouped(ss, rows), usable, k), last, used);
      forall key :: key in offered.keys ==>
        HasKey(offered, key) && InRange(ss, Get(offered, key)) &&
        forall x :: x in Get(offered, key) ==> x in rows && ss[x].website.site == key && x in usable
  {
    var groups := Grouped(ss, rows);
    var pruned := Pruned(groups, usable, k);
    var offered := Offered(pruned, last, used);
    forall key | key in offered.keys
      ensures HasKey(offered, key) && InRange(ss, Get(offered, key))
      ensures forall x :: x in Get(offered, key) ==> x in rows && ss[x].website.site == key && x in usable
    {
      var group := Get(offered, key);
      var remaining := Remaining(OfSite(ss, rows, key), usable);
      assert group == PySlice(remaining, k);
      assert forall x :: x in group ==> x in remaining;
      forall i | 0 <= i < |group| ensures group[i] < |ss| {
        assert group[i] in group;
      }
    }
  }

  /** `handle_unlock_session(owner, id)` (api.py:69-83): the owner must be
      a string, and the session must be held by it. */
  function UnlockRequest(db: Db, owner: Option<string>, id: Option<int>, now: int, cfg: Config): (Db, Outcome) {
    if owner.None? then (db, Sent(Error(EXPERIMENT_REQUIRED)))
    else
      var j := FindOwned(db.sessions, id, owner.value);
      if j == |db.sessions| then (db, Sent(Error(NOT_OWNED)))
      else (UnlockAll(db, [j], now, cfg), Sent(Success(Empty)))
  }

  /** `handle_get_sessions` with `k` null: `COUNT(...) >= NULL` holds for
      no website, so the query has no rows (api.py:255-265); the sweeps run
      on no candidates, and no site is left to offer (api.py:397-398). */
  function LeaseBatchNoRows(db: Db, now: int, cfg: Config): (r: (Db, Outcome))
    ensures |r.0.sessions| == |db.sessions| && r.0.history == db.history
  {
    (Swept(db, [], now, cfg), Sent(Error(NO_SESSIONS)))
  }

  /** `handle_get_sessions` called with the request's `k`, `DEFAULT_K` when
      it has none (api.py:436-439). */
  function BatchRequest(db: Db, experiment: Option<string>, site: Option<string>, k: BatchK, now: int, cfg: Config,
                        catalog: seq<LoginForm>, files: map<string, string>): (r: (Db, Outcome))
    ensures |r.0.sessions| == |db.sessions| && r.0.history == db.history
  {
    match k
    case Absent => LeaseBatch(db, experiment, site, DEFAULT_K, now, cfg, catalog, files)
    case Null => LeaseBatchNoRows(db, now, cfg)
    case Given(n) => LeaseBatch(db, experiment, site, n, now, cfg, catalog, files)
  }

  /** One turn of the main loop (api.py:424-445): the request is handled
      and exactly one reply is sent; an exception becomes the reply
      "invalid request <e>" and leaves the database as the handler left it. */
  function Dispatch(db: Db, req: Request, now: int, cfg: Config, catalog: seq<LoginForm>, files: map<string, string>): (Db, Reply) {
    var r := match req
      case GetSession(e) => LeaseOne(db, e, None, now, cfg, catalog, files)
      case GetSpecificSession(e, site) => LeaseOne(db, e, site, now, cfg, catalog, files)
      case GetSessions(e, k) => BatchRequest(db, e, None, k, now, cfg, catalog, files)
      case GetSpecificSessions(e, site, k) => BatchRequest(db, e, site, k, now, cfg, catalog, files)
      case Unlock(owner, id) => UnlockRequest(db, owner, id, now, cfg)
      case Illegal(t) => (db, Sent(Error("illegal request type " + t)))
      case Invalid(e) => (db, Raised(e));
    (r.0, Answer(r.1))
  }

  /** Whether a request that leases sessions names its experiment; the
      other requests need none. */
  predicate Named(req: Request) {
    match req
    case GetSession(e) => e.Some?
    case GetSpecificSession(e, _) => e.Some?
    case GetSessions(e, _) => e.Some?
    case GetSpecificSessions(e, _, _) => e.Some?
    case _ => true
  }

  /** The main loop with the experiment check of `handle_unlock_session`
      (api.py:73-74) made for the lease requests too, whose handlers are
      documented to require an experiment name (api.py:142, 245): a lease
      request with a null experiment is refused and changes nothing. */
  function GuardedDispatch(db: Db, req: Request, now: int, cfg: Config, catalog: seq<LoginForm>,
                           files: map<string, string>): (r: (Db, Reply))
    ensures !Named(req) ==> r == (db, Error(EXPERIMENT_REQUIRED))
    ensures Named(req) ==> r == Dispatch(db, req, now, cfg, catalog, files)
  {
    if Named(req) then Dispatch(db, req, now, cfg, catalog, files) else (db, Error(EXPERIMENT_REQUIRED))
  }
}

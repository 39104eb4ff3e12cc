/** The records the lease manager reads and writes (AccountFramework/app/api.py),
    and the pure decisions it takes about them: which sessions are eligible,
    stale or due, what unlocking and leasing do to one session, which login
    form goes with a site, and which rows the batch query returns.

    Sessions are referred to by their position in the store's list of
    sessions; times are whole seconds. */
module LeaseRecords {
  import opened Base

  const SECONDS_PER_HOUR := 3600
  const SESSION_FILE_PATH := "./auth/"

  datatype Status = Status(name: string, active: bool)

  datatype Website = Website(id: nat, site: string)

  /** A session row joined with its account (every session belongs to an
      account, and the account to a website). */
  datatype Session = Session(
    id: nat,
    name: string,
    accountId: nat,
    website: Website,
    status: Status,
    locked: bool,
    verified: bool,
    verifyType: string,
    verifiedBrowsers: string,
    unlockTime: Option<int>,
    updateTime: int,
    experiment: Option<string>)

  /** "this website was handed to this experiment" */
  datatype ExperimentWebsite = ExperimentWebsite(experiment: Option<string>, website: Website, session: nat)

  /** A request to the external verifier to re-validate a session. */
  datatype ValidateTask = ValidateTask(session: nat, taskType: string)

  datatype LoginForm = LoginForm(id: nat, site: string, success: bool)

  /** TIMEOUT_EXP_SESSION, AUTO_VERIFY_TIMOUT, MANUAL_VERIFY_TIMOUT (hours), and
      the `active` flag of the "expired" session status row. */
  datatype Config = Config(leaseHours: int, autoVerifyHours: int, manualVerifyHours: int, expiredActive: bool)

  /** The values used when the environment variables are unset. */
  function DefaultConfig(expiredActive: bool): Config {
    Config(24, 12, 12, expiredActive)
  }

  predicate Eligible(s: Session) {
    s.status.active && !s.locked && s.verified
  }

  /** The lease invariant: a locked session has a holder and an unlock time. */
  predicate LeaseHeld(s: Session) {
    s.locked ==> s.experiment.Some? && s.unlockTime.Some?
  }

  /** A session that keeps its identity: same row, account, website, name. */
  predicate SameRow(a: Session, b: Session) {
    a.id == b.id && a.name == b.name && a.accountId == b.accountId && a.website == b.website
  }

  /** The unlock transition of `unlock_session`. */
  function Unlocked(s: Session, now: int, cfg: Config): (r: Session)
    ensures SameRow(r, s) && r.updateTime == s.updateTime
    ensures !Eligible(r) && LeaseHeld(r) && r.experiment.None?
  {
    s.(locked := false, verified := false, verifyType := "no", verifiedBrowsers := "",
       status := Status("expired", cfg.expiredActive), unlockTime := Some(now), experiment := None)
  }

  /** The lease taken by `handle_get_session(s)`: locked for `experiment`
      until `leaseHours` from now. The handlers do not check the request's
      experiment, so a JSON null locks the session for no one. */
  function Leased(s: Session, experiment: Option<string>, now: int, cfg: Config): (r: Session)
    ensures SameRow(r, s) && r.verified == s.verified && r.status == s.status
    ensures r.locked && !Eligible(r) && r.experiment == experiment
    ensures r.unlockTime.Some? && r.unlockTime.value - now == cfg.leaseHours * SECONDS_PER_HOUR
  {
    s.(locked := true, unlockTime := Some(now + cfg.leaseHours * SECONDS_PER_HOUR), experiment := experiment)
  }

  // ---------------------------------------------------------------------------
  // Freshness and lease expiry

  /** The freshness window of a verify type; any other type has none. */
  function VerifyLimitHours(verifyType: string, cfg: Config): Option<int> {
    if verifyType == "auto" then Some(cfg.autoVerifyHours)
    else if verifyType == "manual" then Some(cfg.manualVerifyHours)
    else None
  }

  /** Not used for longer than its freshness window (strictly longer). */
  predicate Stale(s: Session, now: int, cfg: Config) {
    match VerifyLimitHours(s.verifyType, cfg)
    case None => false
    case Some(h) => now - s.updateTime > h * SECONDS_PER_HOUR
  }

  function InvalidVerifyTypeMessage(verifyType: string): string {
    "verify_type=" + verifyType + " is invalid in expiration of old sessions"
  }

  /** A lease whose unlock time has come. */
  predicate Due(s: Session, now: int) {
    s.locked && s.unlockTime.Some? && s.unlockTime.value <= now
  }

  // ---------------------------------------------------------------------------
  // Selections of sessions, by position

  /** Session ids are a primary key. */
  predicate UniqueIds(ss: seq<Session>) {
    forall i, j :: 0 <= i < j < |ss| ==> ss[i].id != ss[j].id
  }

  predicate InRange(ss: seq<Session>, xs: seq<nat>) {
    forall i :: 0 <= i < |xs| ==> xs[i] < |ss|
  }

  lemma {:induction false} RangeDistinct(n: nat)
    ensures Distinct(Range(n))
  {
  }

  /** The positions of the sessions satisfying `p`, in store order. */
  function IndicesWhere(ss: seq<Session>, p: Session -> bool): (r: seq<nat>)
    ensures Distinct(r) && InRange(ss, r)
    ensures forall j: nat :: j in r <==> j < |ss| && p(ss[j])
  {
    RangeDistinct(|ss|);
    assert forall j: nat :: j in Range(|ss|) <==> j < |ss| by {
      forall j: nat ensures j in Range(|ss|) <==> j < |ss| {
        if j < |ss| { assert Range(|ss|)[j] == j; }
      }
    }
    var r := Keep(Range(|ss|), (j: nat) => j < |ss| && p(ss[j]));
    assert forall i :: 0 <= i < |r| ==> r[i] in r;
    r
  }

  /** Active, unlocked and verified sessions (api.py:147-155, 252-263). */
  function EligibleIndices(ss: seq<Session>): (r: seq<nat>)
    ensures Distinct(r) && InRange(ss, r)
    ensures forall j: nat :: j in r <==> j < |ss| && Eligible(ss[j])
  {
    IndicesWhere(ss, Eligible)
  }

  /** Locked sessions whose unlock time is due (api.py:102-104). */
  function DueIndices(ss: seq<Session>, now: int): (r: seq<nat>)
    ensures Distinct(r) && InRange(ss, r)
    ensures forall j: nat :: j in r <==> j < |ss| && Due(ss[j], now)
  {
    IndicesWhere(ss, (s: Session) => Due(s, now))
  }

  /** Sessions held by some experiment (unlock_all_sessions.py:14-20). */
  function HeldIndices(ss: seq<Session>): (r: seq<nat>)
    ensures Distinct(r) && InRange(ss, r)
    ensures forall j: nat :: j in r <==> j < |ss| && ss[j].experiment.Some?
  {
    IndicesWhere(ss, (s: Session) => s.experiment.Some?)
  }

  /** Whether a candidate's verify type has no freshness window. */
  function InvalidIn(ss: seq<Session>, cfg: Config): nat -> bool {
    (x: nat) => x >= |ss| || VerifyLimitHours(ss[x].verifyType, cfg).None?
  }

  function StaleIn(ss: seq<Session>, now: int, cfg: Config): nat -> bool {
    (x: nat) => x < |ss| && Stale(ss[x], now, cfg)
  }

  function FreshIn(ss: seq<Session>, now: int, cfg: Config): nat -> bool {
    (x: nat) => x < |ss| && !Stale(ss[x], now, cfg)
  }

  /** Position in `cands` of the first candidate whose verify type has no
      freshness window (where `expire_old_sessions` raises), or |cands|. */
  function FirstInvalid(ss: seq<Session>, cands: seq<nat>, cfg: Config): (p: nat)
    ensures p <= |cands|
    ensures p < |cands| ==> cands[p] >= |ss| || VerifyLimitHours(ss[cands[p]].verifyType, cfg).None?
    ensures forall n :: 0 <= n < p ==> cands[n] < |ss| && VerifyLimitHours(ss[cands[n]].verifyType, cfg).Some?
  {
    FirstMatch(cands, InvalidIn(ss, cfg))
  }

  /** The candidates that `expire_old_sessions` keeps, in input order. */
  function FreshAmong(ss: seq<Session>, cands: seq<nat>, now: int, cfg: Config): (r: seq<nat>)
    ensures IsSubseq(r, cands)
    ensures forall x :: x in r <==> x in cands && x < |ss| && !Stale(ss[x], now, cfg)
    ensures Distinct(cands) ==> Distinct(r)
    ensures InRange(ss, r)
  {
    var r := Keep(cands, FreshIn(ss, now, cfg));
    assert forall i :: 0 <= i < |r| ==> r[i] in r;
    r
  }

  /** The candidates that `expire_old_sessions` drops and unlocks. */
  function StaleAmong(ss: seq<Session>, cands: seq<nat>, now: int, cfg: Config): (r: seq<nat>)
    ensures IsSubseq(r, cands)
    ensures forall x :: x in r <==> x in cands && x < |ss| && Stale(ss[x], now, cfg)
    ensures Distinct(cands) ==> Distinct(r)
    ensures InRange(ss, r)
  {
    var r := Keep(cands, StaleIn(ss, now, cfg));
    assert forall i :: 0 <= i < |r| ==> r[i] in r;
    r
  }

  /** What `expire_old_sessions` unlocks before it returns or raises: the
      stale candidates ahead of the first invalid one. */
  function ExpiredBy(ss: seq<Session>, cands: seq<nat>, now: int, cfg: Config): (r: seq<nat>)
    ensures forall x :: x in r ==> x in cands && x < |ss| && Stale(ss[x], now, cfg)
    ensures Distinct(cands) ==> Distinct(r)
    ensures InRange(ss, r)
  {
    var p := FirstInvalid(ss, cands, cfg);
    assert Distinct(cands) ==> Distinct(cands[..p]);
    StaleAmong(ss, cands[..p], now, cfg)
  }

  /** Every listed session put through the unlock transition, one after
      the other. */
  function UnlockAt(ss: seq<Session>, xs: seq<nat>, now: int, cfg: Config): (r: seq<Session>)
    ensures |r| == |ss|
    ensures forall j :: 0 <= j < |ss| ==> SameRow(r[j], ss[j])
    decreases |xs|
  {
    if xs == [] then ss
    else
      var r := UnlockAt(ss, xs[..|xs| - 1], now, cfg);
      var x := xs[|xs| - 1];
      if x < |r| then r[x := Unlocked(r[x], now, cfg)] else r
  }

  /** Every listed session leased to `experiment`, one after the other. */
  function LockAt(ss: seq<Session>, xs: seq<nat>, experiment: Option<string>, now: int, cfg: Config): (r: seq<Session>)
    ensures |r| == |ss|
    ensures forall j :: 0 <= j < |ss| ==> SameRow(r[j], ss[j])
    decreases |xs|
  {
    if xs == [] then ss
    else
      var r := LockAt(ss, xs[..|xs| - 1], experiment, now, cfg);
      var x := xs[|xs| - 1];
      if x < |r| then r[x := Leased(r[x], experiment, now, cfg)] else r
  }

  /** One "auto" validation task per listed session, in list order. */
  function TasksFor(ss: seq<Session>, xs: seq<nat>): (r: seq<ValidateTask>)
    requires InRange(ss, xs)
    ensures |r| == |xs|
    decreases |xs|
  {
    if xs == [] then []
    else TasksFor(ss, xs[..|xs| - 1]) + [ValidateTask(ss[xs[|xs| - 1]].id, "auto")]
  }

  /** Unlocking a list of sessions unlocks each listed one once (unlocking
      twice is unlocking once) and leaves the others alone. */
  lemma {:induction false} UnlockAtPointwise(ss: seq<Session>, xs: seq<nat>, now: int, cfg: Config)
    ensures forall j :: 0 <= j < |ss| ==>
      UnlockAt(ss, xs, now, cfg)[j] == if j in xs then Unlocked(ss[j], now, cfg) else ss[j]
    decreases |xs|
  {
    if xs != [] {
      var init := xs[..|xs| - 1];
      UnlockAtPointwise(ss, init, now, cfg);
      assert xs == init + [xs[|xs| - 1]];
    }
  }

  /** Leasing a list of sessions leases each listed one and leaves the
      others alone. */
  lemma {:induction false} LockAtPointwise(ss: seq<Session>, xs: seq<nat>, experiment: Option<string>, now: int, cfg: Config)
    ensures forall j :: 0 <= j < |ss| ==>
      LockAt(ss, xs, experiment, now, cfg)[j] == if j in xs then Leased(ss[j], experiment, now, cfg) else ss[j]
    decreases |xs|
  {
    if xs != [] {
      var init := xs[..|xs| - 1];
      LockAtPointwise(ss, init, experiment, now, cfg);
      assert xs == init + [xs[|xs| - 1]];
    }
  }

  /** The n-th task is for the n-th listed session. */
  lemma {:induction false} TasksForPointwise(ss: seq<Session>, xs: seq<nat>)
    requires InRange(ss, xs)
    ensures forall n :: 0 <= n < |xs| ==> TasksFor(ss, xs)[n] == ValidateTask(ss[xs[n]].id, "auto")
    decreases |xs|
  {
    if xs != [] {
      TasksForPointwise(ss, xs[..|xs| - 1]);
    }
  }

  /** One more session at the end of the list is one more unlock step and
      one more task. */
  lemma UnlockAtSnoc(ss: seq<Session>, xs: seq<nat>, x: nat, now: int, cfg: Config)
    requires InRange(ss, xs) && x < |ss|
    ensures UnlockAt(ss, xs + [x], now, cfg) == UnlockAt(ss, xs, now, cfg)[x := Unlocked(UnlockAt(ss, xs, now, cfg)[x], now, cfg)]
    ensures TasksFor(ss, xs + [x]) == TasksFor(ss, xs) + [ValidateTask(ss[x].id, "auto")]
  {
    assert (xs + [x])[..|xs|] == xs;
  }

  /** A session not in the list is not touched. */
  lemma {:induction false} UnlockAtOutside(ss: seq<Session>, xs: seq<nat>, x: nat, now: int, cfg: Config)
    requires x < |ss| && x !in xs
    ensures UnlockAt(ss, xs, now, cfg)[x] == ss[x]
    decreases |xs|
  {
    if xs != [] {
      assert xs == xs[..|xs| - 1] + [xs[|xs| - 1]];
      UnlockAtOutside(ss, xs[..|xs| - 1], x, now, cfg);
    }
  }

  /** The session `handle_unlock_session` finds: the one with the given id
      leased to `experiment`, or |ss| when there is none. A null id compares
      as `IS NULL` and matches no row, and no row has a negative id. */
  function FindOwned(ss: seq<Session>, id: Option<int>, experiment: string): (j: nat)
    ensures j <= |ss|
    ensures j < |ss| ==> id == Some(ss[j].id as int) && ss[j].experiment == Some(experiment)
    ensures j == |ss| <==> forall i :: 0 <= i < |ss| ==> !(id == Some(ss[i].id as int) && ss[i].experiment == Some(experiment))
  {
    FirstMatch(ss, (s: Session) => id == Some(s.id as int) && s.experiment == Some(experiment))
  }

  /** The due-lease sweep unlocks exactly the due leases, and afterwards no
      lease is due. */
  lemma {:induction false} DueSweep(ss: seq<Session>, now: int, cfg: Config)
    ensures var r := UnlockAt(ss, DueIndices(ss, now), now, cfg);
      |r| == |ss| &&
      (forall j :: 0 <= j < |ss| ==> r[j] == if Due(ss[j], now) then Unlocked(ss[j], now, cfg) else ss[j]) &&
      forall j :: 0 <= j < |ss| ==> !Due(r[j], now)
  {
    UnlockAtPointwise(ss, DueIndices(ss, now), now, cfg);
  }

  /** The lease invariant holds of every session. */
  predicate AllLeasesHeld(ss: seq<Session>) {
    forall j :: 0 <= j < |ss| ==> LeaseHeld(ss[j])
  }

  // ---------------------------------------------------------------------------
  // Single allocation

  /** Python truthiness of the optional `site` argument. */
  predicate Truthy(site: Option<string>) {
    site.Some? && site.value != ""
  }

  /** Websites already handed to `experiment` (api.py:178-183). */
  function UsedWebsiteIds(history: seq<ExperimentWebsite>, experiment: Option<string>): set<nat> {
    set h | h in history && h.experiment == experiment :: h.website.id
  }

  /** Records are only ever added, so a website once handed out stays
      handed out. */
  lemma UsedWebsitesGrow(history: seq<ExperimentWebsite>, extra: seq<ExperimentWebsite>, experiment: Option<string>)
    ensures UsedWebsiteIds(history, experiment) <= UsedWebsiteIds(history + extra, experiment)
    ensures forall h :: h in extra && h.experiment == experiment ==> h.website.id in UsedWebsiteIds(history + extra, experiment)
  {
  }

  /** Site names already handed to `experiment` (api.py:333-338). */
  function UsedSiteNames(history: seq<ExperimentWebsite>, experiment: Option<string>): set<string> {
    set h | h in history && h.experiment == experiment :: h.website.site
  }

  /** A usable session `handle_get_session` may hand out: of the requested
      site when one is given (and non-empty), otherwise of a website the
      experiment has not been given yet. */
  predicate Acceptable(ss: seq<Session>, history: seq<ExperimentWebsite>, experiment: Option<string>, site: Option<string>, x: nat) {
    x < |ss| &&
    if Truthy(site) then ss[x].website.site == site.value
    else ss[x].website.id !in UsedWebsiteIds(history, experiment)
  }

  function AcceptableIn(ss: seq<Session>, history: seq<ExperimentWebsite>, experiment: Option<string>, site: Option<string>): nat -> bool {
    (x: nat) => Acceptable(ss, history, experiment, site, x)
  }

  /** Position in `usable` of the session that is handed out, or |usable|. */
  function PickPos(ss: seq<Session>, usable: seq<nat>, history: seq<ExperimentWebsite>, experiment: Option<string>, site: Option<string>): (q: nat)
    ensures q <= |usable|
    ensures q < |usable| ==> Acceptable(ss, history, experiment, site, usable[q])
    ensures forall n :: 0 <= n < q ==> !Acceptable(ss, history, experiment, site, usable[n])
  {
    FirstMatch(usable, AcceptableIn(ss, history, experiment, site))
  }

  /** The login form sent with a session: one marked successful for the site
      if there is one, else any form of the site (api.py:210-215). */
  function BestForm(catalog: seq<LoginForm>, site: string): (r: Option<LoginForm>)
    ensures r.Some? ==> r.value in catalog && r.value.site == site
    ensures r.None? <==> forall f :: f in catalog ==> f.site != site
    ensures (exists f :: f in catalog && f.site == site && f.success) ==> r.Some? && r.value.success
  {
    var a := FirstMatch(catalog, (f: LoginForm) => f.site == site && f.success);
    if a < |catalog| then Some(catalog[a])
    else
      var b := FirstMatch(catalog, (f: LoginForm) => f.site == site);
      if b < |catalog| then Some(catalog[b]) else None
  }

  function SessionFilePath(name: string): string {
    SESSION_FILE_PATH + name + ".json"
  }

  /** The text of the FileNotFoundError raised by `open`. */
  function NoSuchFile(path: string): string {
    "[Errno 2] No such file or directory: '" + path + "'"
  }

  // ---------------------------------------------------------------------------
  // Batch allocation: the quorum query (api.py:252-294)

  /** Distinct accounts among the candidates of website `w`. */
  function AccountsOf(ss: seq<Session>, cands: seq<nat>, w: nat): set<nat> {
    set x | x in cands && x < |ss| && ss[x].website.id == w :: ss[x].accountId
  }

  predicate Quorum(ss: seq<Session>, cands: seq<nat>, k: int, x: nat) {
    x < |ss| && |AccountsOf(ss, cands, ss[x].website.id)| >= k
  }

  predicate SortedByWebsite(ss: seq<Session>, xs: seq<nat>) {
    InRange(ss, xs) &&
    forall i, j :: 0 <= i < j < |xs| ==> ss[xs[i]].website.id <= ss[xs[j]].website.id
  }

  function InsertByWebsite(ss: seq<Session>, x: nat, xs: seq<nat>): (r: seq<nat>)
    requires x < |ss| && SortedByWebsite(ss, xs)
    ensures SortedByWebsite(ss, r)
    ensures |r| == |xs| + 1
    ensures forall y :: y in r <==> y == x || y in xs
    ensures Distinct(xs) && x !in xs ==> Distinct(r)
  {
    if xs == [] || ss[x].website.id <= ss[xs[0]].website.id then [x] + xs
    else
      var rest := InsertByWebsite(ss, x, xs[1..]);
      assert forall y :: y in xs <==> y == xs[0] || y in xs[1..];
      ConsSorted(ss, xs, x, rest);
      [xs[0]] + rest
  }

  /** Putting the head of a sorted list in front of a sorted list built from
      its tail and one larger element keeps it sorted. */
  lemma ConsSorted(ss: seq<Session>, xs: seq<nat>, x: nat, rest: seq<nat>)
    requires x < |ss| && xs != [] && SortedByWebsite(ss, xs) && SortedByWebsite(ss, rest)
    requires ss[xs[0]].website.id < ss[x].website.id
    requires forall y :: y in rest <==> y == x || y in xs[1..]
    ensures SortedByWebsite(ss, [xs[0]] + rest)
    ensures Distinct(xs) && x !in xs && Distinct(rest) ==> Distinct([xs[0]] + rest)
  {
    forall y | y in rest ensures ss[xs[0]].website.id <= ss[y].website.id {
      if y != x {
        var m :| 0 <= m < |xs| - 1 && xs[m + 1] == y;
      }
    }
    assert forall j :: 0 <= j < |rest| ==> rest[j] in rest;
    assert Distinct(xs) ==> xs[0] !in xs[1..];
  }

  /** The rows ordered by website id (ORDER BY website_id); the order within a
      website is not specified by the query, so any one will do. */
  function SortByWebsite(ss: seq<Session>, xs: seq<nat>): (r: seq<nat>)
    requires InRange(ss, xs)
    ensures SortedByWebsite(ss, r)
    ensures forall y :: y in r <==> y in xs
    ensures Distinct(xs) ==> Distinct(r)
  {
    if xs == [] then []
    else
      assert forall y :: y in xs <==> y == xs[0] || y in xs[1..];
      InsertByWebsite(ss, xs[0], SortByWebsite(ss, xs[1..]))
  }

  /** The rows of the batch query: eligible sessions of the websites with at
      least `k` distinct eligible accounts, by website id. */
  function QueryRows(ss: seq<Session>, k: int): (r: seq<nat>)
    ensures Distinct(r) && SortedByWebsite(ss, r)
    ensures forall x: nat :: x in r <==> x < |ss| && Eligible(ss[x]) && |AccountsOf(ss, EligibleIndices(ss), ss[x].website.id)| >= k
  {
    var c := EligibleIndices(ss);
    var q := Keep(c, (x: nat) => Quorum(ss, c, k, x));
    assert forall i :: 0 <= i < |q| ==> q[i] in q;
    SortByWebsite(ss, q)
  }

  // ---------------------------------------------------------------------------
  // Batch allocation: grouping the rows by site name

  /** Sessions with one site id have one site name and the other way round
      (a website's `site` is unique). */
  predicate ConsistentWebsites(ss: seq<Session>) {
    forall i, j :: 0 <= i < |ss| && 0 <= j < |ss| ==>
      (ss[i].website.id == ss[j].website.id <==> ss[i].website.site == ss[j].website.site)
  }

  /** The site names of `rows`, each once, in order of first appearance: the
      keys of `sessions_per_site` (api.py:297-301). */
  function SiteKeys(ss: seq<Session>, rows: seq<nat>): (r: seq<string>)
    requires InRange(ss, rows)
    ensures Distinct(r)
    ensures forall s :: s in r <==> exists x :: x in rows && ss[x].website.site == s
    decreases |rows|
  {
    if rows == [] then []
    else
      var init := rows[..|rows| - 1];
      var x := rows[|rows| - 1];
      var ks := SiteKeys(ss, init);
      assert forall y :: y in rows <==> y == x || y in init by {
        assert rows == init + [x];
      }
      if ss[x].website.site in ks then ks else ks + [ss[x].website.site]
  }

  function OnSite(ss: seq<Session>, site: string): nat -> bool {
    (x: nat) => x < |ss| && ss[x].website.site == site
  }

  /** The rows of one site, in row order. */
  function OfSite(ss: seq<Session>, rows: seq<nat>, site: string): (r: seq<nat>)
    ensures forall x :: x in r <==> x in rows && x < |ss| && ss[x].website.site == site
    ensures IsSubseq(r, rows)
    ensures Distinct(rows) ==> Distinct(r)
  {
    Keep(rows, OnSite(ss, site))
  }

  function Among(usable: seq<nat>): nat -> bool {
    (x: nat) => x in usable
  }

  /** `set(group) & set(usable)` for a group of rows: the members of the
      group that survived the freshness sweep. Python leaves the order of the
      result unspecified; the group's order is one of the possible ones. */
  function Remaining(group: seq<nat>, usable: seq<nat>): (r: seq<nat>)
    ensures forall x :: x in r <==> x in group && x in usable
    ensures Distinct(group) ==> Distinct(r)
  {
    Keep(group, Among(usable))
  }

  /** With rows ordered by website id and one name per website, the last key
      of `sessions_per_site` is the site of the last row, that is, the
      qualifying website with the largest id. */
  lemma {:induction false} LastSiteKey(ss: seq<Session>, rows: seq<nat>)
    requires SortedByWebsite(ss, rows) && ConsistentWebsites(ss) && rows != []
    ensures var ks := SiteKeys(ss, rows); ks != [] && ks[|ks| - 1] == ss[rows[|rows| - 1]].website.site
    decreases |rows|
  {
    var init := rows[..|rows| - 1];
    var x := rows[|rows| - 1];
    var ks := SiteKeys(ss, init);
    if ss[x].website.site in ks {
      var y :| y in init && ss[y].website.site == ss[x].website.site;
      LastSiteKey(ss, init);
      var z := init[|init| - 1];
      var iy :| 0 <= iy < |init| && init[iy] == y;
      assert rows[iy] == y && rows[|rows| - 2] == z;
      assert ss[y].website.id == ss[x].website.id;
      assert ss[y].website.id <= ss[z].website.id <= ss[x].website.id;
    }
  }
}

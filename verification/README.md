# Session lease manager and schema export, in Dafny

This project models the core of the AccountFramework session service. Experiments ("tenants") lease logged-in browser sessions from a pool. The model covers:

- the lease API server (`AccountFramework/app/api.py`): the single and batch lease handlers, the unlock handler, the two reconciliation sweeps (freshness expiry and overdue leases) and the request dispatch loop;
- the bulk unlock maintenance script (`AccountFramework/app/unlock_all_sessions.py`);
- the JSON-Schema generator of the database export (`AccountFramework/app/db_export.py`).

Modules:

- `Base` (base.dfy): `Option`, `Result`, list filtering (`Keep`), first-match search and Python's `s[:k]`.
- `PyDict` (pydict.dfy): Python's insertion-ordered `dict`. `del` followed by assignment moves a key to the end.
- `LeaseRecords` (lease_records.dfy): the tables (sessions joined with their account and website, ExperimentWebsite records, ValidateTask records), the unlock and lease transitions of one session, and the row selections the SQL queries make.
- `SiteGroups` (site_groups.dfy): the loops of `handle_get_sessions` that group the query rows by site, trim the groups, and drop sites already used. Each loop is a method proved equal to a function.
- `LeaseRequests` (lease_requests.dfy): each handler as a function from the tables to the new tables and the reply.
- `LeaseApi` (lease_api.dfy): class `LeaseStore` holds the three tables as fields. Its methods are the handlers of `api.py`, and each is proved to compute the matching `LeaseRequests` function.
- `LeaseProperties` (lease_properties.dfy): what the handlers guarantee, stated about those functions:
  - which session is leased;
  - when "no sessions available" is sent;
  - what the batch handler returns;
  - unlock ownership;
  - record keeping across any run of requests;
  - the lease invariant.
- `BulkUnlock` (unlock_all.dfy): the transactional bulk unlock, with rollback on an exception.
- `SchemaExport` (db_export.dfy): `generate_model_schema`, `combine_schemas` and the `TYPE_MAP`/`DEFAULTS_MAP` tables.

A session is referred to by its position in the sessions table. Times are integer seconds, and hours become `hours * 3600`. The environment settings are a `Config` value. `DefaultConfig` holds the source's defaults: a 24-hour lease and a 12-hour freshness window for both verify types.

A handler's outcome is either `Sent(reply)` or `Raised(message)`. The dispatch loop turns `Raised(e)` into the reply "invalid request e". Whatever the handler changed before raising stays changed, because the handlers of `api.py` do not run in a transaction.

In three places the code does something other than what its own comments and messages suggest. The model follows the code:

- **Which site the batch handler hands out.** The comments at api.py:320-321 and 360 say a requested site is honoured and a handed-out website is remembered. But `handle_get_sessions` reuses its `site` parameter as the loop variable of its trimming loop (line 311) and of the final unpacking (line 347). Three things follow:
  - the site test at line 322 sees the last grouped site, not the requested one;
  - the batch handler hands out the group of the last website in website-id order, whatever site was requested;
  - the test `site is None` at line 361 always fails, so a batch lease is never recorded.
- **Groups with fewer than `k` sessions.** The comments at api.py:310 and 317 say that sites are removed again and that `k` sessions are kept per site. A group that falls below `k` sessions after the freshness sweep is deleted at line 315 and assigned again at line 318. So it only moves to the end of the dictionary, and the handler can hand out fewer than `k` sessions, even none.
- **Invalid verify types.** A session with an unknown verify type does not just skip its own freshness check: `expire_old_sessions` raises (api.py:124-127), and the whole request is answered with "invalid request ...".

The lease handlers also accept a null experiment, which the model represents as `None`. `Dispatch` and `LeaseStore.Serve` model this as written. `GuardedDispatch` is the corrected loop that refuses such a request, and the lease invariant is proved for it without any hypothesis (see "## Findings").

## Model

| member | source | states |
|---|---|---|
| LeaseRecords.Unlocked | AccountFramework/app/api.py:86-96 | the unlocked session keeps its row, account and website, is not eligible for a lease, holds no experiment and satisfies the lease invariant |
| LeaseRecords.Leased | AccountFramework/app/api.py:193-200 | the leased session keeps its row, verification and status, is locked and no longer eligible, holds the request's experiment, and its unlock time is now plus the lease hours; it has a holder exactly when the experiment is given |
| LeaseRecords.EligibleIndices | AccountFramework/app/api.py:147-155 | exactly the sessions that are active, unlocked and verified, each once, in table order |
| LeaseRecords.DueIndices | AccountFramework/app/api.py:102-104 | exactly the locked sessions whose unlock time is at or before now |
| LeaseRecords.HeldIndices | AccountFramework/app/unlock_all_sessions.py:14-20 | exactly the sessions whose experiment is set, each once |
| LeaseRecords.FirstInvalid | AccountFramework/app/api.py:117-127 | the first candidate whose verify type is neither "auto" nor "manual"; every earlier candidate has a freshness window |
| LeaseRecords.FreshAmong | AccountFramework/app/api.py:129-136 | the candidates not used for longer than their window, in input order, without repeats |
| LeaseRecords.StaleAmong | AccountFramework/app/api.py:129-134 | the candidates used for strictly longer than their window, in input order |
| LeaseRecords.ExpiredBy | AccountFramework/app/api.py:117-134 | the candidates unlocked by the sweep before it ends or raises are all stale candidates |
| LeaseRecords.UnlockAtPointwise | AccountFramework/app/api.py:105-110 | after unlocking a list of sessions, each listed session is unlocked once and every other session is unchanged |
| LeaseRecords.TasksForPointwise | AccountFramework/app/api.py:96 | one "auto" validation task per unlocked session, in unlock order |
| LeaseRecords.DueSweep | AccountFramework/app/api.py:99-110 | after `unlock_old_sessions` no lease is overdue; overdue sessions are unlocked and the others are untouched |
| LeaseRecords.FindOwned | AccountFramework/app/api.py:76-78 | finds a session with the given id held by the experiment, and reports none exactly when no such session exists; a null or negative id matches none |
| LeaseRecords.UsedWebsitesGrow | AccountFramework/app/api.py:178-183 | adding records never removes a website from an experiment's used websites |
| LeaseRecords.PickPos | AccountFramework/app/api.py:163-193 | the session handed out is the first usable one on the requested site (truthy site) or on an unused website (otherwise); no earlier usable session qualifies |
| LeaseRecords.BestForm | AccountFramework/app/api.py:210-215 | the login form is of the session's site; a successful form is preferred; none is found only when the site has no form |
| LeaseRecords.QueryRows | AccountFramework/app/api.py:252-294 | exactly the eligible sessions of websites with at least `k` distinct accounts among eligible sessions, ordered by website id, each once |
| LeaseRecords.SortByWebsite | AccountFramework/app/api.py:293 | the rows sorted by website id, with the same members |
| LeaseRecords.InsertByWebsite | AccountFramework/app/api.py:293 | inserting a row keeps the order by website id and adds exactly that row |
| LeaseRecords.SiteKeys | AccountFramework/app/api.py:297-301 | the site names of the rows, each once, in order of first appearance |
| LeaseRecords.OfSite | AccountFramework/app/api.py:299-300 | the rows of one site, in row order |
| LeaseRecords.Remaining | AccountFramework/app/api.py:312 | the members of a group that survived the sweep, and no others |
| LeaseRecords.LastSiteKey | AccountFramework/app/api.py:293-301 | for rows ordered by website id, the last grouped site is the site of the last row |
| SiteGroups.Grouped | AccountFramework/app/api.py:296-301 | one entry per site of the rows, in first-appearance order, holding that site's rows in order |
| SiteGroups.GroupBySite | AccountFramework/app/api.py:296-301 | the grouping loop builds the `Grouped` dictionary |
| SiteGroups.PruneGroups | AccountFramework/app/api.py:310-318 | every group becomes its first `k` survivors; groups with fewer than `k` survivors move behind the others, none is lost; the loop variable ends as the last site walked |
| SiteGroups.TrimGroups | AccountFramework/app/api.py:311-318 | the loop over a snapshot of the entries: delete-and-assign moves a key to the end, plain assignment keeps its place |
| SiteGroups.Pruned | AccountFramework/app/api.py:310-318 | same keys as the input, each holding its first `k` survivors |
| SiteGroups.DropUsedSites | AccountFramework/app/api.py:340-342 | exactly the entries of sites not yet given to the experiment remain, in order, with their groups |
| SiteGroups.Dropped | AccountFramework/app/api.py:340-342 | the remaining keys are the unused ones, with unchanged groups |
| LeaseRequests.FirstMissing | AccountFramework/app/api.py:378-396 | the first session of a group whose session file cannot be opened; all earlier files exist |
| LeaseRequests.Usable | AccountFramework/app/api.py:113-138 | what `expire_old_sessions` returns on success is a list of fresh candidates |
| LeaseRequests.UnlockAll | AccountFramework/app/api.py:86-96 | unlocking keeps the table size and the ExperimentWebsite records |
| LeaseRequests.Swept | AccountFramework/app/api.py:157-161 | the two sweeps keep the table size and the records |
| LeaseRequests.LeaseEach | AccountFramework/app/api.py:351-396 | the lock loop adds no task, records only when `site` is None, and sends one item per session when no file is missing |
| LeaseRequests.LeaseEachStep | AccountFramework/app/api.py:351-396 | one turn of the lock loop: lock, save, record when `site` is None, then send or raise on a missing file |
| LeaseRequests.LeaseEachRest | AccountFramework/app/api.py:351-396 | after the lock loop raises, no later session is touched |
| LeaseRequests.LeaseOne | AccountFramework/app/api.py:141-241 | the single handler keeps the size of the sessions table |
| LeaseRequests.LeaseFirstFit | AccountFramework/app/api.py:163-241 | leasing the picked session keeps the table size and adds no task |
| LeaseRequests.Offered | AccountFramework/app/api.py:320-342 | each offered group is the pruned group of its site |
| LeaseRequests.OfferedRows | AccountFramework/app/api.py:296-342 | every offered group holds fresh query rows of its own site |
| LeaseRequests.LeaseBatch | AccountFramework/app/api.py:244-403 | the batch handler never changes the ExperimentWebsite records |
| LeaseRequests.LeaseFirstSite | AccountFramework/app/api.py:310-403 | the second half of the batch handler adds no record and no task |
| LeaseRequests.LeaseBatchNoRows | AccountFramework/app/api.py:255-308 | with `k` null the batch handler keeps the table size and the records |
| LeaseRequests.BatchRequest | AccountFramework/app/api.py:436-439 | a batch request, whatever its `k`, keeps the table size and the records |
| LeaseRequests.GuardedDispatch | AccountFramework/app/api.py:73-74 | a lease request without an experiment is refused with "Experiment is required!" and changes nothing; any other request is dispatched as written |
| LeaseApi.LeaseStore.UnlockSession | AccountFramework/app/api.py:86-96 | only that session changes: not locked, not verified, verify type "no", no verified browsers, status "expired", unlock time now, no experiment; exactly one "auto" task is appended; records unchanged |
| LeaseApi.LeaseStore.UnlockOldSessions | AccountFramework/app/api.py:99-110 | the overdue leases are unlocked, one task each, in table order; nothing else changes |
| LeaseApi.LeaseStore.ExpireOldSessions | AccountFramework/app/api.py:113-138 | returns the fresh candidates in input order, or raises at the first invalid verify type; the stale candidates before that point are unlocked |
| LeaseApi.LeaseStore.ExpireCandidate | AccountFramework/app/api.py:117-136 | one turn of the sweep: unlock a stale candidate or keep a fresh one |
| LeaseApi.LeaseStore.HandleUnlockSession | AccountFramework/app/api.py:69-83 | the unlock handler computes `UnlockRequest` on the store |
| LeaseApi.LeaseStore.HandleGetSession | AccountFramework/app/api.py:141-241 | the single-lease handler computes `LeaseOne` on the store |
| LeaseApi.LeaseStore.HandOutFirstFit | AccountFramework/app/api.py:163-241 | the selection and lock of the single handler compute `LeaseFirstFit` |
| LeaseApi.LeaseStore.HandleGetSessions | AccountFramework/app/api.py:244-403 | the batch handler computes `LeaseBatch` on the store |
| LeaseApi.LeaseStore.HandleNoRows | AccountFramework/app/api.py:255-308 | with `k` null the batch handler computes `LeaseBatchNoRows` on the store |
| LeaseApi.LeaseStore.HandleBatchRequest | AccountFramework/app/api.py:436-439 | a batch request with its `k` absent, null or an integer computes `BatchRequest` on the store |
| LeaseApi.LeaseStore.HandOutFirstSite | AccountFramework/app/api.py:296-403 | grouping, trimming, site choice and the lock loop compute `LeaseFirstSite` |
| LeaseApi.LeaseStore.LeaseGroup | AccountFramework/app/api.py:351-396 | the lock loop computes `LeaseEach` on the store |
| LeaseApi.LeaseStore.Lock | AccountFramework/app/api.py:193-206 | the session is leased in place; a record is added only when `site` is None; no task is added |
| LeaseApi.LeaseStore.Serve | AccountFramework/app/api.py:424-445 | one turn of the main loop computes `Dispatch`, for every experiment (null included) and every `k` (absent, null or an integer): exactly one reply per request |
| LeaseApi.Choose | AccountFramework/app/api.py:163-189 | the filtered list is empty exactly when no usable session is acceptable, and otherwise starts with the one `PickPos` finds |
| LeaseApi.FirstOnSite | AccountFramework/app/api.py:165-173 | the site-pinned search keeps only the first usable session of the requested site |
| LeaseApi.Offer | AccountFramework/app/api.py:320-342 | the site choice computes `Offered` |
| LeaseApi.SweepDone | AccountFramework/app/api.py:113-138 | a sweep that completes raises nowhere, unlocks exactly the stale candidates and keeps exactly the fresh ones |
| LeaseApi.SweepRaises | AccountFramework/app/api.py:124-127 | a sweep that stops at an invalid verify type has unlocked the stale candidates before it |
| LeaseApi.CandidateStep | AccountFramework/app/api.py:129-136 | one more candidate extends the stale or the fresh list by itself |
| LeaseProperties.LeaseEachEffect | AccountFramework/app/api.py:351-396 | the lock loop leases the group up to the first missing file, records them only when `site` is None, raises with that file's error, and otherwise sends one item per session |
| LeaseProperties.SweptRows | AccountFramework/app/api.py:99-138 | the sweeps lock nothing, keep every row's identity and leave the fresh candidates untouched |
| LeaseProperties.PickUnswept | AccountFramework/app/api.py:157-189 | the sweeps do not change which usable session is picked |
| LeaseProperties.LeaseOneRaises | AccountFramework/app/api.py:113-161 | with an invalid verify type the single handler raises its message, keeps the unlocks made before, locks nothing and records nothing |
| LeaseProperties.LeaseOneSwept | AccountFramework/app/api.py:146-161 | without an invalid verify type the single handler picks from the fresh eligible sessions of the swept tables |
| LeaseProperties.SweptPick | AccountFramework/app/api.py:157-193 | on the swept tables the same session is picked, unchanged, and the sweeps lock nothing |
| LeaseProperties.LeaseFirstFitPick | AccountFramework/app/api.py:191-241 | no acceptable session gives "no sessions available" and no change; otherwise exactly the picked session is leased and recorded when `site` is None, and its file is sent or its absence raised |
| LeaseProperties.LeaseOneNone | AccountFramework/app/api.py:238-241 | "no sessions available" exactly when no verify type is invalid and no fresh eligible session is acceptable; then nothing is locked or recorded |
| LeaseProperties.LeaseOneChoice | AccountFramework/app/api.py:146-193 | the leased session is eligible, fresh and acceptable, and every earlier fresh session is not acceptable |
| LeaseProperties.LeaseOneGrants | AccountFramework/app/api.py:141-236 | on success exactly one session becomes locked, to the experiment; one record is added exactly when `site` is None |
| LeaseProperties.LeaseFirstSiteEmpty | AccountFramework/app/api.py:400-403 | no query rows gives "no sessions available" and no change |
| LeaseProperties.OfferedLast | AccountFramework/app/api.py:310-347 | because the loops rebind `site`, exactly the last website's group is offered |
| LeaseProperties.LastGroupRows | AccountFramework/app/api.py:311-318 | the handed-out group has at most `k` sessions, without repeats, all fresh query rows of that website |
| LeaseProperties.LeaseFirstSiteLast | AccountFramework/app/api.py:310-398 | the batch handler runs the lock loop on the last website's group, with that site in place of `site` |
| LeaseProperties.LeaseBatchNone | AccountFramework/app/api.py:244-403 | "no sessions available" exactly when no website passes the distinct-account quorum |
| LeaseProperties.LeaseBatchSite | AccountFramework/app/api.py:244-398 | otherwise the last website's group is leased up to the first missing file, every leased session is held by the experiment, and no record is added |
| LeaseProperties.LeaseBatchSwept | AccountFramework/app/api.py:252-308 | the query rows are eligible, and the batch handler works on the swept tables and the fresh rows |
| LeaseProperties.NoRowsLikeNoQuorum | AccountFramework/app/api.py:255-265 | with `k` null the batch handler answers exactly as for a `k` that no website reaches |
| LeaseProperties.NoRowsSweepsDue | AccountFramework/app/api.py:303-308 | with `k` null only the overdue leases end, one task each, and the reply is "no sessions available" |
| LeaseProperties.SweptFresh | AccountFramework/app/api.py:303-308 | the sweeps leave the fresh rows of the group as queried |
| LeaseProperties.FirstMissingSame | AccountFramework/app/api.py:383 | the first missing file depends only on the group's own sessions |
| LeaseProperties.UnlockRequestOutcome | AccountFramework/app/api.py:69-83 | no experiment gives "Experiment is required!"; success exactly when a session with that id is held by the experiment, which is then unlocked with one task; otherwise the not-owned error and no change, which is always the answer to a null or negative id |
| LeaseProperties.UnlockTwice | AccountFramework/app/api.py:69-96 | a second identical unlock after a success gives the not-owned error, because the experiment was cleared |
| LeaseProperties.DispatchRecords | AccountFramework/app/api.py:424-445 | a request adds at most one record, for a website its experiment did not have, and removes none |
| LeaseProperties.LeaseOneRecords | AccountFramework/app/api.py:202-206 | the single handler records at most one website, one its experiment did not have |
| LeaseProperties.DispatchKeepsRecords | AccountFramework/app/api.py:424-445 | each request keeps earlier records and never records a website twice for one experiment |
| LeaseProperties.RunKeepsRecords | AccountFramework/app/api.py:420-445 | across any run of requests, records are never removed and no experiment gets one website recorded twice |
| LeaseProperties.NoSecondLease | AccountFramework/app/api.py:178-206 | once a website is recorded for an experiment, after any run a single lease of that experiment without a site picks no session of that website |
| LeaseProperties.RecordNew | AccountFramework/app/api.py:202-206 | recording a website the experiment did not have adds no repeat |
| LeaseProperties.UnlockKeepsLeases | AccountFramework/app/api.py:86-96 | unlocking keeps the invariant that a locked session has a holder and an unlock time |
| LeaseProperties.SweptKeepsLeases | AccountFramework/app/api.py:157-161 | both sweeps keep the lease invariant |
| LeaseProperties.LeaseEachKeepsLeases | AccountFramework/app/api.py:351-358 | for a given experiment, the lock loop sets lock, holder and unlock time together |
| LeaseProperties.LeaseOneKeepsLeases | AccountFramework/app/api.py:141-241 | for a given experiment, the single handler keeps the lease invariant |
| LeaseProperties.FirstSiteKeepsLeases | AccountFramework/app/api.py:310-403 | for a given experiment, the second half of the batch handler keeps the lease invariant |
| LeaseProperties.LeaseBatchKeepsLeases | AccountFramework/app/api.py:244-403 | for a given experiment, the batch handler keeps the lease invariant |
| LeaseProperties.BatchRequestKeepsLeases | AccountFramework/app/api.py:436-439 | for a given experiment, a batch request keeps the lease invariant whatever its `k` |
| LeaseProperties.DispatchKeepsLeases | AccountFramework/app/api.py:424-445 | every request whose lease handler gets an experiment keeps the lease invariant, whatever its reply |
| LeaseProperties.RunKeepsLeases | AccountFramework/app/api.py:420-445 | the lease invariant holds after every request of any run whose lease requests give an experiment |
| LeaseProperties.NullLeaseUnheld | AccountFramework/app/api.py:141-206 | a lease request with a null experiment that finds a session leaves that session locked with no holder |
| LeaseProperties.NullLeaseExample | AccountFramework/app/api.py:429-430 | on a store of one eligible, fresh session with a valid verify type, where the invariant holds, `get_session` with a null experiment breaks it |
| LeaseProperties.GuardedKeepsLeases | AccountFramework/app/api.py:69-74 | with the experiment check of the unlock handler made for every request, every request keeps the lease invariant |
| BulkUnlock.UnlockAllSessions | AccountFramework/app/unlock_all_sessions.py:9-28 | returns 0 always; without an exception every held session is unlocked with one task each, in table order; with one, sessions and tasks are rolled back; records unchanged |
| BulkUnlock.UnlockPrefix | AccountFramework/app/unlock_all_sessions.py:22-23 | the loop unlocks the selected sessions up to where it stops |
| BulkUnlock.UnlockAllSessionsClears | AccountFramework/app/unlock_all_sessions.py:13-23 | afterwards no session has an experiment; held sessions get exactly the unlock transition, the others are untouched |
| BulkUnlock.UnlockAllSessionsTasks | AccountFramework/app/unlock_all_sessions.py:14-23 | exactly one "auto" task per held session, and every held session is selected |
| SchemaExport.OneLine | AccountFramework/app/db_export.py:43 | every newline is replaced by a space, and nothing else changes |
| SchemaExport.PropertyOf | AccountFramework/app/db_export.py:49-66 | a column's property can be built exactly when its field class is a foreign key or in TYPE_MAP, it has help text, and its default, if any, is hashable; otherwise KeyError for the type, else AttributeError for the help text, else TypeError for the default |
| SchemaExport.ByName | AccountFramework/app/db_export.py:50-59 | a field class is typed by its class name alone: a class given by the name of a listed class maps as that class, and each listed class other than the two foreign keys has a TYPE_MAP entry |
| SchemaExport.PropertyTyped | AccountFramework/app/db_export.py:50-66 | a built property of a foreign key gets ["string","null","number"], of another column its TYPE_MAP type; a default appears exactly when the column has one, with `datetime.now` as "NOW()" and others copied |
| SchemaExport.BuildStep | AccountFramework/app/db_export.py:49-69 | one turn of the property loop: assign the property, append to `required` when the column is not nullable, or raise |
| SchemaExport.BuildOk | AccountFramework/app/db_export.py:49-69 | the loop succeeds exactly when every column's property can be built |
| SchemaExport.BuildShape | AccountFramework/app/db_export.py:49-69 | on success the property keys are the columns in order, each with its own property, and `required` is the non-nullable ones in order |
| SchemaExport.BuildErr | AccountFramework/app/db_export.py:49-61 | on failure the error is that of the first column that cannot be built |
| SchemaExport.BuildStops | AccountFramework/app/db_export.py:49-69 | once the loop raised, later columns change nothing |
| SchemaExport.IncludedColumns | AccountFramework/app/db_export.py:36-38 | the described columns are table columns, each once |
| SchemaExport.SelectColumns | AccountFramework/app/db_export.py:28-38 | `cols` is the table's columns other than "id" that are named in `columns` (all when None), in table order, with their fields |
| SchemaExport.GenerateModelSchema | AccountFramework/app/db_export.py:26-71 | the method computes `Described`, the schema or the first exception |
| SchemaExport.SchemaColumns | AccountFramework/app/db_export.py:28-49 | the property keys are exactly the selected columns minus "id", in table order; unknown names are ignored |
| SchemaExport.SchemaRequired | AccountFramework/app/db_export.py:68-69 | `required` is exactly the non-nullable properties, in order, a subsequence of the property keys |
| SchemaExport.SchemaTypes | AccountFramework/app/db_export.py:50-66 | every property has its column's type and default, as `PropertyTyped` states |
| SchemaExport.SchemaText | AccountFramework/app/db_export.py:40-60 | the title is "<table_name> (<class_name>)", the dialect is draft-07, the type is object, and no description contains a newline |
| SchemaExport.SchemaErrors | AccountFramework/app/db_export.py:43-66 | the schema is built exactly when the table has a docstring and every selected column can be built (mapped type, help text, hashable default); a missing docstring fails first; otherwise the first failing column's error |
| SchemaExport.CombineSchemas | AccountFramework/app/db_export.py:74-99 | the property keys are the input keys in input order; each property is an array of its schema; `required` is all input keys in order |

## Left out

- Transport: the ZeroMQ socket, JSON decoding of requests and encoding of replies, and the `print`/`Tee` logging (api.py:16-66, 406-422) are left out. A request is a `Request` value, a reply a `Reply` value. A request that fails to decode, or lacks a field, is `Request.Invalid` carrying the exception text.
- Time and environment: `datetime.now()` is the `now` parameter, and the `os.getenv` lookups are the `Config` parameter. One `now` serves a whole request.
- BulkUnlock.UnlockAllSessions: one `now` serves the whole script, while each `unlock_session` reads the clock again (api.py:93), so the unlock times of one run are taken to be equal.
- Request fields of other JSON types: an experiment that is neither a string nor null, a site that is neither a string nor null, a `k` that is neither an integer nor null, and a `session_id` that is neither an integer nor null are not representable. What the source does with them depends on Python's truthiness and on how the database compares mixed types: for a `session_id` given as a string (api.py:69 declares it `str`), depending on the database, a numeric string such as "5" may be converted to the id 5, and a string such as "S1" may match no row (the not-owned error) or be rejected (an exception, answered as an invalid request). `db.py` and the database are not part of this model.
- Records with a null experiment: `db.py` is not part of this model. A lease with a null experiment is taken to store its ExperimentWebsite record with a null experiment, and the history filter with a null experiment (api.py:178-183, 335-337) is taken to match exactly those records, as Peewee's `== None` does.
- Files and login forms: the session files under `./auth/` are a map from path to text, and `open` of a missing path raises. The `aa_LoginForm` table is a list of forms. `model_to_dict` and the JSON parsing of a session file are left out: an item carries the session, the file text and the form.
- SQL: the Peewee queries are filters over the sessions table in table order. SQL fixes no row order, and table order is one possible order. The quorum query sorts by website id.
- LeaseRecords.Remaining: keeps the group's order for `set(site_sessions) & set(sessions)` (api.py:312), whose order Python leaves unspecified. The contracts about it state membership and size only.
- Accounts: every session has an account, so the `[WARN] account ... is None` branches (api.py:207-208, 367-368) are left out. The join with SessionStatus in unlock_all_sessions.py is taken to match every session.
- Exceptions: the model covers these exceptions:
  - the unknown verify type in `expire_old_sessions`;
  - a missing session file;
  - a missing field or malformed request;
  - for the bulk unlock, a failure at one position (the `fault` parameter).

  Database failures inside `api.py` handlers (a failed `save()`) are left out.
- LeaseProperties.LeaseBatchSite: requires each site name to belong to one website id (`ConsistentWebsites`) and the site name of the last query row to be non-empty, because an empty name is falsy and would send the handler down the history filter instead. LeaseProperties.OfferedLast and LeaseProperties.LeaseFirstSiteLast carry the same requirement.
- LeaseProperties.LeaseBatchNone: requires `ConsistentWebsites` and every site name to be non-empty.
- LeaseProperties.DispatchKeepsLeases: requires the request to name an experiment (`Named`), because a lease with a null experiment breaks the invariant (LeaseProperties.NullLeaseExample and "## Findings"). LeaseProperties.GuardedKeepsLeases states the invariant for every request.
- LeaseProperties.RunKeepsLeases: requires every request of the run to name an experiment, for the same reason.
- LeaseProperties.LeaseOneKeepsLeases: requires the experiment to be a string, for the same reason. LeaseProperties.LeaseEachKeepsLeases, LeaseProperties.FirstSiteKeepsLeases, LeaseProperties.LeaseBatchKeepsLeases and LeaseProperties.BatchRequestKeepsLeases carry the same requirement.
- LeaseProperties.UnlockTwice: requires session ids to be unique, as the primary key guarantees.
- `db_export.py`: the following are not part of this model:
  - the `EXPORT_TYPES` registry and the export classes (102-153);
  - `jsonschema` validation (208);
  - directory creation (137);
  - the command line and file writes (213-256).
- Concurrency: the server handles one request at a time, and the model is sequential.
- `prepare.py` is not part of this model.

## Findings

| source | as written | input that shows it | evidently intended | confidence | as-written member | corrected member |
|---|---|---|---|---|---|---|
| AccountFramework/app/api.py:141-206 | the lease handlers never check the request's experiment, so a JSON null locks a session with no holder; the unlock handler can never release it, because it refuses a non-string experiment (line 73), and only the overdue sweep does | `{"type": "get_session", "experiment": null}` on a store of one eligible, fresh session whose verify type has a time limit | a lease request without an experiment string is refused with "Experiment is required!", as the docstrings at lines 142 and 245 and the unlock handler's check at lines 73-74 suggest | not executed | LeaseProperties.NullLeaseExample | LeaseRequests.GuardedDispatch |

/** The dictionary `sessions_per_site` of the batch handler
    (AccountFramework/app/api.py:297-342): grouping the query rows by site
    name, trimming every group to its surviving sessions, and dropping the
    sites already handed to the experiment. */
module SiteGroups {
  import opened Base
  import opened PyDict
  import opened LeaseRecords

  /** The rows grouped by site name: the sites in order of first
      appearance, each with its rows in row order. */
  function Grouped(ss: seq<Session>, rows: seq<nat>): (d: Dict<string, seq<nat>>)
    requires InRange(ss, rows)
    ensures WellFormed(d) && d.keys == SiteKeys(ss, rows)
    ensures forall key :: HasKey(d, key) <==> exists x :: x in rows && ss[x].website.site == key
    ensures forall key :: HasKey(d, key) ==> Get(d, key) == OfSite(ss, rows, key)
  {
    var keys := SiteKeys(ss, rows);
    Dict(keys, map key | key in keys :: OfSite(ss, rows, key))
  }

  /** The loop that groups the query rows by site name (api.py:299-301),
      appending to a `defaultdict(list)`. */
  method GroupBySite(ss: seq<Session>, rows: seq<nat>) returns (d: Dict<string, seq<nat>>)
    requires InRange(ss, rows)
    ensures d == Grouped(ss, rows)
  {
    d := Dict([], map[]);
    var n := 0;
    while n < |rows|
      invariant n <= |rows|
      invariant GroupedUpTo(ss, rows, n, d)
    {
      GroupStep(ss, rows, n, d);
      d := Append(d, ss[rows[n]].website.site, rows[n]);
      n := n + 1;
    }
    assert rows[..n] == rows;
    Same(d, Grouped(ss, rows));
  }

  /** `d` groups the first `n` rows. */
  ghost predicate GroupedUpTo(ss: seq<Session>, rows: seq<nat>, n: nat, d: Dict<string, seq<nat>>)
    requires InRange(ss, rows) && n <= |rows|
  {
    WellFormed(d) && d.keys == SiteKeys(ss, rows[..n]) &&
    forall key :: HasKey(d, key) ==> Get(d, key) == OfSite(ss, rows[..n], key)
  }

  lemma GroupStep(ss: seq<Session>, rows: seq<nat>, n: nat, d: Dict<string, seq<nat>>)
    requires InRange(ss, rows) && n < |rows| && GroupedUpTo(ss, rows, n, d)
    ensures GroupedUpTo(ss, rows, n + 1, Append(d, ss[rows[n]].website.site, rows[n]))
  {
    var x := rows[n];
    var key := ss[x].website.site;
    var e := Append(d, key, x);
    assert rows[..n + 1][..n] == rows[..n];
    assert HasKey(d, key) <==> key in SiteKeys(ss, rows[..n]);
    assert e.keys == SiteKeys(ss, rows[..n + 1]);
    GroupValues(ss, rows, n, d);
  }

  /** Appending the next row to its site's group keeps every group equal
      to the rows of its site. */
  lemma GroupValues(ss: seq<Session>, rows: seq<nat>, n: nat, d: Dict<string, seq<nat>>)
    requires InRange(ss, rows) && n < |rows| && GroupedUpTo(ss, rows, n, d)
    ensures var e := Append(d, ss[rows[n]].website.site, rows[n]);
      forall key :: HasKey(e, key) ==> Get(e, key) == OfSite(ss, rows[..n + 1], key)
  {
    var x := rows[n];
    var key := ss[x].website.site;
    assert rows[..n + 1] == rows[..n] + [x];
    forall key' ensures OfSite(ss, rows[..n + 1], key') == OfSite(ss, rows[..n], key') + (if key' == key then [x] else []) {
      KeepSnoc(rows[..n], x, OnSite(ss, key'));
    }
    assert HasKey(d, key) || OfSite(ss, rows[..n], key) == [] by {
      var g := OfSite(ss, rows[..n], key);
      if g != [] {
        assert g[0] in g;
      }
    }
  }


  /** A group is kept in place when at least `k` of its sessions survived. */
  function Enough(d: Dict<string, seq<nat>>, usable: seq<nat>, k: int): string -> bool {
    (key: string) => HasKey(d, key) && |Remaining(Get(d, key), usable)| >= k
  }

  /** A group with fewer survivors is deleted and assigned again. */
  function Short(d: Dict<string, seq<nat>>, usable: seq<nat>, k: int): string -> bool {
    (key: string) => HasKey(d, key) && |Remaining(Get(d, key), usable)| < k
  }

  /** What a group becomes: its survivors, at most `k` of them. */
  function Trim(usable: seq<nat>, k: int): seq<nat> -> seq<nat> {
    (group: seq<nat>) => PySlice(Remaining(group, usable), k)
  }

  /** The loop that trims every group to its sessions that survived the
      freshness sweep, at most `k` of them (api.py:311-318). It walks a
      snapshot of the entries. A group with fewer than `k` survivors is
      deleted and at once assigned again, so no key is dropped; it only
      moves to the end, and the groups with enough survivors come first.
      The loop variable is the handler's own `site` parameter, so
      `lastSite` is the last key walked, or the parameter when there was
      none. */
  method PruneGroups(d: Dict<string, seq<nat>>, usable: seq<nat>, k: int, site: Option<string>)
    returns (pruned: Dict<string, seq<nat>>, lastSite: Option<string>)
    requires WellFormed(d)
    ensures pruned == Pruned(d, usable, k)
    ensures WellFormed(pruned)
    ensures pruned.keys == Keep(d.keys, Enough(d, usable, k)) + Keep(d.keys, Short(d, usable, k))
    ensures forall key :: HasKey(pruned, key) <==> HasKey(d, key)
    ensures forall key :: HasKey(d, key) ==> Get(pruned, key) == PySlice(Remaining(Get(d, key), usable), k)
    ensures lastSite == if d.keys == [] then site else Some(d.keys[|d.keys| - 1])
  {
    DecidedBySize(d, usable, k);
    pruned, lastSite := TrimGroups(d, usable, k, site, Enough(d, usable, k), Short(d, usable, k), Trim(usable, k));
    Same(pruned, Pruned(d, usable, k));
  }

  /** The dictionary the trimming loop leaves: the groups with at least `k`
      survivors first, then the others, each trimmed to at most `k` of its
      survivors. */
  function Pruned(d: Dict<string, seq<nat>>, usable: seq<nat>, k: int): (r: Dict<string, seq<nat>>)
    ensures forall key :: key in r.keys ==> key in d.keys
    ensures forall key :: HasKey(r, key) <==> HasKey(d, key)
    ensures forall key :: HasKey(r, key) ==> Get(r, key) == PySlice(Remaining(Get(d, key), usable), k)
  {
    Dict(Keep(d.keys, Enough(d, usable, k)) + Keep(d.keys, Short(d, usable, k)),
         map key | key in d.values :: PySlice(Remaining(d.values[key], usable), k))
  }

  /** Every group is short exactly when fewer than `k` of its sessions
      survived, and is trimmed to its first `k` survivors. */
  lemma DecidedBySize(d: Dict<string, seq<nat>>, usable: seq<nat>, k: int)
    ensures forall key :: HasKey(d, key) ==> Decides(d, usable, k, Enough(d, usable, k), Short(d, usable, k), Trim(usable, k), key)
  {
    forall key | HasKey(d, key)
      ensures Decides(d, usable, k, Enough(d, usable, k), Short(d, usable, k), Trim(usable, k), key)
    {
      var remaining := Remaining(Get(d, key), usable);
      assert Short(d, usable, k)(key) == (|remaining| < k);
      assert Enough(d, usable, k)(key) == (|remaining| >= k);
      assert Trim(usable, k)(Get(d, key)) == PySlice(remaining, k);
    }
  }

  /** What the trimming loop needs to know of one group: whether it is
      short, and what it is trimmed to. */
  ghost predicate Decides(d: Dict<string, seq<nat>>, usable: seq<nat>, k: int,
                          en: string -> bool, sh: string -> bool, trim: seq<nat> -> seq<nat>, key: string)
    requires HasKey(d, key)
  {
    var remaining := Remaining(Get(d, key), usable);
    (sh(key) <==> |remaining| < k) && en(key) != sh(key) && trim(Get(d, key)) == PySlice(remaining, k)
  }

  /** The trimming loop itself, stated against the tests `en` and `sh`
      and the trimming `trim` that `PruneGroups` passes in. */
  method TrimGroups(d: Dict<string, seq<nat>>, usable: seq<nat>, k: int, site: Option<string>,
                    ghost en: string -> bool, ghost sh: string -> bool, ghost trim: seq<nat> -> seq<nat>)
    returns (pruned: Dict<string, seq<nat>>, lastSite: Option<string>)
    requires WellFormed(d)
    requires forall key :: HasKey(d, key) ==> Decides(d, usable, k, en, sh, trim, key)
    ensures WellFormed(pruned) && forall key :: HasKey(pruned, key) <==> HasKey(d, key)
    ensures pruned.keys == Keep(d.keys, en) + Keep(d.keys, sh)
    ensures forall key :: HasKey(d, key) ==> Get(pruned, key) == trim(Get(d, key))
    ensures lastSite == if d.keys == [] then site else Some(d.keys[|d.keys| - 1])
  {
    var items := d.keys;
    pruned := d;
    lastSite := site;
    PruneStart(d, en, sh, trim);
    var n := 0;
    while n < |items|
      invariant PruneOrder(d, pruned, en, sh, n) && PruneValues(d, pruned, trim, n)
      invariant lastSite == if n == 0 then site else Some(items[n - 1])
    {
      var key := items[n];
      assert key in d.keys;
      var remaining := Remaining(Get(d, key), usable);
      assert Decides(d, usable, k, en, sh, trim, key);
      PruneKeysStep(d, pruned, en, sh, trim(Get(d, key)), n);
      PruneValuesStep(d, pruned, trim, sh(key), n);
      if |remaining| < k {
        pruned := Delete(pruned, key);
      }
      pruned := Assign(pruned, key, PySlice(remaining, k));
      lastSite := Some(key);
      n := n + 1;
    }
    PrunedAll(d, pruned, trim, en, sh);
  }

  lemma PruneStart(d: Dict<string, seq<nat>>, en: string -> bool, sh: string -> bool, trim: seq<nat> -> seq<nat>)
    requires WellFormed(d)
    ensures PruneOrder(d, d, en, sh, 0) && PruneValues(d, d, trim, 0)
  {
    assert d.keys[..0] == [] && d.keys[0..] == d.keys;
    AppendEmpty(d.keys, []);
  }

  /** After `n` turns of the trimming loop: the first `n` keys of `d` that
      pass `en` stay in front of the keys not yet walked, those that pass
      `sh` were moved to the end, and no key is lost or added. */
  ghost predicate PruneOrder(d: Dict<string, seq<nat>>, pruned: Dict<string, seq<nat>>,
                             en: string -> bool, sh: string -> bool, n: nat) {
    WellFormed(d) && WellFormed(pruned) && n <= |d.keys| &&
    pruned.keys == Keep(d.keys[..n], en) + d.keys[n..] + Keep(d.keys[..n], sh) &&
    forall key :: HasKey(pruned, key) <==> HasKey(d, key)
  }

  /** After `n` turns of the trimming loop the first `n` groups are
      trimmed and the others are as they were. */
  ghost predicate PruneValues(d: Dict<string, seq<nat>>, pruned: Dict<string, seq<nat>>, trim: seq<nat> -> seq<nat>, n: nat) {
    n <= |d.keys| &&
    forall key :: HasKey(d, key) ==>
      HasKey(pruned, key) && Get(pruned, key) == if key in d.keys[..n] then trim(Get(d, key)) else Get(d, key)
  }

  lemma PrunedAll(d: Dict<string, seq<nat>>, pruned: Dict<string, seq<nat>>, trim: seq<nat> -> seq<nat>,
                  en: string -> bool, sh: string -> bool)
    requires PruneOrder(d, pruned, en, sh, |d.keys|) && PruneValues(d, pruned, trim, |d.keys|)
    ensures WellFormed(pruned) && forall key :: HasKey(pruned, key) <==> HasKey(d, key)
    ensures pruned.keys == Keep(d.keys, en) + Keep(d.keys, sh)
    ensures forall key :: HasKey(d, key) ==> Get(pruned, key) == trim(Get(d, key))
  {
    assert d.keys[..|d.keys|] == d.keys;
    assert d.keys[|d.keys|..] == [];
    AppendEmpty(Keep(d.keys, en), Keep(d.keys, sh));
  }

  /** The groups after one turn of the trimming loop, whether or not the
      key was deleted before the assignment. */
  lemma PruneValuesStep(d: Dict<string, seq<nat>>, pruned: Dict<string, seq<nat>>, trim: seq<nat> -> seq<nat>,
                        move: bool, n: nat)
    requires WellFormed(d) && PruneValues(d, pruned, trim, n) && n < |d.keys|
    ensures HasKey(d, d.keys[n])
    ensures var key := d.keys[n];
      PruneValues(d, Assign(if move then Delete(pruned, key) else pruned, key, trim(Get(d, key))), trim, n + 1)
  {
    var key := d.keys[n];
    assert key in d.keys;
    PrefixMembers(d.keys, n);
    NotInPrefix(d.keys, n);
  }

  /** The members of a prefix one element longer. */
  lemma PrefixMembers(ks: seq<string>, n: nat)
    requires n < |ks|
    ensures forall x :: x in ks[..n + 1] <==> x in ks[..n] || x == ks[n]
  {
    assert ks[..n + 1] == ks[..n] + [ks[n]];
  }

  lemma AppendEmpty(a: seq<string>, b: seq<string>)
    ensures a + [] + b == a + b
  {
  }

  /** The key order after one turn of the trimming loop: a key passing
      `sh` is deleted and assigned again, so it moves to the end. */
  lemma PruneKeysStep(d: Dict<string, seq<nat>>, pruned: Dict<string, seq<nat>>,
                      en: string -> bool, sh: string -> bool, v: seq<nat>, n: nat)
    requires PruneOrder(d, pruned, en, sh, n) && n < |d.keys| && en(d.keys[n]) != sh(d.keys[n])
    ensures var key := d.keys[n];
      PruneOrder(d, Assign(if sh(key) then Delete(pruned, key) else pruned, key, v), en, sh, n + 1)
  {
    var key := d.keys[n];
    assert key in d.keys;
    var a, b, c := Keep(d.keys[..n], en), d.keys[n + 1..], Keep(d.keys[..n], sh);
    if sh(key) {
      MoveStep(d.keys, n, en, sh);
      Regroup(a, d.keys[n..], c);
      DeleteMiddle(pruned, a, key, b + c);
    } else {
      StayStep(d.keys, n, en, sh);
    }
  }

  /** The order of the trimming walk one key further, when the key stays
      in place ... */
  lemma StayStep(ks: seq<string>, n: nat, en: string -> bool, sh: string -> bool)
    requires n < |ks| && en(ks[n]) && !sh(ks[n])
    ensures Keep(ks[..n + 1], en) + ks[n + 1..] + Keep(ks[..n + 1], sh) == Keep(ks[..n], en) + ks[n..] + Keep(ks[..n], sh)
  {
    PrefixSnoc(ks, n, en);
    PrefixSnoc(ks, n, sh);
    var a := Keep(ks[..n], en);
    assert ks[n..] == [ks[n]] + ks[n + 1..];
    assert (a + [ks[n]]) + ks[n + 1..] == a + ks[n..];
  }

  /** ... and when it moves to the end. */
  lemma MoveStep(ks: seq<string>, n: nat, en: string -> bool, sh: string -> bool)
    requires n < |ks| && !en(ks[n]) && sh(ks[n])
    ensures Keep(ks[..n + 1], en) + ks[n + 1..] + Keep(ks[..n + 1], sh) == Keep(ks[..n], en) + (ks[n + 1..] + Keep(ks[..n], sh)) + [ks[n]]
  {
    PrefixSnoc(ks, n, en);
    PrefixSnoc(ks, n, sh);
  }

  lemma PrefixSnoc(ks: seq<string>, n: nat, p: string -> bool)
    requires n < |ks|
    ensures Keep(ks[..n + 1], p) == Keep(ks[..n], p) + if p(ks[n]) then [ks[n]] else []
  {
    assert ks[..n + 1] == ks[..n] + [ks[n]];
    KeepSnoc(ks[..n], ks[n], p);
  }

  /** Taking the head out of the middle part of a concatenation. */
  lemma Regroup(a: seq<string>, s: seq<string>, c: seq<string>)
    requires s != []
    ensures a + s + c == a + [s[0]] + (s[1..] + c)
  {
    assert s == [s[0]] + s[1..];
  }

  /** Every key that is not in `used`. */
  function NotIn(used: set<string>): string -> bool {
    (key: string) => key !in used
  }

  /** The loop that drops the groups of sites the experiment was already
      given (api.py:340-342), walking a snapshot of the entries. */
  method DropUsedSites(d: Dict<string, seq<nat>>, used: set<string>) returns (r: Dict<string, seq<nat>>)
    requires WellFormed(d)
    ensures r == Dropped(d, used)
    ensures WellFormed(r) && r.keys == Keep(d.keys, NotIn(used))
    ensures forall key :: HasKey(r, key) <==> HasKey(d, key) && key !in used
    ensures forall key :: HasKey(r, key) ==> Get(r, key) == Get(d, key)
  {
    var items := d.keys;
    r := d;
    var n := 0;
    while n < |items|
      invariant DropInv(d, r, used, n)
    {
      DropStep(d, r, used, n);
      if items[n] in used {
        r := Delete(r, items[n]);
      }
      n := n + 1;
    }
    assert d.keys[..n] == d.keys;
    Same(r, Dropped(d, used));
  }

  /** The dictionary without the sites in `used`. */
  function Dropped(d: Dict<string, seq<nat>>, used: set<string>): (r: Dict<string, seq<nat>>)
    ensures forall key :: key in r.keys ==> key in d.keys && key !in used
    ensures forall key :: HasKey(r, key) <==> HasKey(d, key) && key !in used
    ensures forall key :: HasKey(r, key) ==> Get(r, key) == Get(d, key)
  {
    Dict(Keep(d.keys, NotIn(used)), map key | key in d.values && key !in used :: d.values[key])
  }

  /** The used keys among the first `n` are gone, the rest untouched. */
  ghost predicate DropInv(d: Dict<string, seq<nat>>, r: Dict<string, seq<nat>>, used: set<string>, n: nat) {
    WellFormed(d) && WellFormed(r) && n <= |d.keys| &&
    r.keys == Keep(d.keys[..n], NotIn(used)) + d.keys[n..] &&
    forall key :: HasKey(r, key) ==> HasKey(d, key) && Get(r, key) == Get(d, key)
  }

  lemma DropStep(d: Dict<string, seq<nat>>, r: Dict<string, seq<nat>>, used: set<string>, n: nat)
    requires DropInv(d, r, used, n) && n < |d.keys|
    ensures DropInv(d, if d.keys[n] in used then Delete(r, d.keys[n]) else r, used, n + 1)
  {
    var key := d.keys[n];
    SkipStep(d.keys, n, NotIn(used));
    if key in used {
      DeleteMiddle(r, Keep(d.keys[..n], NotIn(used)), key, d.keys[n + 1..]);
    }
  }

  /** The order of the dropping walk one key further. */
  lemma SkipStep(ks: seq<string>, n: nat, p: string -> bool)
    requires n < |ks|
    ensures Keep(ks[..n], p) + ks[n..] == Keep(ks[..n], p) + [ks[n]] + ks[n + 1..]
    ensures Keep(ks[..n + 1], p) + ks[n + 1..] == if p(ks[n]) then Keep(ks[..n], p) + ks[n..] else Keep(ks[..n], p) + ks[n + 1..]
  {
    PrefixSnoc(ks, n, p);
    assert ks[n..] == [ks[n]] + ks[n + 1..];
  }
}

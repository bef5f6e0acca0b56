/** What saving and pruning do to the directory, told by its files, their times and
    the marker files alone. */
module RecoveryOutcome {
  import opened Wrappers
  import opened RecoveryTypes
  import opened RecoveryScan
  import opened RecoveryPolicy
  import opened RecoveryPlan
  import opened RecoveryTheorems

  /** The owner is another session whose marker is gone, or is held by nobody. */
  predicate Ended(markers: Markers, self: nat, owner: SessionId) {
    owner.Uuid? && owner.value != self && (owner.value in markers ==> markers[owner.value] == Released)
  }

  /** The directory has a readable record `i` of a session that has ended. */
  predicate Orphan(dir: Items, markers: Markers, self: nat, i: nat) {
    Readable(dir, Item(i)) && Ended(markers, self, dir[Item(i)].body.record.session)
  }

  predicate TooOld(policy: Retention, nowMs: nat, r: Record) {
    policy.maxAgeDays.Some? && r.updatedMs + policy.maxAgeDays.value * 86_400_000 < nowMs
  }

  /** The record `i` is gone although it was not too old. */
  predicate Evicted(before: Items, after: Items, policy: Retention, nowMs: nat, i: nat) {
    Readable(before, Item(i)) && Item(i) !in after && !TooOld(policy, nowMs, before[Item(i)].body.record)
  }

  /** Record `i` was updated before record `j`, identities deciding a tie. */
  predicate Sooner(dir: Items, i: nat, j: nat)
    requires Readable(dir, Item(i)) && Readable(dir, Item(j))
  {
    var a, b := dir[Item(i)].body.record.updatedMs, dir[Item(j)].body.record.updatedMs;
    a < b || (a == b && i < j)
  }

  /** `after` is `before` thinned out to the limits. Nothing is lost but records of
      ended sessions. All that were too old are gone; of the others only the oldest,
      and no more than needed: with the last of them back a limit would be exceeded. */
  ghost predicate Thinned(
    len: Encoder, before: Items, after: Items, markers: Markers, self: nat, policy: Retention, nowMs: nat)
  {
    && WithinLimits(len, after, policy)
    && Losses(before, after, markers, self, policy, nowMs)
    && OldestFirst(before, after, markers, self, policy, nowMs)
    && NoMoreThanNeeded(len, before, after, policy, nowMs)
  }

  /** Nothing is lost but orphans, and those that are too old are. */
  ghost predicate Losses(before: Items, after: Items, markers: Markers, self: nat, policy: Retention, nowMs: nat) {
    && (forall n :: n in after ==> n in before && after[n] == before[n])
    && (forall n :: n in before && n !in after ==> n.Item? && Orphan(before, markers, self, n.id))
    && (forall i :: Orphan(before, markers, self, i) && TooOld(policy, nowMs, before[Item(i)].body.record) ==>
          Item(i) !in after)
  }

  ghost predicate OldestFirst(
    before: Items, after: Items, markers: Markers, self: nat, policy: Retention, nowMs: nat)
  {
    forall i, j ::
      Evicted(before, after, policy, nowMs, i) && Orphan(before, markers, self, j) && Item(j) in after ==>
      Sooner(before, i, j)
  }

  ghost predicate NoMoreThanNeeded(len: Encoder, before: Items, after: Items, policy: Retention, nowMs: nat) {
    forall i | Evicted(before, after, policy, nowMs, i) && LastEvicted(before, after, policy, nowMs, i) ::
      !WithinLimits(len, after[Item(i) := before[Item(i)]], policy)
  }

  ghost predicate LastEvicted(before: Items, after: Items, policy: Retention, nowMs: nat, i: nat)
    requires Evicted(before, after, policy, nowMs, i)
  {
    forall j :: Evicted(before, after, policy, nowMs, j) ==> j == i || Sooner(before, j, i)
  }

  // ----- from the plan to the directory -----

  lemma LiveExactly(view: Markers, self: nat, owner: SessionId)
    ensures IsLive(view, self, owner) <==> !Ended(view, self, owner)
  {
  }

  lemma ExpiredExactly(policy: Retention, nowMs: nat, view: Markers, self: nat, r: Record)
    ensures Expired(Cutoff(policy, nowMs), view, self, r) <==> TooOld(policy, nowMs, r) && Ended(view, self, r.session)
  {
  }

  lemma {:induction false} DeadOrdered(view: Markers, self: nat, s: seq<Record>)
    requires Ordered(ByAge, s)
    ensures Ordered(ByAge, Dead(view, self, s))
  {
    hide IsLive;
    if s != [] {
      DeadOrdered(view, self, s[1..]);
      DeadMembers(view, self, s[1..]);
      if !IsLive(view, self, s[0].session) {
        OrderedCons(ByAge, s, Dead(view, self, s[1..]));
      }
    }
  }

  lemma SameRecord(s: seq<Record>, a: Record, b: Record)
    requires Distinct(s) && a in s && b in s && a.id == b.id
    ensures a == b
  {
    var i :| 0 <= i < |s| && s[i] == a;
    var j :| 0 <= j < |s| && s[j] == b;
  }

  /** Which identities are victims: those of the expired records and of the run. */
  lemma VictimExactly(s: seq<Record>, lapsed: seq<Record>, run: seq<Record>, r: Record)
    requires Distinct(s) && r in s && (forall x :: x in lapsed || x in run ==> x in s)
    ensures r.id in Ids(lapsed) + Ids(run) <==> r in lapsed || r in run
  {
    IdsExact(lapsed);
    IdsExact(run);
    if r.id in Ids(lapsed) {
      var x :| x in lapsed && x.id == r.id;
      SameRecord(s, x, r);
    }
    if r.id in Ids(run) {
      var x :| x in run && x.id == r.id;
      SameRecord(s, x, r);
    }
  }

  /** A directory of `records` and some `fixed` ones of running sessions, with what
      expiry leaves of the former. */
  ghost predicate Setting(
    base: Items, fixed: seq<Record>, records: seq<Record>, view: Markers, self: nat, cutoff: Option<nat>,
    kept: seq<Record>)
  {
    && Inventory(base, records + fixed) && Ordered(ByAge, records)
    && (forall r :: r in fixed ==> IsLive(view, self, r.session))
    && kept == Unexpired(cutoff, view, self, records)
  }

  function Victims(view: Markers, self: nat, cutoff: Option<nat>, records: seq<Record>, kept: seq<Record>, k: nat): seq<nat>
    requires k <= |Dead(view, self, kept)|
  {
    Ids(Lapsed(cutoff, view, self, records)) + Ids(Dead(view, self, kept)[..k])
  }

  lemma SettingDistinct(
    base: Items, fixed: seq<Record>, records: seq<Record>, view: Markers, self: nat, cutoff: Option<nat>,
    kept: seq<Record>)
    requires Setting(base, fixed, records, view, self, cutoff, kept)
    ensures Distinct(records) && Distinct(fixed) && Distinct(kept) && Distinct(records + fixed)
    ensures forall a, b :: a in records && b in fixed ==> a.id != b.id
    ensures Ordered(ByAge, kept) && kept == Sort(ByUpdated, kept)
    ensures forall r :: r in kept <==> r in records && !Expired(cutoff, view, self, r)
  {
    hide IsLive, Expired;
    assert multiset(records + fixed) == multiset(records) + multiset(fixed);
    SplitFacts(records + fixed, records, fixed);
    AgeSplit(cutoff, view, self, records);
    SplitFacts(records, kept, Lapsed(cutoff, view, self, records));
    UnexpiredOrdered(cutoff, view, self, records);
    SortOrdered(ByUpdated, kept);
  }

  /** Exactly the expired records and the run are gone. */
  lemma GoneExactly(
    base: Items, fixed: seq<Record>, records: seq<Record>, view: Markers, self: nat, cutoff: Option<nat>,
    kept: seq<Record>, k: nat, r: Record)
    requires Setting(base, fixed, records, view, self, cutoff, kept)
    requires k <= |Dead(view, self, kept)| && r in records + fixed
    ensures r.id in Victims(view, self, cutoff, records, kept, k) <==>
            (r in records && Expired(cutoff, view, self, r)) || r in Dead(view, self, kept)[..k]
    ensures r in Dead(view, self, kept)[..k] ==> r in kept && !IsLive(view, self, r.session)
  {
    hide Expired, IsLive;
    SettingDistinct(base, fixed, records, view, self, cutoff, kept);
    AgeSplit(cutoff, view, self, records);
    DeadMembers(view, self, kept);
    var run := Dead(view, self, kept)[..k];
    assert forall x :: x in run ==> x in Dead(view, self, kept);
    VictimExactly(records + fixed, Lapsed(cutoff, view, self, records), run, r);
  }

  lemma RunIsOldest(view: Markers, self: nat, kept: seq<Record>, k: nat, a: Record, b: Record)
    requires Distinct(kept) && Ordered(ByAge, kept) && k <= |Dead(view, self, kept)|
    requires a in Dead(view, self, kept)[..k]
    requires b in kept && !IsLive(view, self, b.session) && b !in Dead(view, self, kept)[..k]
    ensures ByAge(a, b) && a.id != b.id
  {
    hide IsLive, Dead;
    DeadOrdered(view, self, kept);
    DeadMembers(view, self, kept);
    var dead := Dead(view, self, kept);
    var i :| 0 <= i < k && dead[i] == a;
    assert dead == dead[..k] + dead[k..];
    var j :| 0 <= j < |dead[k..]| && dead[k..][j] == b;
    assert dead[k + j] == b;
    if a.id == b.id {
      SameRecord(kept, a, b);
    }
  }

  /** What is left once the victims are gone. */
  lemma LeftInventory(
    base: Items, fixed: seq<Record>, records: seq<Record>, view: Markers, self: nat, cutoff: Option<nat>,
    kept: seq<Record>, k: nat)
    requires Setting(base, fixed, records, view, self, cutoff, kept) && k <= |Dead(view, self, kept)|
    ensures Inventory(
              base - Names(Victims(view, self, cutoff, records, kept, k)), DropDead(view, self, kept, k) + fixed)
  {
    hide Inventory, Distinct, Expired, IsLive, Ordered;
    SettingDistinct(base, fixed, records, view, self, cutoff, kept);
    SurvivorsAndVictims(view, self, cutoff, records, kept, k);
    var survivors, victims := DropDead(view, self, kept, k), Victims(view, self, cutoff, records, kept, k);
    forall r | r in fixed ensures r.id !in victims {
      GoneExactly(base, fixed, records, view, self, cutoff, kept, k, r);
      assert r !in records && r !in kept;
    }
    DistinctBeside(survivors, fixed, records);
    InventoryWithout(base, records + fixed, survivors + fixed, victims);
  }

  lemma DistinctBeside(a: seq<Record>, b: seq<Record>, s: seq<Record>)
    requires Distinct(a) && Distinct(s + b) && forall r :: r in a ==> r in s
    ensures Distinct(a + b)
  {
    forall i, j | 0 <= i < j < |a + b| ensures (a + b)[i].id != (a + b)[j].id {
      if i < |a| <= j {
        assert a[i] in a;
        var n :| 0 <= n < |s| && s[n] == a[i];
        assert (s + b)[n] == a[i] && (s + b)[|s| + j - |a|] == b[j - |a|];
      } else if i >= |a| {
        assert (s + b)[|s| + i - |a|] == b[i - |a|] && (s + b)[|s| + j - |a|] == b[j - |a|];
      }
    }
  }

  /** With the last record of the run back, a limit would be exceeded. */
  lemma OneBackIsTooMuch(
    len: Encoder, base: Items, fixed: seq<Record>, records: seq<Record>, view: Markers, self: nat,
    cutoff: Option<nat>, kept: seq<Record>, policy: Retention, k: nat)
    requires Setting(base, fixed, records, view, self, cutoff, kept)
    requires 0 < k && ShortestRun(len, policy, |fixed|, Size(len, fixed), view, self, kept, k)
    ensures
      var r := Dead(view, self, kept)[k - 1];
      var after := base - Names(Victims(view, self, cutoff, records, kept, k));
      && Readable(base, Item(r.id)) && base[Item(r.id)].body.record == r
      && Item(r.id) !in after && !WithinLimits(len, after[Item(r.id) := base[Item(r.id)]], policy)
  {
    hide Ordered, Distinct, IsLive, Expired, Size, DropDead;
    var dead := Dead(view, self, kept);
    var r := dead[k - 1];
    var victims := Victims(view, self, cutoff, records, kept, k);
    var after := base - Names(victims);
    assert dead[..k][k - 1] == r;
    SettingDistinct(base, fixed, records, view, self, cutoff, kept);
    DeadMembers(view, self, kept);
    GoneExactly(base, fixed, records, view, self, cutoff, kept, k, r);
    InRecords(base, records + fixed, r);
    assert Item(r.id) in Names(victims);
    LeftInventory(base, fixed, records, view, self, cutoff, kept, k);
    var left := DropDead(view, self, kept, k) + fixed;
    assert after - {Item(r.id)} == after;
    InventoryWith(after, left, r, base[Item(r.id)]);
    InventoryTotals(len, after[Item(r.id) := base[Item(r.id)]], left + [r]);
    OneMoreExceeds(len, fixed, view, self, kept, policy, k);
  }

  lemma OneMoreExceeds(
    len: Encoder, fixed: seq<Record>, view: Markers, self: nat, kept: seq<Record>, policy: Retention, k: nat)
    requires 0 < k && ShortestRun(len, policy, |fixed|, Size(len, fixed), view, self, kept, k)
    ensures
      var more := DropDead(view, self, kept, k) + fixed + [Dead(view, self, kept)[k - 1]];
      |more| > policy.maxRecords || Size(len, more) > policy.maxTotalBytes
  {
    hide IsLive, Size, Dead, DropDead;
    var dead, left := Dead(view, self, kept), DropDead(view, self, kept, k);
    SizeJoin(len, left, fixed);
    SizeAppend(len, left + fixed, dead[k - 1]);
    DropDeadSize(len, view, self, kept, k);
    DropDeadSize(len, view, self, kept, k - 1);
    assert dead[..k] == dead[..k - 1] + [dead[k - 1]];
    SizeAppend(len, dead[..k - 1], dead[k - 1]);
    assert !Fits(len, policy, |fixed|, Size(len, fixed), DropDead(view, self, kept, k - 1));
  }

  lemma InRecords(items: Items, records: seq<Record>, r: Record)
    requires Inventory(items, records) && r in records
    ensures Readable(items, Item(r.id)) && items[Item(r.id)].body.record == r
  {
    var i :| 0 <= i < |records| && records[i] == r;
  }

  lemma {:induction false} SizeJoin(len: Encoder, a: seq<Record>, b: seq<Record>)
    ensures Size(len, a + b) == Size(len, a) + Size(len, b)
  {
    if a == [] {
      assert a + b == b;
    } else {
      SizeJoin(len, a[1..], b);
      assert (a + b)[1..] == a[1..] + b;
    }
  }

  /** What becomes of one readable record. */
  lemma EntryFate(
    base: Items, fixed: seq<Record>, records: seq<Record>, view: Markers, self: nat, policy: Retention, nowMs: nat,
    kept: seq<Record>, k: nat, i: nat)
    requires Setting(base, fixed, records, view, self, Cutoff(policy, nowMs), kept)
    requires k <= |Dead(view, self, kept)| && Readable(base, Item(i))
    ensures
      var r := base[Item(i)].body.record;
      var gone := Item(i) in Names(Victims(view, self, Cutoff(policy, nowMs), records, kept, k));
      && (gone ==> Ended(view, self, r.session))
      && (Ended(view, self, r.session) && TooOld(policy, nowMs, r) ==> gone)
      && (gone && !TooOld(policy, nowMs, r) ==> r in Dead(view, self, kept)[..k])
      && (!gone && Ended(view, self, r.session) ==>
            r in kept && !IsLive(view, self, r.session) && r !in Dead(view, self, kept)[..k])
  {
    hide Ended, TooOld, Expired, IsLive, Distinct, Ordered, Cutoff;
    var r := base[Item(i)].body.record;
    var n :| 0 <= n < |records + fixed| && Item((records + fixed)[n].id) == Item(i);
    assert (records + fixed)[n] == r;
    var cutoff := Cutoff(policy, nowMs);
    SettingDistinct(base, fixed, records, view, self, cutoff, kept);
    GoneExactly(base, fixed, records, view, self, cutoff, kept, k, r);
    LiveExactly(view, self, r.session);
    ExpiredExactly(policy, nowMs, view, self, r);
    assert Item(i) in Names(Victims(view, self, cutoff, records, kept, k)) <==>
           i in Victims(view, self, cutoff, records, kept, k);
    DeadMembers(view, self, kept);
  }

  lemma OldestFirstHolds(
    base: Items, fixed: seq<Record>, records: seq<Record>, view: Markers, self: nat, policy: Retention, nowMs: nat,
    kept: seq<Record>, k: nat)
    requires Setting(base, fixed, records, view, self, Cutoff(policy, nowMs), kept) && k <= |Dead(view, self, kept)|
    ensures
      var after := base - Names(Victims(view, self, Cutoff(policy, nowMs), records, kept, k));
      OldestFirst(base, after, view, self, policy, nowMs)
  {
    hide Ended, TooOld, IsLive, Distinct, Ordered, Cutoff, Victims, Names, Setting;
    SettingDistinct(base, fixed, records, view, self, Cutoff(policy, nowMs), kept);
    var after := base - Names(Victims(view, self, Cutoff(policy, nowMs), records, kept, k));
    forall i, j |
      Evicted(base, after, policy, nowMs, i) && Orphan(base, view, self, j) && Item(j) in after
      ensures Sooner(base, i, j)
    {
      EntryFate(base, fixed, records, view, self, policy, nowMs, kept, k, i);
      EntryFate(base, fixed, records, view, self, policy, nowMs, kept, k, j);
      RunIsOldest(view, self, kept, k, base[Item(i)].body.record, base[Item(j)].body.record);
    }
  }

  /** The last record evicted is the last of the run. */
  lemma LastOfRun(
    base: Items, fixed: seq<Record>, records: seq<Record>, view: Markers, self: nat, policy: Retention, nowMs: nat,
    kept: seq<Record>, k: nat, i: nat)
    requires Setting(base, fixed, records, view, self, Cutoff(policy, nowMs), kept) && k <= |Dead(view, self, kept)|
    requires
      var after := base - Names(Victims(view, self, Cutoff(policy, nowMs), records, kept, k));
      Evicted(base, after, policy, nowMs, i) && LastEvicted(base, after, policy, nowMs, i)
    ensures k > 0 && Dead(view, self, kept)[k - 1].id == i
  {
    hide Ended, TooOld, IsLive, Distinct, Ordered, Cutoff, Expired;
    var cutoff := Cutoff(policy, nowMs);
    var run := Dead(view, self, kept)[..k];
    var r := base[Item(i)].body.record;
    EntryFate(base, fixed, records, view, self, policy, nowMs, kept, k, i);
    assert r in run;
    var last := run[k - 1];
    SettingDistinct(base, fixed, records, view, self, cutoff, kept);
    DeadMembers(view, self, kept);
    GoneExactly(base, fixed, records, view, self, cutoff, kept, k, last);
    InRecords(base, records + fixed, last);
    LiveExactly(view, self, last.session);
    ExpiredExactly(policy, nowMs, view, self, last);
    assert Evicted(base, base - Names(Victims(view, self, cutoff, records, kept, k)), policy, nowMs, last.id);
    RunOrdered(view, self, kept, k, r);
  }

  lemma RunOrdered(view: Markers, self: nat, kept: seq<Record>, k: nat, r: Record)
    requires Ordered(ByAge, kept) && 0 < k <= |Dead(view, self, kept)| && r in Dead(view, self, kept)[..k]
    ensures r == Dead(view, self, kept)[k - 1] || ByAge(r, Dead(view, self, kept)[k - 1])
  {
    DeadOrdered(view, self, kept);
    var i :| 0 <= i < k && Dead(view, self, kept)[i] == r;
  }

  lemma LossesHold(
    base: Items, fixed: seq<Record>, records: seq<Record>, view: Markers, self: nat, policy: Retention, nowMs: nat,
    kept: seq<Record>, k: nat)
    requires Setting(base, fixed, records, view, self, Cutoff(policy, nowMs), kept) && k <= |Dead(view, self, kept)|
    ensures
      var after := base - Names(Victims(view, self, Cutoff(policy, nowMs), records, kept, k));
      Losses(base, after, view, self, policy, nowMs)
  {
    hide Ended, TooOld, IsLive, Distinct, Ordered, Cutoff, Expired, Victims, DropDead;
    var victims := Victims(view, self, Cutoff(policy, nowMs), records, kept, k);
    var after := base - Names(victims);
    forall n | n in base && n !in after ensures n.Item? && Orphan(base, view, self, n.id) {
      assert n in Names(victims);
      VictimReadable(base, fixed, records, view, self, Cutoff(policy, nowMs), kept, k, n.id);
      EntryFate(base, fixed, records, view, self, policy, nowMs, kept, k, n.id);
    }
    forall i | Orphan(base, view, self, i) && TooOld(policy, nowMs, base[Item(i)].body.record) ensures Item(i) !in after {
      EntryFate(base, fixed, records, view, self, policy, nowMs, kept, k, i);
    }
  }

  lemma VictimReadable(
    base: Items, fixed: seq<Record>, records: seq<Record>, view: Markers, self: nat, cutoff: Option<nat>,
    kept: seq<Record>, k: nat, i: nat)
    requires Setting(base, fixed, records, view, self, cutoff, kept)
    requires k <= |Dead(view, self, kept)| && Item(i) in base
    ensures Readable(base, Item(i))
  {
    hide Ordered, IsLive;
  }

  lemma NoMoreHolds(
    len: Encoder, base: Items, fixed: seq<Record>, records: seq<Record>, view: Markers, self: nat, policy: Retention,
    nowMs: nat, kept: seq<Record>, k: nat)
    requires Setting(base, fixed, records, view, self, Cutoff(policy, nowMs), kept)
    requires ShortestRun(len, policy, |fixed|, Size(len, fixed), view, self, kept, k)
    ensures
      var after := base - Names(Victims(view, self, Cutoff(policy, nowMs), records, kept, k));
      NoMoreThanNeeded(len, base, after, policy, nowMs)
  {
    hide Setting, Cutoff, Victims, Size, DropDead, LastEvicted, TooOld, WithinLimits, Names;
    var after := base - Names(Victims(view, self, Cutoff(policy, nowMs), records, kept, k));
    forall i | Evicted(base, after, policy, nowMs, i) && LastEvicted(base, after, policy, nowMs, i)
      ensures !WithinLimits(len, after[Item(i) := base[Item(i)]], policy)
    {
      LastOfRun(base, fixed, records, view, self, policy, nowMs, kept, k, i);
      OneBackIsTooMuch(len, base, fixed, records, view, self, Cutoff(policy, nowMs), kept, policy, k);
    }
  }

  lemma LimitsHold(
    len: Encoder, base: Items, fixed: seq<Record>, records: seq<Record>, view: Markers, self: nat,
    cutoff: Option<nat>, kept: seq<Record>, policy: Retention, k: nat)
    requires Setting(base, fixed, records, view, self, cutoff, kept)
    requires ShortestRun(len, policy, |fixed|, Size(len, fixed), view, self, kept, k)
    ensures WithinLimits(len, base - Names(Victims(view, self, cutoff, records, kept, k)), policy)
  {
    hide Setting, Victims, Size, DropDead;
    var after := base - Names(Victims(view, self, cutoff, records, kept, k));
    LeftInventory(base, fixed, records, view, self, cutoff, kept, k);
    InventoryTotals(len, after, DropDead(view, self, kept, k) + fixed);
    SizeJoin(len, DropDead(view, self, kept, k), fixed);
  }

  /** Losing the expired records and the shortest sufficient run thins the directory. */
  lemma RunThins(
    len: Encoder, base: Items, fixed: seq<Record>, records: seq<Record>, view: Markers, self: nat, policy: Retention,
    nowMs: nat, kept: seq<Record>, k: nat)
    requires Setting(base, fixed, records, view, self, Cutoff(policy, nowMs), kept)
    requires ShortestRun(len, policy, |fixed|, Size(len, fixed), view, self, kept, k)
    ensures
      var after := base - Names(Victims(view, self, Cutoff(policy, nowMs), records, kept, k));
      Thinned(len, base, after, view, self, policy, nowMs)
  {
    hide Setting, Cutoff, Victims, Names, OldestFirst, NoMoreThanNeeded, Losses, WithinLimits, Size, DropDead;
    OldestFirstHolds(base, fixed, records, view, self, policy, nowMs, kept, k);
    LossesHold(base, fixed, records, view, self, policy, nowMs, kept, k);
    NoMoreHolds(len, base, fixed, records, view, self, policy, nowMs, kept, k);
    LimitsHold(len, base, fixed, records, view, self, Cutoff(policy, nowMs), kept, policy, k);
  }

  // ----- pruning -----

  /** A directory with nothing of ended sessions in it. */
  function Living(dir: Items, markers: Markers, self: nat): Items {
    map n | n in dir && !(n.Item? && Orphan(dir, markers, self, n.id)) :: dir[n]
  }

  lemma PruneSetting(items: Items, view: Markers, self: nat, policy: Retention, startup: Option<Issue>, env: Env)
    requires Scannable(items, env) && Clean(Listed(items, startup, env.scan))
    ensures
      var records := Listed(items, startup, env.scan).records;
      var cutoff := Cutoff(policy, env.nowMs);
      var kept := Unexpired(cutoff, view, self, records);
      Setting(items, [], records, view, self, cutoff, kept) && kept == Sort(ByUpdated, kept)
  {
    hide Inventory, Ordered, Expired, IsLive, Sort;
    var records := Listed(items, startup, env.scan).records;
    CleanListingIsWholeDirectory(items, startup, env.scan);
    assert records + [] == records;
    SettingDistinct(items, [], records, view, self, Cutoff(policy, env.nowMs),
                    Unexpired(Cutoff(policy, env.nowMs), view, self, records));
  }

  /** A prune that is carried out thins the directory to the limits. */
  lemma PruneThins(
    len: Encoder, items: Items, view: Markers, self: nat, policy: Retention, startup: Option<Issue>, env: Env)
    requires Scannable(items, env) && PrunePlan(len, items, view, self, policy, startup, env).Ok?
    ensures Thinned(len, items, ApplyAll(len, items, PrunePlan(len, items, view, self, policy, startup, env).value),
                    view, self, policy, env.nowMs)
  {
    hide Thinned, Setting, Sort, Listed, ApplyAll, Cutoff;
    var records := Listed(items, startup, env.scan).records;
    var cutoff := Cutoff(policy, env.nowMs);
    var kept := Unexpired(cutoff, view, self, records);
    PruneSetting(items, view, self, policy, startup, env);
    var k := RunLength(len, policy, 0, 0, view, self, kept, 0).value;
    RunLengthExact(len, policy, 0, 0, view, self, kept, 0);
    var victims := Victims(view, self, cutoff, records, kept, k);
    var tail: seq<Effect> := if victims == [] then [] else [SyncItems];
    ApplyAppend(len, items, Deletes(victims), tail);
    ApplyDeletes(len, items, victims);
    ApplyNothing(len, items - Names(victims));
    RunThins(len, items, [], records, view, self, policy, env.nowMs, kept, k);
  }

  lemma ApplyNothing(len: Encoder, items: Items)
    ensures ApplyAll(len, items, []) == items && ApplyAll(len, items, [SyncItems]) == items
  {
    ApplySync(len, items);
  }

  /** Losing every record of an ended session leaves the living ones. */
  lemma HopelessExactly(
    len: Encoder, base: Items, fixed: seq<Record>, records: seq<Record>, view: Markers, self: nat, policy: Retention,
    nowMs: nat, kept: seq<Record>)
    requires Setting(base, fixed, records, view, self, Cutoff(policy, nowMs), kept)
    ensures Hopeless(len, policy, |fixed|, Size(len, fixed), view, self, kept) <==>
            !WithinLimits(len, Living(base, view, self), policy)
  {
    hide Setting, Cutoff, Victims, Size, DropDead, Ended, IsLive, TooOld;
    var k := |Dead(view, self, kept)|;
    var victims := Victims(view, self, Cutoff(policy, nowMs), records, kept, k);
    DeadMembers(view, self, kept);
    assert Dead(view, self, kept)[..k] == Dead(view, self, kept);
    forall n | n in base ensures n in Names(victims) <==> n.Item? && Orphan(base, view, self, n.id) {
      if n.Item? {
        VictimReadable(base, fixed, records, view, self, Cutoff(policy, nowMs), kept, k, n.id);
        EntryFate(base, fixed, records, view, self, policy, nowMs, kept, k, n.id);
      }
    }
    assert base - Names(victims) == Living(base, view, self);
    LeftInventory(base, fixed, records, view, self, Cutoff(policy, nowMs), kept, k);
    InventoryTotals(len, base - Names(victims), DropDead(view, self, kept, k) + fixed);
    SizeJoin(len, DropDead(view, self, kept, k), fixed);
  }

  /** A prune is refused exactly when the directory cannot be inspected as a whole or
      its living records alone exceed a limit. */
  lemma PruneAllowedExactly(
    len: Encoder, items: Items, view: Markers, self: nat, policy: Retention, startup: Option<Issue>, env: Env)
    requires Scannable(items, env)
    ensures
      var clean := Clean(Listed(items, startup, env.scan));
      var plan := PrunePlan(len, items, view, self, policy, startup, env);
      && (plan.Ok? <==> clean && WithinLimits(len, Living(items, view, self), policy))
      && (!clean ==> plan == Err(Capacity(Uninspected)))
      && (clean && plan.Err? ==> plan == Err(Capacity(LiveRecords)))
  {
    hide Setting, Sort, Listed, Cutoff, Living, WithinLimits, Hopeless;
    if Clean(Listed(items, startup, env.scan)) {
      var records := Listed(items, startup, env.scan).records;
      var kept := Unexpired(Cutoff(policy, env.nowMs), view, self, records);
      PruneSetting(items, view, self, policy, startup, env);
      RunLengthExact(len, policy, 0, 0, view, self, kept, 0);
      HopelessExactly(len, items, [], records, view, self, policy, env.nowMs, kept);
    }
  }

  // ----- saving -----

  /** The name's file can be read back as a record. */
  predicate ReadsBack(dir: Items, n: Name) {
    n in dir && dir[n].File? && dir[n].size <= HARD_MAX_ITEM_BYTES && dir[n].body.Decoded?
  }

  /** `record` is `offered` as a session saves it: the session's own, updated now, and
      as old as the readable record it replaces, or else as it says, or else new. */
  predicate SavedFrom(before: Items, self: nat, stampMs: nat, offered: Record, record: Record) {
    && record == offered.(session := Uuid(self), updatedMs := stampMs, createdMs := record.createdMs)
    && (ReadsBack(before, Item(offered.id)) ==>
          record.createdMs == before[Item(offered.id)].body.record.createdMs)
    && (!ReadsBack(before, Item(offered.id)) && offered.createdMs != 0 ==> record.createdMs == offered.createdMs)
    && (!ReadsBack(before, Item(offered.id)) && offered.createdMs == 0 ==> record.createdMs == stampMs)
  }

  /** Nobody else who may still be running owns the name, and its file, if its metadata
      can be read, is a record. */
  predicate MayReplace(dir: Items, markers: Markers, self: nat, n: Name) {
    n in dir && !dir[n].Hidden? ==>
      && ReadsBack(dir, n)
      && (dir[n].body.record.session == Uuid(self) || Ended(markers, self, dir[n].body.record.session))
  }

  lemma MayReplaceExactly(items: Items, view: Markers, self: nat, id: nat)
    ensures MayReplace(items, view, self, Item(id)) <==>
            ReadExisting(items, id).Ok? && !ForeignLive(ReadExisting(items, id).value, view, self)
    ensures ReadsBack(items, Item(id)) <==> ReadExisting(items, id).Ok? && ReadExisting(items, id).value.Some?
    ensures ReadsBack(items, Item(id)) ==> ReadExisting(items, id).value == Some(items[Item(id)].body.record)
  {
  }

  lemma SavedIsStamped(items: Items, self: nat, stampMs: nat, offered: Record, record: Record)
    requires ReadExisting(items, offered.id).Ok?
    ensures SavedFrom(items, self, stampMs, offered, record) <==>
            record == Stamped(ReadExisting(items, offered.id).value, offered, self, stampMs)
  {
    MayReplaceExactly(items, map[], self, offered.id);
    hide ReadsBack, ReadExisting;
  }

  /** The directory with the record in it. */
  function With(len: Encoder, dir: Items, record: Record): Items {
    dir[Item(record.id) := File(len(record), Decoded(record))]
  }

  lemma SaveSetting(
    len: Encoder, items: Items, view: Markers, self: nat, policy: Retention, startup: Option<Issue>, env: Env,
    record: Record)
    requires Scannable(items, env) && Clean(Listed(items, startup, env.scan))
    requires record.session == Uuid(self) && len(record) <= HARD_MAX_ITEM_BYTES
    ensures
      var others := Without(Listed(items, startup, env.scan).records, record.id);
      var cutoff := Cutoff(policy, env.nowMs);
      var kept := Unexpired(cutoff, view, self, others);
      && Setting(With(len, items, record), [record], others, view, self, cutoff, kept)
      && kept == Candidates(Listed(items, startup, env.scan), policy, view, self, env.nowMs, record.id)
  {
    hide Inventory, Ordered, Expired, Sort;
    var records := Listed(items, startup, env.scan).records;
    var others := Without(records, record.id);
    CleanListingIsWholeDirectory(items, startup, env.scan);
    InventoryDropTarget(items, records, record.id);
    InventoryWith(items, others, record, File(len(record), Decoded(record)));
    WithoutOrdered(records, record.id);
    SettingDistinct(With(len, items, record), [record], others, view, self, Cutoff(policy, env.nowMs),
                    Unexpired(Cutoff(policy, env.nowMs), view, self, others));
  }

  lemma OneSize(len: Encoder, record: Record)
    ensures Size(len, [record]) == len(record)
  {
    assert [record][1..] == [];
  }

  /** Some record is the one an accepted save writes. */
  lemma AcceptedRecord(
    len: Encoder, items: Items, view: Markers, self: nat, policy: Retention, startup: Option<Issue>, env: Env,
    offered: Record)
    returns (record: Record)
    requires Scannable(items, env) && UpsertPlan(len, items, view, self, policy, startup, env, offered).Ok?
    ensures SavedFrom(items, self, env.stampMs, offered, record)
  {
    record := Stamped(ReadExisting(items, offered.id).value, offered, self, env.stampMs);
    SavedIsStamped(items, self, env.stampMs, offered, record);
  }

  /** What an accepted save does: write, then delete the expired records and a run. */
  lemma SavePlanned(
    len: Encoder, items: Items, view: Markers, self: nat, policy: Retention, startup: Option<Issue>, env: Env,
    offered: Record, record: Record)
    returns (others: seq<Record>, kept: seq<Record>, k: nat)
    requires Scannable(items, env) && SavedFrom(items, self, env.stampMs, offered, record)
    requires UpsertPlan(len, items, view, self, policy, startup, env, offered).Ok?
    ensures Setting(With(len, items, record), [record], others, view, self, Cutoff(policy, env.nowMs), kept)
    ensures ShortestRun(len, policy, 1, len(record), view, self, kept, k)
    ensures UpsertPlan(len, items, view, self, policy, startup, env, offered).value ==
            WriteEffects(env.temp, record) + Deletes(Victims(view, self, Cutoff(policy, env.nowMs), others, kept, k))
            + [SyncItems]
  {
    SavedIsStamped(items, self, env.stampMs, offered, record);
    hide Setting, Sort, Listed, Cutoff, SavedFrom, Unexpired, Candidates, Without, ShortestRun;
    var listing := Listed(items, startup, env.scan);
    others := Without(listing.records, record.id);
    kept := Unexpired(Cutoff(policy, env.nowMs), view, self, others);
    SaveSetting(len, items, view, self, policy, startup, env, record);
    k := RunLength(len, policy, 1, len(record), view, self, kept, 0).value;
    RunLengthExact(len, policy, 1, len(record), view, self, kept, 0);
  }

  /** A save that is carried out leaves the offered record, as saved, in a directory
      otherwise thinned to the limits. */
  lemma SaveThins(
    len: Encoder, items: Items, view: Markers, self: nat, policy: Retention, startup: Option<Issue>, env: Env,
    offered: Record, record: Record)
    requires Scannable(items, env) && SavedFrom(items, self, env.stampMs, offered, record)
    requires UpsertPlan(len, items, view, self, policy, startup, env, offered).Ok?
    ensures
      var after := ApplyAll(len, items, UpsertPlan(len, items, view, self, policy, startup, env, offered).value);
      && Item(offered.id) in after && after[Item(offered.id)] == File(len(record), Decoded(record))
      && Thinned(len, With(len, items, record), after, view, self, policy, env.nowMs)
  {
    hide Thinned, Setting, ApplyAll, Cutoff, Victims, UpsertPlan, Names;
    var others, kept, k := SavePlanned(len, items, view, self, policy, startup, env, offered, record);
    OneSize(len, record);
    var victims := Victims(view, self, Cutoff(policy, env.nowMs), others, kept, k);
    TargetSpared(With(len, items, record), others, record, view, self, Cutoff(policy, env.nowMs), kept, k);
    UpsertOutcome(len, items, env.temp, record, victims);
    assert (items - Names(victims))[Item(record.id) := Encoded(len, record)] == With(len, items, record) - Names(victims);
    RunThins(len, With(len, items, record), [record], others, view, self, policy, env.nowMs, kept, k);
  }

  lemma TargetSpared(
    base: Items, others: seq<Record>, record: Record, view: Markers, self: nat, cutoff: Option<nat>,
    kept: seq<Record>, k: nat)
    requires Setting(base, [record], others, view, self, cutoff, kept) && k <= |Dead(view, self, kept)|
    ensures record.id !in Victims(view, self, cutoff, others, kept, k)
    ensures Item(record.id) !in Names(Victims(view, self, cutoff, others, kept, k))
  {
    assert (others + [record])[|others|] == record;
    hide Inventory, Ordered, Expired, IsLive;
    SettingDistinct(base, [record], others, view, self, cutoff, kept);
    GoneExactly(base, [record], others, view, self, cutoff, kept, k, record);
  }

  /** A save is accepted exactly when nobody else may still own the name, the record is
      within both item limits, the directory can be inspected as a whole, and the record
      fits beside the living ones. */
  lemma SaveAllowedExactly(
    len: Encoder, items: Items, view: Markers, self: nat, policy: Retention, startup: Option<Issue>, env: Env,
    offered: Record, record: Record)
    requires Scannable(items, env) && SavedFrom(items, self, env.stampMs, offered, record)
    ensures UpsertPlan(len, items, view, self, policy, startup, env, offered).Ok? <==>
            && MayReplace(items, view, self, Item(offered.id))
            && len(record) <= policy.maxItemBytes && len(record) <= 64 * 1024 * 1024
            && Clean(Listed(items, startup, env.scan))
            && WithinLimits(len, Living(With(len, items, record), view, self), policy)
  {
    MayReplaceExactly(items, view, self, offered.id);
    LateCheckIsUnreachable(len, items, view, self, policy, startup, env, offered);
    hide MayReplace, ReadExisting, Living, WithinLimits, Listed, ForeignLive, Hopeless, Cutoff, Unexpired, Candidates;
    if ReadExisting(items, offered.id).Ok? {
      SavedIsStamped(items, self, env.stampMs, offered, record);
      if Clean(Listed(items, startup, env.scan)) && len(record) <= HARD_MAX_ITEM_BYTES {
        SaveFitsExactly(len, items, view, self, policy, startup, env, record);
      }
    }
  }

  lemma SaveFitsExactly(
    len: Encoder, items: Items, view: Markers, self: nat, policy: Retention, startup: Option<Issue>, env: Env,
    record: Record)
    requires Scannable(items, env) && Clean(Listed(items, startup, env.scan))
    requires record.session == Uuid(self) && len(record) <= HARD_MAX_ITEM_BYTES
    ensures
      var kept := Candidates(Listed(items, startup, env.scan), policy, view, self, env.nowMs, record.id);
      RunLength(len, policy, 1, len(record), view, self, kept, 0).Some? <==>
      WithinLimits(len, Living(With(len, items, record), view, self), policy)
  {
    hide Setting, Listed, Cutoff, Unexpired, Candidates, Hopeless, Living, WithinLimits, Without;
    var cutoff := Cutoff(policy, env.nowMs);
    var others := Without(Listed(items, startup, env.scan).records, record.id);
    var kept := Unexpired(cutoff, view, self, others);
    SaveSetting(len, items, view, self, policy, startup, env, record);
    OneSize(len, record);
    RunLengthExact(len, policy, 1, len(record), view, self, kept, 0);
    HopelessExactly(len, With(len, items, record), [record], others, view, self, policy, env.nowMs, kept);
  }

  // ----- removing and claiming -----

  /** A removal is refused exactly when the name may not be replaced, and deletes the
      file exactly when it holds a record. */
  lemma RemoveExactly(items: Items, view: Markers, self: nat, id: nat)
    ensures
      var plan := RemovePlan(items, view, self, id);
      && (plan.Ok? <==> MayReplace(items, view, self, Item(id)))
      && (plan.Ok? ==> plan.value == if ReadsBack(items, Item(id)) then [Delete(id), SyncItems] else [])
  {
    MayReplaceExactly(items, view, self, id);
    hide MayReplace, ReadsBack, ReadExisting, IsLive;
  }

  /** A claim is refused exactly then, or when the file holds another record than its
      name says; otherwise it rewrites the record under a new owner and time. */
  lemma ClaimExactly(items: Items, view: Markers, self: nat, env: Env, id: nat)
    ensures
      var plan := ClaimPlan(items, view, self, env, id);
      && (plan.Ok? <==>
            && MayReplace(items, view, self, Item(id))
            && (ReadsBack(items, Item(id)) ==> items[Item(id)].body.record.id == id))
      && (plan.Ok? && !ReadsBack(items, Item(id)) ==> plan.value == [])
      && (plan.Ok? && ReadsBack(items, Item(id)) ==>
            var record := items[Item(id)].body.record.(session := Uuid(self), updatedMs := env.stampMs);
            plan.value == [Stage(env.temp), Publish(env.temp, record), SyncItems])
  {
    MayReplaceExactly(items, view, self, id);
    hide MayReplace, ReadExisting, IsLive;
  }
}

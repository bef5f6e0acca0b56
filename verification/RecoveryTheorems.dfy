/** What one operation of the store guarantees about the directory. */
module RecoveryTheorems {
  import opened Wrappers
  import opened RecoveryTypes
  import opened RecoveryScan
  import opened RecoveryPolicy
  import opened RecoveryPlan

  function Names(ids: seq<nat>): set<Name> {
    set i | i in ids :: Item(i)
  }

  lemma {:induction false} IdsExact(s: seq<Record>)
    ensures forall r :: r in s ==> r.id in Ids(s)
    ensures forall i :: i in Ids(s) ==> exists r :: r in s && r.id == i
  {
    if s != [] {
      IdsExact(s[1..]);
      forall i | i in Ids(s) ensures exists r :: r in s && r.id == i {
        if i == s[0].id {
          assert s[0] in s;
        } else {
          var r :| r in s[1..] && r.id == i;
          assert r in s;
        }
      }
    }
  }

  /** The records that eviction after expiry keeps, and the ids it loses. */
  lemma SurvivorsAndVictims(
    view: Markers, self: nat, cutoff: Option<nat>, records: seq<Record>, kept: seq<Record>, k: nat)
    requires Distinct(records)
    requires kept == Sort(ByUpdated, Unexpired(cutoff, view, self, records))
    requires k <= |Dead(view, self, kept)|
    ensures
      var survivors := DropDead(view, self, kept, k);
      var victims := Ids(Lapsed(cutoff, view, self, records)) + Ids(Dead(view, self, kept)[..k]);
      Parted(view, self, records, survivors, victims)
  {
    var young := Unexpired(cutoff, view, self, records);
    var lapsed := Lapsed(cutoff, view, self, records);
    AgeSplit(cutoff, view, self, records);
    SplitFacts(records, young, lapsed);
    SortPermutes(ByUpdated, young);
    DistinctIdsPermute(young, kept);
    RunSplit(view, self, kept, k);
    SplitFacts(kept, DropDead(view, self, kept, k), Dead(view, self, kept)[..k]);
    DeadMembers(view, self, kept);
    PartedTwice(view, self, records, lapsed, DropDead(view, self, kept, k), Dead(view, self, kept)[..k]);
  }

  /** `survivors` are the records whose ids are not among the victims, and
      every victim is a record of a session that is not live. */
  ghost predicate Parted(view: Markers, self: nat, records: seq<Record>, survivors: seq<Record>, victims: seq<nat>) {
    && Distinct(survivors)
    && (forall r :: r in survivors ==> r in records && r.id !in victims)
    && (forall r :: r in records ==> r in survivors || r.id in victims)
    && (forall i :: i in victims ==> exists r :: r in records && r.id == i && !IsLive(view, self, r.session))
  }

  lemma PartedTwice(
    view: Markers, self: nat, records: seq<Record>, lapsed: seq<Record>, survivors: seq<Record>, run: seq<Record>)
    requires Distinct(survivors)
    requires forall r :: r in records <==> r in lapsed || r in survivors || r in run
    requires forall x, y :: x in survivors && y in lapsed ==> x.id != y.id
    requires forall x, y :: x in survivors && y in run ==> x.id != y.id
    requires forall r :: r in lapsed || r in run ==> !IsLive(view, self, r.session)
    ensures Parted(view, self, records, survivors, Ids(lapsed) + Ids(run))
  {
    IdsExact(lapsed);
    IdsExact(run);
  }

  /** An inventory of the directory after its victims are gone. */
  lemma InventoryWithout(items: Items, records: seq<Record>, survivors: seq<Record>, ids: seq<nat>)
    requires Inventory(items, records) && Distinct(survivors)
    requires forall r :: r in survivors ==> r in records && r.id !in ids
    requires forall r :: r in records ==> r in survivors || r.id in ids
    ensures Inventory(items - Names(ids), survivors)
  {
    var after := items - Names(ids);
    forall n | n in after && !n.Other?
      ensures Readable(after, n) && exists i :: 0 <= i < |survivors| && Item(survivors[i].id) == n
    {
      assert Readable(items, n);
      var i :| 0 <= i < |records| && Item(records[i].id) == n;
      assert records[i] in records;
      var j :| 0 <= j < |survivors| && survivors[j] == records[i];
    }
    forall i | 0 <= i < |survivors|
      ensures Item(survivors[i].id) in after && ReadRecord(after[Item(survivors[i].id)]) == Ok(survivors[i])
    {
      var r := survivors[i];
      assert r in records;
      var j :| 0 <= j < |records| && records[j] == r;
      assert Item(r.id) !in Names(ids);
    }
  }

  /** What a prune deletes, and what it keeps. */
  lemma PruneDecision(
    len: Encoder, items: Items, view: Markers, self: nat, policy: Retention, startup: Option<Issue>, env: Env)
    returns (victims: seq<nat>)
    requires Scannable(items, env)
    requires PrunePlan(len, items, view, self, policy, startup, env).Ok?
    ensures PrunePlan(len, items, view, self, policy, startup, env).value
         == Deletes(victims) + if victims == [] then [] else [SyncItems]
    ensures Expendable(items, view, self, victims)
  {
    var listing := Listed(items, startup, env.scan);
    var cutoff := Cutoff(policy, env.nowMs);
    var kept := Sort(ByUpdated, Unexpired(cutoff, view, self, listing.records));
    var k := RunLength(len, policy, 0, 0, view, self, kept, 0).value;
    CleanListingIsWholeDirectory(items, startup, env.scan);
    SurvivorsAndVictims(view, self, cutoff, listing.records, kept, k);
    victims := Ids(Lapsed(cutoff, view, self, listing.records)) + Ids(Dead(view, self, kept)[..k]);
    PartedExpendable(items, view, self, listing.records, DropDead(view, self, kept, k), victims);
  }

  /** Pruning by policy leaves the whole directory within both limits. */
  lemma PruneWithinLimits(
    len: Encoder, items: Items, view: Markers, self: nat, policy: Retention, startup: Option<Issue>, env: Env)
    requires Scannable(items, env)
    requires PrunePlan(len, items, view, self, policy, startup, env).Ok?
    ensures WithinLimits(len, ApplyAll(len, items, PrunePlan(len, items, view, self, policy, startup, env).value), policy)
  {
    var listing := Listed(items, startup, env.scan);
    var cutoff := Cutoff(policy, env.nowMs);
    var kept := Sort(ByUpdated, Unexpired(cutoff, view, self, listing.records));
    var k := RunLength(len, policy, 0, 0, view, self, kept, 0).value;
    RunLengthExact(len, policy, 0, 0, view, self, kept, 0);
    CleanListingIsWholeDirectory(items, startup, env.scan);
    SurvivorsAndVictims(view, self, cutoff, listing.records, kept, k);
    var survivors := DropDead(view, self, kept, k);
    var victims := Ids(Lapsed(cutoff, view, self, listing.records)) + Ids(Dead(view, self, kept)[..k]);
    var tail: seq<Effect> := if victims == [] then [] else [SyncItems];
    ApplyAppend(len, items, Deletes(victims), tail);
    ApplyDeletes(len, items, victims);
    ApplySync(len, items - Names(victims));
    InventoryWithout(items, listing.records, survivors, victims);
    InventoryTotals(len, items - Names(victims), survivors);
  }

  /** The inventory of the directory once one more record is in. */
  lemma InventoryWith(items: Items, records: seq<Record>, record: Record, entry: Entry)
    requires Inventory(items - {Item(record.id)}, records)
    requires ReadRecord(entry) == Ok(record)
    ensures Inventory(items[Item(record.id) := entry], records + [record])
  {
    var before := items - {Item(record.id)};
    var after := items[Item(record.id) := entry];
    var all := records + [record];
    forall n | n in after && !n.Other?
      ensures Readable(after, n) && exists i :: 0 <= i < |all| && Item(all[i].id) == n
    {
      if n == Item(record.id) {
        assert all[|records|] == record;
      } else {
        assert n in before && Readable(before, n);
        var i :| 0 <= i < |records| && Item(records[i].id) == n;
        assert all[i] == records[i];
      }
    }
    forall i | 0 <= i < |all|
      ensures Item(all[i].id) in after && ReadRecord(after[Item(all[i].id)]) == Ok(all[i])
    {
      if i < |records| { assert Item(records[i].id) in before; }
    }
  }

  lemma InventoryDropTarget(items: Items, records: seq<Record>, id: nat)
    requires Inventory(items, records)
    ensures Inventory(items - {Item(id)}, Without(records, id))
  {
    TargetSplit(records, id);
    forall r | r in records ensures r in Without(records, id) || r.id in [id] {}
    forall r | r in Without(records, id) ensures r in records && r.id !in [id] {}
    InventoryWithout(items, records, Without(records, id), [id]);
    assert Names([id]) == {Item(id)};
  }

  /** Every victim names a readable record of a session that is not live. */
  ghost predicate Expendable(items: Items, view: Markers, self: nat, victims: seq<nat>) {
    forall i :: i in victims ==>
      && Item(i) in items && ReadRecord(items[Item(i)]).Ok?
      && !IsLive(view, self, ReadRecord(items[Item(i)]).value.session)
  }

  lemma PartedExpendable(
    items: Items, view: Markers, self: nat, records: seq<Record>, survivors: seq<Record>, victims: seq<nat>)
    requires Inventory(items, records) && Parted(view, self, records, survivors, victims)
    ensures Expendable(items, view, self, victims)
  {
    forall i | i in victims
      ensures Item(i) in items && ReadRecord(items[Item(i)]).Ok?
      ensures !IsLive(view, self, ReadRecord(items[Item(i)]).value.session)
    {
      var r :| r in records && r.id == i && !IsLive(view, self, r.session);
      var j :| 0 <= j < |records| && records[j] == r;
    }
  }

  /** The victims of a save, and the survivors beside the new record. */
  lemma UpsertDecision(
    len: Encoder, items: Items, view: Markers, self: nat, policy: Retention, startup: Option<Issue>, env: Env,
    offered: Record)
    returns (record: Record, survivors: seq<Record>, victims: seq<nat>)
    requires Scannable(items, env)
    requires UpsertPlan(len, items, view, self, policy, startup, env, offered).Ok?
    ensures UpsertPlan(len, items, view, self, policy, startup, env, offered).value
         == WriteEffects(env.temp, record) + Deletes(victims) + [SyncItems]
    ensures record.id == offered.id && record.session == Uuid(self) && record.sourceText == offered.sourceText
    ensures len(record) <= HARD_MAX_ITEM_BYTES
    ensures Inventory(items - {Item(record.id)} - Names(victims), survivors)
    ensures Fits(len, policy, 1, len(record), survivors)
    ensures record.id !in victims
    ensures Expendable(items, view, self, victims)
  {
    record := Stamped(ReadExisting(items, offered.id).value, offered, self, env.stampMs);
    var listing := Listed(items, startup, env.scan);
    var kept := Candidates(listing, policy, view, self, env.nowMs, record.id);
    var k := RunLength(len, policy, 1, len(record), view, self, kept, 0).value;
    RunLengthExact(len, policy, 1, len(record), view, self, kept, 0);
    CleanListingIsWholeDirectory(items, startup, env.scan);
    survivors, victims := UpsertSurvivors(items, view, self, Cutoff(policy, env.nowMs), listing.records, record.id, kept, k);
  }

  lemma UpsertSurvivors(
    items: Items, view: Markers, self: nat, cutoff: Option<nat>, records: seq<Record>, target: nat,
    kept: seq<Record>, k: nat)
    returns (survivors: seq<Record>, victims: seq<nat>)
    requires Inventory(items, records)
    requires kept == Sort(ByUpdated, Unexpired(cutoff, view, self, Without(records, target)))
    requires k <= |Dead(view, self, kept)|
    ensures survivors == DropDead(view, self, kept, k)
    ensures victims == Ids(Lapsed(cutoff, view, self, Without(records, target))) + Ids(Dead(view, self, kept)[..k])
    ensures Inventory(items - {Item(target)} - Names(victims), survivors)
    ensures target !in victims
    ensures Expendable(items, view, self, victims)
  {
    var others := Without(records, target);
    InventoryDropTarget(items, records, target);
    TargetSplit(records, target);
    SurvivorsAndVictims(view, self, cutoff, others, kept, k);
    survivors := DropDead(view, self, kept, k);
    victims := Ids(Lapsed(cutoff, view, self, others)) + Ids(Dead(view, self, kept)[..k]);
    InventoryWithout(items - {Item(target)}, others, survivors, victims);
    PartedExpendable(items - {Item(target)}, view, self, others, survivors, victims);
  }

  lemma UpsertOutcome(len: Encoder, items: Items, temp: string, record: Record, victims: seq<nat>)
    requires Other(temp) !in items && record.id !in victims
    ensures ApplyAll(len, items, WriteEffects(temp, record) + Deletes(victims) + [SyncItems])
         == (items - Names(victims))[Item(record.id) := Encoded(len, record)]
  {
    var write := WriteEffects(temp, record);
    ApplyAppend(len, items, write + Deletes(victims), [SyncItems]);
    ApplyAppend(len, items, write, Deletes(victims));
    ApplyWrite(len, items, temp, record);
    var written := items[Item(record.id) := Encoded(len, record)];
    ApplyDeletes(len, written, victims);
    ApplySync(len, written - Names(victims));
    assert Item(record.id) !in Names(victims);
    assert written - Names(victims) == (items - Names(victims))[Item(record.id) := Encoded(len, record)];
  }

  /** After a successful save the whole directory, not only the part the
      listing looked at, respects both limits. */
  lemma UpsertWithinLimits(
    len: Encoder, items: Items, view: Markers, self: nat, policy: Retention, startup: Option<Issue>, env: Env,
    offered: Record)
    requires Scannable(items, env)
    requires UpsertPlan(len, items, view, self, policy, startup, env, offered).Ok?
    ensures WithinLimits(
              len, ApplyAll(len, items, UpsertPlan(len, items, view, self, policy, startup, env, offered).value), policy)
  {
    var record, survivors, victims := UpsertDecision(len, items, view, self, policy, startup, env, offered);
    UpsertOutcome(len, items, env.temp, record, victims);
    var rest := items - Names(victims);
    assert rest - {Item(record.id)} == items - {Item(record.id)} - Names(victims);
    InventoryWith(rest, survivors, record, Encoded(len, record));
    InventoryTotals(len, rest[Item(record.id) := Encoded(len, record)], survivors + [record]);
    SizeAppend(len, survivors, record);
  }

  lemma {:induction false} SizeAppend(len: Encoder, s: seq<Record>, r: Record)
    ensures Size(len, s + [r]) == Size(len, s) + len(r)
  {
    if s == [] {
      assert [r][1..] == [];
    } else {
      SizeAppend(len, s[1..], r);
      assert (s + [r])[1..] == s[1..] + [r];
    }
  }

  /** The final check of a save can never refuse: the eviction loop has already
      established what it tests. */
  lemma LateCheckIsUnreachable(
    len: Encoder, items: Items, view: Markers, self: nat, policy: Retention, startup: Option<Issue>, env: Env,
    offered: Record)
    requires Scannable(items, env)
    ensures UpsertPlan(len, items, view, self, policy, startup, env, offered) != Err(Capacity(CannotHold))
  {
    if ReadExisting(items, offered.id).Ok? {
      var record := Stamped(ReadExisting(items, offered.id).value, offered, self, env.stampMs);
      var listing := Listed(items, startup, env.scan);
      var kept := Candidates(listing, policy, view, self, env.nowMs, record.id);
      RunLengthExact(len, policy, 1, len(record), view, self, kept, 0);
    }
  }

  /** The victims of a save are the expired dead records and then the shortest
      oldest-first run of the other dead records after which the new record
      fits. The save is refused for capacity exactly when losing every dead
      record would not make room. */
  lemma UpsertEvictsExactly(
    len: Encoder, items: Items, view: Markers, self: nat, policy: Retention, startup: Option<Issue>, env: Env,
    offered: Record, record: Record, others: seq<Record>, kept: seq<Record>)
    requires Scannable(items, env) && Clean(Listed(items, startup, env.scan))
    requires ReadExisting(items, offered.id).Ok?
    requires !ForeignLive(ReadExisting(items, offered.id).value, view, self)
    requires record == Stamped(ReadExisting(items, offered.id).value, offered, self, env.stampMs)
    requires len(record) <= policy.maxItemBytes <= HARD_MAX_ITEM_BYTES
    requires others == Without(Listed(items, startup, env.scan).records, record.id)
    requires kept == Unexpired(Cutoff(policy, env.nowMs), view, self, others)
    ensures
      var plan := UpsertPlan(len, items, view, self, policy, startup, env, offered);
      && (plan == Err(Capacity(LiveRecords)) <==> Hopeless(len, policy, 1, len(record), view, self, kept))
      && (plan.Err? ==> plan == Err(Capacity(LiveRecords)))
      && (plan.Ok? ==> exists k: nat ::
            && ShortestRun(len, policy, 1, len(record), view, self, kept, k)
            && plan.value == WriteEffects(env.temp, record)
                 + Deletes(Ids(Lapsed(Cutoff(policy, env.nowMs), view, self, others)) + Ids(Dead(view, self, kept)[..k]))
                 + [SyncItems])
    ensures Ordered(ByAge, kept)
  {
    var listing := Listed(items, startup, env.scan);
    CleanListingIsWholeDirectory(items, startup, env.scan);
    WithoutOrdered(listing.records, record.id);
    UnexpiredOrdered(Cutoff(policy, env.nowMs), view, self, others);
    SortOrdered(ByUpdated, kept);
    assert kept == Candidates(listing, policy, view, self, env.nowMs, record.id);
    RunLengthExact(len, policy, 1, len(record), view, self, kept, 0);
    LateCheckIsUnreachable(len, items, view, self, policy, startup, env, offered);
  }

  lemma OrderedCons(leq: (Record, Record) -> bool, s: seq<Record>, t: seq<Record>)
    requires s != [] && Ordered(leq, s) && Ordered(leq, t)
    requires forall r :: r in t ==> r in s[1..]
    ensures Ordered(leq, [s[0]] + t)
  {
    forall i | 0 <= i < |t| ensures leq(s[0], t[i]) {
      assert t[i] in s[1..];
      var j :| 0 <= j < |s[1..]| && s[1..][j] == t[i];
      assert s[j + 1] == t[i];
    }
  }

  lemma {:induction false} WithoutOrdered(s: seq<Record>, id: nat)
    requires Ordered(ByAge, s)
    ensures Ordered(ByAge, Without(s, id))
    ensures forall r :: r in Without(s, id) ==> r in s
    ensures forall r :: r in s && r.id != id ==> r in Without(s, id)
  {
    if s != [] {
      WithoutOrdered(s[1..], id);
      OrderedCons(ByAge, s, Without(s[1..], id));
    }
  }

  lemma {:induction false} UnexpiredOrdered(cutoff: Option<nat>, view: Markers, self: nat, s: seq<Record>)
    requires Ordered(ByAge, s)
    ensures Ordered(ByAge, Unexpired(cutoff, view, self, s))
    ensures Ordered(ByUpdated, Unexpired(cutoff, view, self, s))
    ensures forall r :: r in Unexpired(cutoff, view, self, s) ==> r in s
  {
    if s != [] {
      UnexpiredOrdered(cutoff, view, self, s[1..]);
      OrderedCons(ByAge, s, Unexpired(cutoff, view, self, s[1..]));
    }
  }

  /** The same for a prune: the victims are the expired dead records and then the
      shortest oldest-first run of the other dead records after which both limits
      hold; it is refused exactly when losing every dead record would not do. */
  lemma PruneEvictsExactly(
    len: Encoder, items: Items, view: Markers, self: nat, policy: Retention, startup: Option<Issue>, env: Env,
    records: seq<Record>, kept: seq<Record>)
    requires Scannable(items, env) && Clean(Listed(items, startup, env.scan))
    requires records == Listed(items, startup, env.scan).records
    requires kept == Unexpired(Cutoff(policy, env.nowMs), view, self, records)
    ensures
      var plan := PrunePlan(len, items, view, self, policy, startup, env);
      var lapsed := Ids(Lapsed(Cutoff(policy, env.nowMs), view, self, records));
      && (plan == Err(Capacity(LiveRecords)) <==> Hopeless(len, policy, 0, 0, view, self, kept))
      && (plan.Err? ==> plan == Err(Capacity(LiveRecords)))
      && (plan.Ok? ==> exists k: nat ::
            && ShortestRun(len, policy, 0, 0, view, self, kept, k)
            && var victims := lapsed + Ids(Dead(view, self, kept)[..k]);
               plan.value == Deletes(victims) + if victims == [] then [] else [SyncItems])
    ensures Ordered(ByAge, kept)
  {
    hide Sort, Listed, Cutoff, Unexpired, Lapsed, Hopeless, Inventory, Ids;
    CleanListingIsWholeDirectory(items, startup, env.scan);
    UnexpiredOrdered(Cutoff(policy, env.nowMs), view, self, records);
    SortOrdered(ByUpdated, kept);
    RunLengthExact(len, policy, 0, 0, view, self, kept, 0);
  }

  // ----- crash points -----

  predicate SameEntry(before: Items, after: Items, n: Name) {
    (n in before <==> n in after) && (n in before ==> after[n] == before[n])
  }

  /** The directory after a crash that let the first `j` operations happen. */
  function CrashedAt(len: Encoder, items: Items, effects: seq<Effect>, j: nat): Items
    requires j <= |effects|
  {
    ApplyAll(len, items, effects[..j])
  }

  lemma {:induction false} DeletesPrefix(ids: seq<nat>, j: nat)
    requires j <= |ids|
    ensures Deletes(ids)[..j] == Deletes(ids[..j])
  {
    if j != 0 {
      DeletesPrefix(ids[1..], j - 1);
      assert ids[..j][1..] == ids[1..][..j - 1];
    }
  }

  /** A crash anywhere in a save leaves the named record completely old before
      the rename and completely new from the rename on; any other `.json` entry
      is untouched, or is a record of a dead session that has been evicted. */
  lemma UpsertCrashAtomic(
    len: Encoder, items: Items, view: Markers, self: nat, policy: Retention, startup: Option<Issue>, env: Env,
    offered: Record, j: nat, n: Name)
    requires Scannable(items, env) && !n.Other?
    requires UpsertPlan(len, items, view, self, policy, startup, env, offered).Ok?
    requires j <= |UpsertPlan(len, items, view, self, policy, startup, env, offered).value|
    ensures
      var effects := UpsertPlan(len, items, view, self, policy, startup, env, offered).value;
      var after := CrashedAt(len, items, effects, j);
      if n != Item(offered.id) then
        || SameEntry(items, after, n)
        || (n !in after && n in items && ReadRecord(items[n]).Ok?
            && !IsLive(view, self, ReadRecord(items[n]).value.session))
      else if j < 2 then
        SameEntry(items, after, n)
      else
        var record := effects[1].record;
        && n in after && after[n] == Encoded(len, record)
        && record.id == offered.id && record.session == Uuid(self) && record.sourceText == offered.sourceText
  {
    var record, survivors, victims := UpsertDecision(len, items, view, self, policy, startup, env, offered);
    var gone := SavePrefix(len, items, env.temp, record, victims, j);
    var effects := WriteEffects(env.temp, record) + Deletes(victims) + [SyncItems];
    var after := CrashedAt(len, items, effects, j);
    assert n in after <==> n in after - {Other(env.temp)};
    assert forall i :: i in gone ==> i in victims;
  }

  /** Where a crash after `j` operations of a save leaves the directory, its
      temporary aside. */
  lemma SavePrefix(len: Encoder, items: Items, temp: string, record: Record, victims: seq<nat>, j: nat)
    returns (gone: seq<nat>)
    requires Other(temp) !in items && record.id !in victims
    requires j <= |WriteEffects(temp, record) + Deletes(victims) + [SyncItems]|
    ensures gone <= victims && (j < 2 ==> gone == [])
    ensures
      var effects := WriteEffects(temp, record) + Deletes(victims) + [SyncItems];
      && effects[1].Publish? && effects[1].record == record
      && CrashedAt(len, items, effects, j) - {Other(temp)} ==
         (if j < 2 then items else items[Item(record.id) := Encoded(len, record)]) - Names(gone)
  {
    var write := WriteEffects(temp, record);
    var effects := write + Deletes(victims) + [SyncItems];
    assert effects[1] == write[1];
    if j <= 3 {
      gone := [];
      assert effects[..j] == write[..j];
      WritePrefix(len, items, temp, record, j);
      assert Names([]) == {};
    } else {
      var done := Min(j - 3, |victims|);
      gone := victims[..done];
      DeletesPrefix(victims, done);
      var tail: seq<Effect> := if j == |effects| then [SyncItems] else [];
      assert effects[..j] == write + Deletes(gone) + tail;
      ApplyAppend(len, items, write + Deletes(gone), tail);
      ApplyAppend(len, items, write, Deletes(gone));
      ApplyWrite(len, items, temp, record);
      var written := items[Item(record.id) := Encoded(len, record)];
      ApplyDeletes(len, written, gone);
      ApplySync(len, written - Names(gone));
      assert ApplyAll(len, items, effects[..j]) == written - Names(gone);
      assert Other(temp) !in written - Names(gone);
      assert written - Names(gone) - {Other(temp)} == written - Names(gone);
    }
  }

  lemma WritePrefix(len: Encoder, items: Items, temp: string, record: Record, j: nat)
    requires Other(temp) !in items && j <= 3
    ensures
      var after := ApplyAll(len, items, WriteEffects(temp, record)[..j]);
      after - {Other(temp)} == if j < 2 then items else items[Item(record.id) := Encoded(len, record)]
  {
    var w := WriteEffects(temp, record);
    if j == 0 {
      assert w[..0] == [];
    } else if j == 1 {
      assert w[..1] == [w[0]];
      assert [w[0]][1..] == [];
    } else {
      ApplyWrite(len, items, temp, record);
      assert w[..3] == w && w == w[..2] + [SyncItems];
      ApplyAppend(len, items, w[..2], [SyncItems]);
      ApplySync(len, ApplyAll(len, items, w[..2]));
    }
  }
}

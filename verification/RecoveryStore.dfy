/** The crash-recovery store as the objects that share one directory. */
module RecoveryStore {
  import opened Wrappers
  import opened RecoveryTypes
  import opened RecoveryScan
  import opened RecoveryPolicy
  import opened RecoveryPlan
  import opened RecoveryOutcome

  /** The directory left by `effects` when the file system completes `budget`
      operations before one fails. */
  function Outcome(len: Encoder, items: Items, effects: seq<Effect>, budget: nat): Items {
    if budget >= |effects| then ApplyAll(len, items, effects)
    else Abandon(ApplyAll(len, items, effects[..budget]), effects[budget])
  }

  /** The directory after carrying out a plan, if there is one. */
  function Carried(len: Encoder, items: Items, plan: Result<seq<Effect>, Error>, budget: nat): Items {
    if plan.Ok? then Outcome(len, items, plan.value, budget) else items
  }

  function Verdict(plan: Result<seq<Effect>, Error>, budget: nat): Result<(), Error> {
    match plan
    case Err(error) => Err(error)
    case Ok(effects) => if budget >= |effects| then Ok(()) else Err(Io)
  }

  /** What the iterator over the marker directory passes: a marker, which may refuse
      to be removed, some other file, or a failure. */
  datatype Passed = Named(n: nat, removable: bool) | Stray | Broken

  datatype Sweep = Sweep(r: Result<(), Error>, markers: Markers)

  function SweepFrom(markers: Markers, entries: seq<Passed>, count: nat, changed: bool, synced: bool): Sweep
    decreases |entries|
  {
    if entries == [] then Sweep(if changed && !synced then Err(Io) else Ok(()), markers)
    else if count + 1 > MAX_SCAN_ENTRIES then Sweep(Err(Capacity(TooManyMarkers)), markers)
    else
      match entries[0]
      case Broken => Sweep(Err(Io), markers)
      case Stray => SweepFrom(markers, entries[1..], count + 1, changed, synced)
      case Named(n, removable) =>
        if n !in markers || !markers[n].Released? then SweepFrom(markers, entries[1..], count + 1, changed, synced)
        else if !removable then Sweep(Err(Io), markers)
        else SweepFrom(markers - {n}, entries[1..], count + 1, true, synced)
  }

  predicate PassedBy(entries: seq<Passed>, n: nat) {
    exists i :: 0 <= i < |entries| && entries[i].Named? && entries[i].n == n
  }

  /** The markers once every dead session's marker that was passed is removed. */
  function Swept(markers: Markers, entries: seq<Passed>): Markers {
    map n | n in markers && !(PassedBy(entries, n) && markers[n].Released?) :: markers[n]
  }

  /** The iterator fails here, or a dead session's marker, met for the first time,
      cannot be removed. */
  predicate Stops(markers: Markers, entries: seq<Passed>, i: nat)
    requires i < |entries|
  {
    || entries[i].Broken?
    || (entries[i].Named? && !entries[i].removable && !PassedBy(entries[..i], entries[i].n)
        && entries[i].n in markers && markers[entries[i].n].Released?)
  }

  /** A sweep removes exactly the dead sessions' markers that it passes before it stops:
      at the first entry that stops it, at the entry cap, or at the end. It answers Ok
      exactly when it came to the end and what it removed, if anything, was synced. */
  lemma {:induction false} SweepExactly(markers: Markers, entries: seq<Passed>, count: nat, changed: bool, synced: bool)
    returns (p: nat)
    requires count <= MAX_SCAN_ENTRIES
    ensures p <= |entries| && count + p <= MAX_SCAN_ENTRIES && (forall i :: 0 <= i < p ==> !Stops(markers, entries, i))
    ensures p < |entries| ==> Stops(markers, entries, p) || count + p == MAX_SCAN_ENTRIES
    ensures
      var after := SweepFrom(markers, entries, count, changed, synced);
      && after.markers == Swept(markers, entries[..p])
      && (after.r.Ok? <==> p == |entries| && (changed || after.markers != markers ==> synced))
      && (after.r.Err? ==>
            after.r.error ==
            if p < |entries| && count + p == MAX_SCAN_ENTRIES then Capacity(TooManyMarkers) else Io)
    decreases |entries|
  {
    SweptNothing(markers);
    if entries == [] || count + 1 > MAX_SCAN_ENTRIES || Stops(markers, entries, 0) {
      p := 0;
    } else {
      var first, rest := entries[0], entries[1..];
      var removes := first.Named? && first.n in markers && markers[first.n].Released?;
      var left := if removes then markers - {first.n} else markers;
      var q := SweepExactly(left, rest, count + 1, changed || removes, synced);
      p := q + 1;
      SweptStep(markers, entries, p);
      forall i | 0 < i < |entries| ensures Stops(markers, entries, i) <==> Stops(left, rest, i - 1) {
        StopsStep(markers, entries, i);
      }
    }
  }

  lemma SweptNothing(markers: Markers)
    ensures Swept(markers, []) == markers
  {
  }

  lemma SweptStep(markers: Markers, entries: seq<Passed>, p: nat)
    requires 0 < p <= |entries|
    ensures
      var first := entries[0];
      var removes := first.Named? && first.n in markers && markers[first.n].Released?;
      var left := if removes then markers - {first.n} else markers;
      && Swept(markers, entries[..p]) == Swept(left, entries[1..][..p - 1])
      && (removes ==> first.n !in Swept(markers, entries[..p]))
  {
    assert entries[..p][1..] == entries[1..][..p - 1];
    PassedByRest(entries[..p]);
  }

  lemma StopsStep(markers: Markers, entries: seq<Passed>, i: nat)
    requires 0 < i < |entries|
    ensures
      var first := entries[0];
      var removes := first.Named? && first.n in markers && markers[first.n].Released?;
      var left := if removes then markers - {first.n} else markers;
      Stops(markers, entries, i) <==> Stops(left, entries[1..], i - 1)
  {
    assert entries[..i][1..] == entries[1..][..i - 1];
    PassedByRest(entries[..i]);
  }

  lemma PassedByRest(entries: seq<Passed>)
    requires entries != []
    ensures forall n :: PassedBy(entries, n) <==> (entries[0].Named? && entries[0].n == n) || PassedBy(entries[1..], n)
  {
    forall n ensures PassedBy(entries, n) <==> (entries[0].Named? && entries[0].n == n) || PassedBy(entries[1..], n) {
      if PassedBy(entries[1..], n) {
        var i :| 0 <= i < |entries[1..]| && entries[1..][i].Named? && entries[1..][i].n == n;
        assert entries[i + 1].Named? && entries[i + 1].n == n;
      }
      if PassedBy(entries, n) && !(entries[0].Named? && entries[0].n == n) {
        var i :| 0 <= i < |entries| && entries[i].Named? && entries[i].n == n;
        assert entries[1..][i - 1].Named? && entries[1..][i - 1].n == n;
      }
    }
  }

  /** The record and marker directories shared by every window. */
  class Disk {
    var items: Items
    var markers: Markers
    /** The mutation lock is taken by some other window. */
    var mutationHeld: bool

    constructor ()
      ensures items == map[] && markers == map[] && !mutationHeld
    {
      items, markers, mutationHeld := map[], map[], false;
    }

    /** Remove the markers of dead sessions. Too many entries, a failing iterator or
        a marker that cannot be removed stop the sweep where it is. */
    method SweepStale(entries: seq<Passed>, synced: bool) returns (r: Result<(), Error>)
      modifies this`markers
      ensures Sweep(r, markers) == SweepFrom(old(markers), entries, 0, false, synced)
    {
      var changed := false;
      ghost var goal := SweepFrom(markers, entries, 0, false, synced);
      assert entries[0..] == entries;
      for i := 0 to |entries|
        invariant SweepFrom(markers, entries[i..], i, changed, synced) == goal
      {
        assert entries[i..][0] == entries[i] && entries[i..][1..] == entries[i + 1..];
        if i + 1 > MAX_SCAN_ENTRIES {
          return Err(Capacity(TooManyMarkers));
        }
        match entries[i] {
          case Broken => return Err(Io);
          case Stray =>
          case Named(n, removable) =>
            if n in markers && markers[n].Released? {
              if !removable {
                return Err(Io);
              }
              markers := markers - {n};
              changed := true;
            }
        }
      }
      assert entries[|entries|..] == [];
      if changed && !synced {
        return Err(Io);
      }
      r := Ok(());
    }
  }

  /** One window's handle on the recovery directory. */
  class Store {
    const disk: Disk
    const session: nat
    const len: Encoder
    var retention: Retention
    var startupIssue: Option<Issue>

    constructor (disk: Disk, session: nat, len: Encoder, retention: Retention)
      ensures this.disk == disk && this.session == session && this.len == len
      ensures this.retention == retention && startupIssue == None
    {
      this.disk, this.session, this.len := disk, session, len;
      this.retention, startupIssue := retention, None;
    }

    /** The listing loop: every entry is looked at until a budget stops it. */
    method List(scan: Option<seq<Seen>>) returns (listing: Listing)
      requires Enumerates(disk.items, scan)
      ensures listing == Listed(disk.items, startupIssue, scan)
    {
      hide Inspect, AddIssue, Sort;
      listing := Listing([], [], true);
      if startupIssue.Some? {
        listing := AddIssue(listing, startupIssue.value);
      }
      if scan.None? {
        listing := AddIssue(listing, Issue(Storage(Unreadable), None)).(complete := false);
        return;
      }
      var seen := scan.value;
      var bytes: nat := 0;
      var i := 0;
      ghost var raw := ScanFrom(disk.items, seen, 0, 0, listing);
      while i < |seen|
        invariant 0 <= i <= |seen| && i <= MAX_SCAN_ENTRIES
        invariant ScanFrom(disk.items, seen[i..], i, bytes, listing) == raw
      {
        assert seen[i..][1..] == seen[i + 1..];
        if i + 1 > MAX_SCAN_ENTRIES {
          listing := AddIssue(listing.(complete := false), Issue(Storage(Oversized), None));
          break;
        }
        match seen[i] {
          case Fault =>
            listing := AddIssue(listing, Issue(Storage(Unreadable), None));
          case Found(name) =>
            if !name.Other? {
              match disk.items[name] {
                case Hidden =>
                  listing := AddIssue(listing, Issue(Storage(Unreadable), Some(name)));
                case Irregular =>
                  listing := AddIssue(listing, Issue(Storage(UnsafePath), Some(name)));
                case File(size, _) =>
                  if bytes + size > MAX_SCAN_BYTES {
                    listing := AddIssue(listing.(complete := false), Issue(Storage(Oversized), Some(name)));
                    break;
                  }
                  bytes := bytes + size;
                  listing := Inspect(disk.items[name], name, listing);
              }
            }
        }
        i := i + 1;
      }
      assert listing == raw;
      listing := listing.(records := Sort(ByAge, listing.records));
    }

    /** Carry a decision out, one durable operation at a time. */
    method Commit(effects: seq<Effect>, budget: nat) returns (r: Result<(), Error>)
      modifies disk`items
      ensures disk.items == Outcome(len, old(disk.items), effects, budget)
      ensures r == Verdict(Ok(effects), budget)
    {
      ghost var before := disk.items;
      for i := 0 to |effects|
        invariant i <= budget
        invariant disk.items == ApplyAll(len, before, effects[..i])
      {
        if i == budget {
          disk.items := Abandon(disk.items, effects[i]);
          return Err(Io);
        }
        ApplyAppend(len, before, effects[..i], [effects[i]]);
        assert effects[..i + 1] == effects[..i] + [effects[i]];
        assert [effects[i]][1..] == [];
        disk.items := Apply(len, disk.items, effects[i]);
      }
      assert effects[..|effects|] == effects;
      r := Ok(());
    }

    /** Decide what saving a record takes, under the mutation lock. */
    method DecideUpsert(offered: Record, env: Env) returns (r: Result<seq<Effect>, Error>)
      requires Scannable(disk.items, env)
      ensures r == UpsertPlan(len, disk.items, disk.markers, session, retention, startupIssue, env, offered)
    {
      hide Sort, Listed, Without, ReadExisting, ApplyAll, Cutoff, HasStorageIssue, IsLive;
      var limit := Min(retention.maxItemBytes, HARD_MAX_ITEM_BYTES);
      var record := offered.(session := Uuid(session), updatedMs := env.stampMs);
      var existing := ReadExisting(disk.items, record.id);
      if existing.Err? {
        return Err(existing.error);
      }
      if existing.value.Some? {
        var before := existing.value.value;
        if before.session != Uuid(session) && IsLive(disk.markers, session, before.session) {
          return Err(OwnedByLiveSession);
        }
        record := record.(createdMs := before.createdMs);
      } else if record.createdMs == 0 {
        record := record.(createdMs := record.updatedMs);
      }
      var bytes := len(record);
      if bytes > limit {
        return Err(ItemTooLarge(bytes, limit));
      }
      var listing := List(env.scan);
      if !listing.complete || HasStorageIssue(listing) {
        return Err(Capacity(Uninspected));
      }
      var retained := Without(listing.records, record.id);
      var expired: seq<nat>;
      retained, expired := RetainUnexpired(Cutoff(retention, env.nowMs), disk.markers, session, retained);
      retained := Sort(ByUpdated, retained);
      var evicted := EvictOldestDead(len, retention, 1, bytes, disk.markers, session, retained);
      if evicted.None? {
        return Err(Capacity(LiveRecords));
      }
      if retention.maxRecords == 0 || bytes > retention.maxTotalBytes {
        return Err(Capacity(CannotHold));
      }
      return Ok(WriteEffects(env.temp, record) + Deletes(expired + evicted.value) + [SyncItems]);
    }

    /** Save one record. A refusal leaves the directory as it was; success leaves the
        record, as saved, in a directory otherwise thinned to the limits. */
    method Upsert(offered: Record, env: Env, budget: nat) returns (r: Result<(), Error>)
      requires Scannable(disk.items, env)
      modifies disk`items, this`startupIssue
      ensures old(disk.mutationHeld) ==> r == Err(Busy) && disk.items == old(disk.items)
      ensures !old(disk.mutationHeld) ==>
                var plan := UpsertPlan(
                  len, old(disk.items), disk.markers, session, retention, old(startupIssue), env, offered);
                && r == Verdict(plan, budget)
                && disk.items == Carried(len, old(disk.items), plan, budget)
                && (plan.Err? ==> disk.items == old(disk.items))
      ensures r.Ok? ==>
                && Item(offered.id) in disk.items
                && disk.items[Item(offered.id)].File? && disk.items[Item(offered.id)].body.Decoded?
                && var record := disk.items[Item(offered.id)].body.record;
                   && SavedFrom(old(disk.items), session, env.stampMs, offered, record)
                   && disk.items[Item(offered.id)].size == len(record)
                   && Thinned(len, With(len, old(disk.items), record), disk.items,
                              disk.markers, session, retention, env.nowMs)
      ensures startupIssue == if r.Ok? then None else old(startupIssue)
    {
      hide UpsertPlan, Thinned, SavedFrom;
      if disk.mutationHeld {
        return Err(Busy);
      }
      var plan := DecideUpsert(offered, env);
      if plan.Err? {
        return Err(plan.error);
      }
      ghost var record := AcceptedRecord(
        len, disk.items, disk.markers, session, retention, startupIssue, env, offered);
      SaveThins(len, disk.items, disk.markers, session, retention, startupIssue, env, offered, record);
      r := Commit(plan.value, budget);
      if r.Ok? {
        startupIssue := None;
      }
    }

    method Prune(env: Env, budget: nat) returns (r: Result<(), Error>)
      requires Scannable(disk.items, env)
      modifies disk`items
      ensures old(disk.mutationHeld) ==> r == Err(Busy) && disk.items == old(disk.items)
      ensures !old(disk.mutationHeld) ==>
                var plan := PrunePlan(len, old(disk.items), disk.markers, session, retention, startupIssue, env);
                && r == Verdict(plan, budget)
                && disk.items == Carried(len, old(disk.items), plan, budget)
                && (plan.Err? ==> disk.items == old(disk.items))
      ensures r.Ok? ==>
                Thinned(len, old(disk.items), disk.items, disk.markers, session, retention, env.nowMs)
    {
      hide Thinned;
      if disk.mutationHeld {
        return Err(Busy);
      }
      var listing := List(env.scan);
      if !listing.complete || HasStorageIssue(listing) {
        return Err(Capacity(Uninspected));
      }
      var retained, expired :=
        RetainUnexpired(Cutoff(retention, env.nowMs), disk.markers, session, listing.records);
      retained := Sort(ByUpdated, retained);
      var evicted := EvictOldestDead(len, retention, 0, 0, disk.markers, session, retained);
      if evicted.None? {
        return Err(Capacity(LiveRecords));
      }
      var victims := expired + evicted.value;
      PruneThins(len, disk.items, disk.markers, session, retention, startupIssue, env);
      r := Commit(Deletes(victims) + if victims == [] then [] else [SyncItems], budget);
    }

    /** Adopt new limits, or keep the old ones when the store cannot meet them. */
    method SetRetention(policy: Retention, env: Env, budget: nat) returns (r: Result<(), Error>)
      requires Scannable(disk.items, env)
      modifies disk`items, this`retention, this`startupIssue
      ensures r == Err(InvalidRetention) <==>
                || policy.maxRecords > 2048
                || policy.maxItemBytes == 0 || policy.maxItemBytes > 64 * 1024 * 1024
                || policy.maxTotalBytes == 0 || policy.maxTotalBytes > 128 * 1024 * 1024
      ensures !ValidRetention(policy) ==> r == Err(InvalidRetention) && disk.items == old(disk.items)
      ensures r.Ok? ==> retention == policy && startupIssue == None
      ensures r.Ok? ==> Thinned(len, old(disk.items), disk.items, disk.markers, session, policy, env.nowMs)
      ensures r.Err? ==> retention == old(retention) && startupIssue == old(startupIssue)
      ensures ValidRetention(policy) && !old(disk.mutationHeld) ==>
                var plan := PrunePlan(len, old(disk.items), disk.markers, session, policy, old(startupIssue), env);
                r == Verdict(plan, budget) && disk.items == Carried(len, old(disk.items), plan, budget)
    {
      if !ValidRetention(policy) {
        return Err(InvalidRetention);
      }
      var previous := retention;
      retention := policy;
      r := Prune(env, budget);
      if r.Err? {
        retention := previous;
      } else {
        startupIssue := None;
      }
    }

    method Remove(id: nat, budget: nat) returns (r: Result<bool, Error>)
      modifies disk`items
      ensures old(disk.mutationHeld) ==> r == Err(Busy) && disk.items == old(disk.items)
      ensures !old(disk.mutationHeld) ==>
                var plan := RemovePlan(old(disk.items), disk.markers, session, id);
                && disk.items == Carried(len, old(disk.items), plan, budget)
                && (r.Ok? <==> Verdict(plan, budget).Ok?)
                && (r.Err? ==> r.error == Verdict(plan, budget).error)
                && (r.Ok? ==> (r.value <==> ReadExisting(old(disk.items), id).value.Some?))
      ensures r.Ok? && r.value ==> Item(id) in old(disk.items) && disk.items == old(disk.items) - {Item(id)}
      ensures r.Ok? && !r.value ==> disk.items == old(disk.items)
    {
      if disk.mutationHeld {
        return Err(Busy);
      }
      var existing := ReadExisting(disk.items, id);
      if existing.Err? {
        return Err(existing.error);
      }
      if existing.value.None? {
        return Ok(false);
      }
      var owner := existing.value.value.session;
      if owner != Uuid(session) && IsLive(disk.markers, session, owner) {
        return Err(OwnedByLiveSession);
      }
      ApplySync(len, disk.items - {Item(id)});
      assert [Delete(id), SyncItems][1..] == [SyncItems];
      var done := Commit([Delete(id), SyncItems], budget);
      r := if done.Ok? then Ok(true) else Err(done.error);
    }

    /** Take over a dead session's record. */
    method Claim(id: nat, env: Env, budget: nat) returns (r: Result<Option<Record>, Error>)
      requires Scannable(disk.items, env)
      modifies disk`items
      ensures old(disk.mutationHeld) ==> r == Err(Busy) && disk.items == old(disk.items)
      ensures !old(disk.mutationHeld) ==>
                var plan := ClaimPlan(old(disk.items), disk.markers, session, env, id);
                && disk.items == Carried(len, old(disk.items), plan, budget)
                && (r.Ok? <==> Verdict(plan, budget).Ok?)
                && (r.Err? ==> r.error == Verdict(plan, budget).error)
      ensures r.Ok? && r.value.None? ==> disk.items == old(disk.items)
      ensures r.Ok? && r.value.Some? ==>
                var record := r.value.value;
                && record.id == id && record.session == Uuid(session) && record.updatedMs == env.stampMs
                && disk.items == old(disk.items)[Item(id) := Encoded(len, record)]
                && ReadExisting(old(disk.items), id).Ok?
                && ReadExisting(old(disk.items), id).value ==
                   Some(record.(session := ReadExisting(old(disk.items), id).value.value.session,
                                updatedMs := ReadExisting(old(disk.items), id).value.value.updatedMs))
    {
      if disk.mutationHeld {
        return Err(Busy);
      }
      var existing := ReadExisting(disk.items, id);
      if existing.Err? {
        return Err(existing.error);
      }
      if existing.value.None? {
        return Ok(None);
      }
      var record := existing.value.value;
      if record.id != id {
        return Err(IdentityMismatch);
      }
      if record.session != Uuid(session) && IsLive(disk.markers, session, record.session) {
        return Err(OwnedByLiveSession);
      }
      record := record.(session := Uuid(session), updatedMs := env.stampMs);
      ApplyWrite(len, disk.items, env.temp, record);
      var done := Commit(WriteEffects(env.temp, record), budget);
      r := if done.Ok? then Ok(Some(record)) else Err(done.error);
    }

    /** Give up the session: its marker is unlocked and then, if possible, gone. */
    method Close(removed: bool)
      modifies disk`markers
      ensures disk.markers ==
              if removed then old(disk.markers) - {session} else old(disk.markers)[session := Released]
    {
      disk.markers := disk.markers[session := Released];
      if removed {
        disk.markers := disk.markers - {session};
      }
    }
  }

  /** How creating the session's own marker goes: it may fail before there is a
      file, or leave one that nobody holds. */
  datatype Marking = Marked | NotCreated | LeftUnlocked

  /** The directory once an opening session has pruned it, unless another window
      took the mutation lock first. */
  function Pruned(
    len: Encoder, items: Items, markers: Markers, session: nat, policy: Retention, env: Env, budget: nat, contended: bool)
    : Items
    requires Scannable(items, env)
  {
    if contended then items else Carried(len, items, PrunePlan(len, items, markers, session, policy, None, env), budget)
  }

  /** Start a session: sweep dead markers, publish a locked marker under a fresh
      name, then prune to policy. The lock taken for the first two is let go before the
      prune takes it again; `contended` says that another window took it in between, so
      that the prune finds it busy. A prune that fails for any reason, unless the store
      is damaged, is remembered as a startup issue. */
  method Open(
    disk: Disk, policy: Retention, session: nat, len: Encoder, entries: seq<Passed>, synced: bool, marking: Marking,
    contended: bool, env: Env, budget: nat, again: Option<seq<Seen>>)
    returns (r: Result<Store, Error>)
    requires session !in disk.markers
    requires Scannable(disk.items, env)
    requires
      var marked := SweepFrom(disk.markers, entries, 0, false, synced).markers[session := Held];
      Enumerates(Pruned(len, disk.items, marked, session, policy, env, budget, contended), again)
    modifies disk`items, disk`markers
    ensures
      var sweep := SweepFrom(old(disk.markers), entries, 0, false, synced);
      && (r.Ok? <==> ValidRetention(policy) && !old(disk.mutationHeld) && sweep.r.Ok? && marking.Marked?)
      && (r.Err? ==> disk.items == old(disk.items))
      && (r.Err? ==>
            || disk.markers == old(disk.markers) || disk.markers == sweep.markers
            || disk.markers == sweep.markers[session := Released])
      && (r.Ok? ==> disk.markers == sweep.markers[session := Held])
    ensures r.Ok? ==>
              && fresh(r.value)
              && r.value.disk == disk && r.value.session == session && r.value.len == len && r.value.retention == policy
              && disk.items == Pruned(len, old(disk.items), disk.markers, session, policy, env, budget, contended)
    ensures r.Ok? && contended ==> disk.items == old(disk.items)
    ensures r.Ok? && !contended ==>
              var plan := PrunePlan(len, old(disk.items), disk.markers, session, policy, None, env);
              && disk.items == Carried(len, old(disk.items), plan, budget)
              && (Verdict(plan, budget).Ok? ==>
                    Thinned(len, old(disk.items), disk.items, disk.markers, session, policy, env.nowMs))
    ensures r.Ok? ==>
              var plan := PrunePlan(len, old(disk.items), disk.markers, session, policy, None, env);
              r.value.startupIssue ==
              if (!contended && Verdict(plan, budget).Ok?) || HasStorageIssue(Listed(disk.items, None, again)) then None
              else Some(Issue(RetentionIssue, None))
    ensures r.Ok? && r.value.startupIssue == None && Clean(Listed(disk.items, None, again)) ==>
              Thinned(len, old(disk.items), disk.items, disk.markers, session, policy, env.nowMs)
  {
    hide SweepFrom, PrunePlan, WithinLimits, Listed, Thinned;
    if !ValidRetention(policy) {
      return Err(InvalidRetention);
    }
    if disk.mutationHeld {
      return Err(Busy);
    }
    var swept := disk.SweepStale(entries, synced);
    if swept.Err? {
      return Err(swept.error);
    }
    match marking {
      case NotCreated => return Err(Io);
      case LeftUnlocked =>
        disk.markers := disk.markers[session := Released];
        return Err(Io);
      case Marked => disk.markers := disk.markers[session := Held];
    }
    var store := new Store(disk, session, len, policy);
    var pruned: Result<(), Error>;
    if contended {
      pruned := Err(Busy);
    } else {
      pruned := store.Prune(env, budget);
    }
    if pruned.Err? {
      var listing := store.List(again);
      if !HasStorageIssue(listing) {
        store.startupIssue := Some(Issue(RetentionIssue, None));
      }
    }
    r := Ok(store);
  }
}

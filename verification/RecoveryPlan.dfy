/** The reading half of each store operation, as the directory operations it
    decides on, and what carrying those out does to the directory. */
module RecoveryPlan {
  import opened Wrappers
  import opened RecoveryTypes
  import opened RecoveryScan
  import opened RecoveryPolicy

  /** One durable directory operation. `Publish` renames the staged temporary
      over the record's own name. */
  datatype Effect =
    | Stage(temp: string)
    | Publish(temp: string, record: Record)
    | Delete(id: nat)
    | SyncItems

  /** What an operation meets while it holds the mutation lock: the directory
      iterator, two clock readings, and a fresh temporary name. */
  datatype Env = Env(scan: Option<seq<Seen>>, stampMs: nat, nowMs: nat, temp: string)

  function Encoded(len: Encoder, record: Record): Entry {
    File(len(record), Decoded(record))
  }

  function Apply(len: Encoder, items: Items, effect: Effect): Items {
    match effect
    case Stage(temp) => items[Other(temp) := File(0, Undecodable(Corrupt))]
    case Publish(temp, record) => (items - {Other(temp)})[Item(record.id) := Encoded(len, record)]
    case Delete(id) => items - {Item(id)}
    case SyncItems => items
  }

  function ApplyAll(len: Encoder, items: Items, effects: seq<Effect>): Items
    decreases |effects|
  {
    if effects == [] then items else ApplyAll(len, Apply(len, items, effects[0]), effects[1..])
  }

  /** The directory after an operation stopped on a failing effect, with its
      temporary removed. */
  function Abandon(items: Items, failed: Effect): Items {
    match failed
    case Stage(temp) => items - {Other(temp)}
    case Publish(temp, _) => items - {Other(temp)}
    case _ => items
  }

  function Deletes(ids: seq<nat>): (effects: seq<Effect>)
    ensures |effects| == |ids|
    ensures forall i :: 0 <= i < |ids| ==> effects[i] == Delete(ids[i])
  {
    if ids == [] then [] else [Delete(ids[0])] + Deletes(ids[1..])
  }

  function Without(records: seq<Record>, id: nat): seq<Record> {
    if records == [] then []
    else if records[0].id == id then Without(records[1..], id)
    else [records[0]] + Without(records[1..], id)
  }

  function Min(a: nat, b: nat): nat { if a <= b then a else b }

  /** The record a save would write: owner and times are the store's. */
  function Stamped(existing: Option<Record>, offered: Record, self: nat, stampMs: nat): Record {
    var r := offered.(session := Uuid(self), updatedMs := stampMs);
    match existing
    case Some(before) => r.(createdMs := before.createdMs)
    case None => if r.createdMs == 0 then r.(createdMs := stampMs) else r
  }

  predicate ForeignLive(existing: Option<Record>, view: Markers, self: nat) {
    && existing.Some?
    && existing.value.session != Uuid(self)
    && IsLive(view, self, existing.value.session)
  }

  /** The records eviction may draw on: not the target, not expired. */
  function Candidates(
    listing: Listing, policy: Retention, view: Markers, self: nat, nowMs: nat, target: nat): seq<Record>
  {
    Sort(ByUpdated, Unexpired(Cutoff(policy, nowMs), view, self, Without(listing.records, target)))
  }

  function WriteEffects(temp: string, record: Record): seq<Effect> {
    [Stage(temp), Publish(temp, record), SyncItems]
  }

  ghost predicate Scannable(items: Items, env: Env) {
    && Enumerates(items, env.scan)
    && Other(env.temp) !in items
  }

  function UpsertPlan(
    len: Encoder, items: Items, view: Markers, self: nat, policy: Retention, startup: Option<Issue>, env: Env,
    offered: Record)
    : Result<seq<Effect>, Error>
    requires Scannable(items, env)
  {
    match ReadExisting(items, offered.id)
    case Err(error) => Err(error)
    case Ok(existing) =>
      if ForeignLive(existing, view, self) then Err(OwnedByLiveSession)
      else
        var record := Stamped(existing, offered, self, env.stampMs);
        var need := len(record);
        var limit := Min(policy.maxItemBytes, HARD_MAX_ITEM_BYTES);
        if need > limit then Err(ItemTooLarge(need, limit))
        else
          var listing := Listed(items, startup, env.scan);
          if !Clean(listing) then Err(Capacity(Uninspected))
          else
            var others := Without(listing.records, record.id);
            var kept := Candidates(listing, policy, view, self, env.nowMs, record.id);
            match RunLength(len, policy, 1, need, view, self, kept, 0)
            case None => Err(Capacity(LiveRecords))
            case Some(k) =>
              if policy.maxRecords == 0 || need > policy.maxTotalBytes then Err(Capacity(CannotHold))
              else
                var victims := Ids(Lapsed(Cutoff(policy, env.nowMs), view, self, others))
                               + Ids(Dead(view, self, kept)[..k]);
                Ok(WriteEffects(env.temp, record) + Deletes(victims) + [SyncItems])
  }

  function PrunePlan(
    len: Encoder, items: Items, view: Markers, self: nat, policy: Retention, startup: Option<Issue>, env: Env)
    : Result<seq<Effect>, Error>
    requires Scannable(items, env)
  {
    var listing := Listed(items, startup, env.scan);
    if !Clean(listing) then Err(Capacity(Uninspected))
    else
      var cutoff := Cutoff(policy, env.nowMs);
      var kept := Sort(ByUpdated, Unexpired(cutoff, view, self, listing.records));
      match RunLength(len, policy, 0, 0, view, self, kept, 0)
      case None => Err(Capacity(LiveRecords))
      case Some(k) =>
        var victims := Ids(Lapsed(cutoff, view, self, listing.records)) + Ids(Dead(view, self, kept)[..k]);
        Ok(Deletes(victims) + if victims == [] then [] else [SyncItems])
  }

  /** No effects means the record was already gone. */
  function RemovePlan(items: Items, view: Markers, self: nat, id: nat): Result<seq<Effect>, Error> {
    match ReadExisting(items, id)
    case Err(error) => Err(error)
    case Ok(None) => Ok([])
    case Ok(Some(record)) =>
      if ForeignLive(Some(record), view, self) then Err(OwnedByLiveSession) else Ok([Delete(id), SyncItems])
  }

  /** No effects means there was nothing to claim. */
  function ClaimPlan(items: Items, view: Markers, self: nat, env: Env, id: nat): Result<seq<Effect>, Error> {
    match ReadExisting(items, id)
    case Err(error) => Err(error)
    case Ok(None) => Ok([])
    case Ok(Some(record)) =>
      if record.id != id then Err(IdentityMismatch)
      else if ForeignLive(Some(record), view, self) then Err(OwnedByLiveSession)
      else Ok(WriteEffects(env.temp, record.(session := Uuid(self), updatedMs := env.stampMs)))
  }

  // ----- whole-directory limits -----

  /** Every `.json` entry that can be read back, under its name. */
  ghost function Catalogue(items: Items): map<Name, Record> {
    map n | n in items && !n.Other? && items[n].File? && items[n].body.Decoded? :: items[n].body.record
  }

  ghost function TotalBytes(len: Encoder, m: map<Name, Record>): nat
    decreases |m|
  {
    if m == map[] then 0
    else
      var n :| n in m;
      len(m[n]) + TotalBytes(len, m - {n})
  }

  /** Every `.json` entry is a readable record, and together they respect the
      record and byte limits. */
  ghost predicate WithinLimits(len: Encoder, items: Items, policy: Retention) {
    && Sound(items)
    && |Catalogue(items)| <= policy.maxRecords
    && TotalBytes(len, Catalogue(items)) <= policy.maxTotalBytes
  }

  lemma {:induction false} TotalBytesWithout(len: Encoder, m: map<Name, Record>, n: Name)
    requires n in m
    ensures TotalBytes(len, m) == len(m[n]) + TotalBytes(len, m - {n})
    decreases |m|
  {
    var p :| p in m && TotalBytes(len, m) == len(m[p]) + TotalBytes(len, m - {p});
    if p != n {
      TotalBytesWithout(len, m - {p}, n);
      TotalBytesWithout(len, m - {n}, p);
      assert m - {p} - {n} == m - {n} - {p};
    }
  }

  ghost predicate Indexes(m: map<Name, Record>, records: seq<Record>) {
    && (forall i :: 0 <= i < |records| ==> Item(records[i].id) in m && m[Item(records[i].id)] == records[i])
    && (forall i, j :: 0 <= i < j < |records| ==> records[i].id != records[j].id)
    && (forall n :: n in m ==> exists i :: 0 <= i < |records| && Item(records[i].id) == n)
  }

  lemma IndexRest(m: map<Name, Record>, records: seq<Record>)
    requires Indexes(m, records) && records != []
    ensures Item(records[0].id) in m && m[Item(records[0].id)] == records[0]
    ensures Indexes(m - {Item(records[0].id)}, records[1..])
  {
    var n, rest := Item(records[0].id), records[1..];
    forall p | p in m - {n} ensures exists i :: 0 <= i < |rest| && Item(rest[i].id) == p {
      var i :| 0 <= i < |records| && Item(records[i].id) == p;
      assert rest[i - 1] == records[i];
    }
  }

  lemma NothingIndexed(m: map<Name, Record>)
    requires Indexes(m, [])
    ensures m == map[]
  {
  }

  lemma {:induction false} IndexTotals(len: Encoder, m: map<Name, Record>, records: seq<Record>)
    requires Indexes(m, records)
    ensures |m| == |records| && TotalBytes(len, m) == Size(len, records)
  {
    hide Indexes;
    if records == [] {
      NothingIndexed(m);
    } else {
      var n := Item(records[0].id);
      var rest := records[1..];
      IndexRest(m, records);
      IndexTotals(len, m - {n}, rest);
      TotalBytesWithout(len, m, n);
      assert (m - {n}).Keys == m.Keys - {n};
    }
  }

  /** An inventory measures the whole directory. */
  lemma InventoryTotals(len: Encoder, items: Items, records: seq<Record>)
    requires Inventory(items, records)
    ensures |Catalogue(items)| == |records|
    ensures TotalBytes(len, Catalogue(items)) == Size(len, records)
  {
    IndexTotals(len, Catalogue(items), records);
  }

  // ----- splitting a listing into what stays and what goes -----

  ghost predicate Split(s: seq<Record>, a: seq<Record>, b: seq<Record>) {
    multiset(s) == multiset(a) + multiset(b)
  }

  ghost predicate Distinct(s: seq<Record>) {
    forall i, j :: 0 <= i < j < |s| ==> s[i].id != s[j].id
  }

  lemma SplitFacts(s: seq<Record>, a: seq<Record>, b: seq<Record>)
    requires Split(s, a, b) && Distinct(s)
    ensures Distinct(a) && Distinct(b)
    ensures forall r :: r in s <==> r in a || r in b
    ensures forall x, y :: x in a && y in b ==> x.id != y.id
  {
    assert multiset(a + b) == multiset(s);
    DistinctIdsPermute(s, a + b);
    forall i, j | 0 <= i < j < |a| ensures a[i].id != a[j].id {
      assert (a + b)[i] == a[i] && (a + b)[j] == a[j];
    }
    forall i, j | 0 <= i < j < |b| ensures b[i].id != b[j].id {
      assert (a + b)[|a| + i] == b[i] && (a + b)[|a| + j] == b[j];
    }
    forall x, y | x in a && y in b ensures x.id != y.id {
      var i :| 0 <= i < |a| && a[i] == x;
      var j :| 0 <= j < |b| && b[j] == y;
      assert (a + b)[i] == x && (a + b)[|a| + j] == y;
    }
    assert forall r :: r in s <==> r in multiset(s);
    assert forall r :: r in a <==> r in multiset(a);
    assert forall r :: r in b <==> r in multiset(b);
  }

  lemma Conses(r: Record, s: seq<Record>, a: seq<Record>, b: seq<Record>)
    requires Split(s, a, b)
    ensures Split([r] + s, [r] + a, b) && Split([r] + s, a, [r] + b)
  {
    assert multiset([r] + s) == multiset{r} + multiset(s);
    assert multiset([r] + a) == multiset{r} + multiset(a);
    assert multiset([r] + b) == multiset{r} + multiset(b);
  }

  lemma {:induction false} LapsedExactly(cutoff: Option<nat>, view: Markers, self: nat, s: seq<Record>, r: Record)
    ensures r in Lapsed(cutoff, view, self, s) <==> r in s && Expired(cutoff, view, self, r)
  {
    hide Expired;
    if s != [] {
      LapsedExactly(cutoff, view, self, s[1..], r);
      assert s == [s[0]] + s[1..];
    }
  }

  lemma {:induction false} AgeParts(cutoff: Option<nat>, view: Markers, self: nat, s: seq<Record>)
    ensures Split(s, Unexpired(cutoff, view, self, s), Lapsed(cutoff, view, self, s))
  {
    hide Split, Expired;
    if s == [] {
      NothingSplit(s);
    } else {
      var rest := s[1..];
      AgeParts(cutoff, view, self, rest);
      Conses(s[0], rest, Unexpired(cutoff, view, self, rest), Lapsed(cutoff, view, self, rest));
      assert s == [s[0]] + rest;
      if Expired(cutoff, view, self, s[0]) {
        assert Unexpired(cutoff, view, self, s) == Unexpired(cutoff, view, self, rest);
      } else {
        assert Lapsed(cutoff, view, self, s) == Lapsed(cutoff, view, self, rest);
      }
    }
  }

  lemma AgeSplit(cutoff: Option<nat>, view: Markers, self: nat, s: seq<Record>)
    ensures Split(s, Unexpired(cutoff, view, self, s), Lapsed(cutoff, view, self, s))
    ensures forall r :: r in Lapsed(cutoff, view, self, s) <==> r in s && Expired(cutoff, view, self, r)
  {
    hide *;
    AgeParts(cutoff, view, self, s);
    forall r ensures r in Lapsed(cutoff, view, self, s) <==> r in s && Expired(cutoff, view, self, r) {
      LapsedExactly(cutoff, view, self, s, r);
    }
  }

  lemma NothingSplit(s: seq<Record>)
    ensures Split(s, s, [])
  {
  }

  lemma {:induction false} RunSplit(view: Markers, self: nat, s: seq<Record>, k: nat)
    requires k <= |Dead(view, self, s)|
    ensures Split(s, DropDead(view, self, s, k), Dead(view, self, s)[..k])
  {
    hide IsLive, Split;
    if s == [] || k == 0 {
      assert Dead(view, self, s)[..0] == [];
      NothingSplit(s);
    } else {
      var rest := s[1..];
      assert s == [s[0]] + rest;
      if IsLive(view, self, s[0].session) {
        RunSplit(view, self, rest, k);
        Conses(s[0], rest, DropDead(view, self, rest, k), Dead(view, self, rest)[..k]);
      } else {
        RunSplit(view, self, rest, k - 1);
        Conses(s[0], rest, DropDead(view, self, rest, k - 1), Dead(view, self, rest)[..k - 1]);
        assert Dead(view, self, s)[..k] == [s[0]] + Dead(view, self, rest)[..k - 1];
      }
    }
  }

  lemma {:induction false} DeadMembers(view: Markers, self: nat, s: seq<Record>)
    ensures forall r :: r in Dead(view, self, s) <==> r in s && !IsLive(view, self, r.session)
  {
    if s != [] {
      DeadMembers(view, self, s[1..]);
    }
  }

  lemma {:induction false} TargetSplit(s: seq<Record>, id: nat)
    requires Distinct(s)
    ensures Distinct(Without(s, id))
    ensures forall r :: r in Without(s, id) <==> r in s && r.id != id
  {
    if s != [] {
      TargetSplit(s[1..], id);
      forall r | r in Without(s[1..], id) ensures r.id != s[0].id {
        var i :| 0 <= i < |s[1..]| && s[1..][i] == r;
        assert s[i + 1] == r;
      }
    }
  }

  lemma {:induction false} ApplyAppend(len: Encoder, items: Items, a: seq<Effect>, b: seq<Effect>)
    ensures ApplyAll(len, items, a + b) == ApplyAll(len, ApplyAll(len, items, a), b)
    decreases |a|
  {
    if a == [] {
      assert a + b == b;
    } else {
      assert (a + b)[1..] == a[1..] + b;
      ApplyAppend(len, Apply(len, items, a[0]), a[1..], b);
    }
  }

  lemma {:induction false} ApplyDeletes(len: Encoder, items: Items, ids: seq<nat>)
    ensures ApplyAll(len, items, Deletes(ids)) == items - set i | i in ids :: Item(i)
  {
    if ids == [] {
      assert (set i | i in ids :: Item(i)) == {};
    } else {
      ApplyDeletes(len, items - {Item(ids[0])}, ids[1..]);
      assert (set i | i in ids :: Item(i)) == {Item(ids[0])} + set i | i in ids[1..] :: Item(i);
    }
  }

  lemma ApplyWrite(len: Encoder, items: Items, temp: string, record: Record)
    requires Other(temp) !in items
    ensures ApplyAll(len, items, WriteEffects(temp, record)) == items[Item(record.id) := Encoded(len, record)]
  {
    var e := WriteEffects(temp, record);
    assert e[1..] == [Publish(temp, record), SyncItems] && e[1..][1..] == [SyncItems] && e[1..][1..][1..] == [];
    var staged := Apply(len, items, e[0]);
    assert staged - {Other(temp)} == items;
    var published := Apply(len, staged, e[1]);
    assert ApplyAll(len, published, [SyncItems]) == published;
    assert ApplyAll(len, staged, e[1..]) == ApplyAll(len, published, [SyncItems]);
  }

  lemma ApplySync(len: Encoder, items: Items)
    ensures ApplyAll(len, items, [SyncItems]) == items
  {
    assert [SyncItems][1..] == [];
  }
}

/** The queue in front of the recovery store: a map of deferred edits, a bounded
    FIFO, the writer's map of pending edits, and the store. The interface thread
    and the writer interleave freely. */
module RecoveryRuntime {

  const FIFO_CAPACITY: nat := 8
  const MAX_DEFERRED: nat := 20
  const MAX_DEFERRED_BYTES: nat := 100 * 1024 * 1024
  const MAX_PENDING: nat := 20

  /** One offered source text. `revision` numbers offers; the code compares no
      revisions, it is how this model tells edits of one document apart. */
  datatype Edit = Edit(id: nat, size: nat, revision: nat)

  /** `cut` is the next revision when a removal was asked for. */
  datatype Command =
    | Upsert(edit: Edit)
    | Remove(id: nat, ticket: nat, cut: nat)
    | Flush(ticket: nat)
    | Settle(ticket: nat)

  /** A record the writer stored, or one that some other session wrote. */
  datatype Stored = Mine(revision: nat) | Foreign

  // ----- bounded deferral -----

  ghost function Weight(m: map<nat, Edit>, keys: set<nat>): nat
    requires keys <= m.Keys
    decreases |keys|
  {
    if keys == {} then 0
    else
      var k :| k in keys;
      m[k].size + Weight(m, keys - {k})
  }

  function MinOf(s: set<nat>): (m: nat)
    requires s != {}
    ensures m in s && forall x :: x in s ==> m <= x
    decreases |s|
  {
    MinExists(s);
    var m :| m in s && forall x :: x in s ==> m <= x;
    m
  }

  lemma {:induction false} Least(s: set<nat>) returns (m: nat)
    requires s != {}
    ensures m in s && forall x :: x in s ==> m <= x
    decreases |s|
  {
    var x :| x in s;
    if s == {x} {
      m := x;
    } else {
      var rest := Least(s - {x});
      m := if x < rest then x else rest;
    }
    forall y | y in s ensures m <= y {
      assert y in {x} || y in s - {x};
    }
  }

  lemma MinExists(s: set<nat>)
    requires s != {}
    ensures exists m :: m in s && forall x :: x in s ==> m <= x
  {
    var m := Least(s);
  }

  ghost function Total(m: map<nat, Edit>): nat {
    Weight(m, m.Keys)
  }

  ghost predicate RoomFor(deferred: map<nat, Edit>, e: Edit) {
    && (|deferred| < MAX_DEFERRED || e.id in deferred)
    && Total(deferred - {e.id}) + e.size <= MAX_DEFERRED_BYTES
  }

  lemma {:induction false} WeightSame(a: map<nat, Edit>, b: map<nat, Edit>, keys: set<nat>)
    requires keys <= a.Keys && keys <= b.Keys
    requires forall k :: k in keys ==> a[k] == b[k]
    ensures Weight(a, keys) == Weight(b, keys)
    decreases |keys|
  {
    if keys != {} {
      var k :| k in keys && Weight(a, keys) == a[k].size + Weight(a, keys - {k});
      WeightSame(a, b, keys - {k});
      WeightWithout(b, keys, k);
    }
  }

  lemma {:induction false} WeightWithout(m: map<nat, Edit>, keys: set<nat>, k: nat)
    requires keys <= m.Keys && k in keys
    ensures Weight(m, keys) == m[k].size + Weight(m, keys - {k})
    decreases |keys|
  {
    var first :| first in keys && Weight(m, keys) == m[first].size + Weight(m, keys - {first});
    if first != k {
      WeightWithout(m, keys - {first}, k);
      WeightWithout(m, keys - {k}, first);
      assert keys - {first} - {k} == keys - {k} - {first};
    }
  }

  /** Replacing or adding one edit changes the total by that edit. */
  lemma TotalPut(m: map<nat, Edit>, e: Edit)
    ensures Total(m[e.id := e]) == Total(m - {e.id}) + e.size
    ensures e.id in m ==> Total(m) == m[e.id].size + Total(m - {e.id})
    ensures e.id !in m ==> m - {e.id} == m
  {
    var n := m[e.id := e];
    WeightWithout(n, n.Keys, e.id);
    assert n.Keys - {e.id} == (m - {e.id}).Keys;
    WeightSame(n, m - {e.id}, n.Keys - {e.id});
    if e.id in m {
      WeightWithout(m, m.Keys, e.id);
      WeightSame(m, m - {e.id}, m.Keys - {e.id});
      assert m.Keys - {e.id} == (m - {e.id}).Keys;
    }
  }

  /** There is room for an edit exactly when it adds no document beyond the limit and the
      deferred texts, with it in place of any older one, stay within the byte limit. */
  lemma RoomExactly(deferred: map<nat, Edit>, e: Edit)
    ensures RoomFor(deferred, e) <==>
            && (e.id !in deferred ==> |deferred[e.id := e]| <= 20)
            && Total(deferred[e.id := e]) <= 100 * 1024 * 1024
  {
    TotalPut(deferred, e);
    assert e.id !in deferred ==> deferred[e.id := e].Keys == deferred.Keys + {e.id};
  }

  method TotalSize(m: map<nat, Edit>) returns (total: nat)
    ensures total == Total(m)
  {
    total := 0;
    var keys := m.Keys;
    while keys != {}
      invariant keys <= m.Keys
      invariant total + Weight(m, keys) == Total(m)
    {
      var k :| k in keys;
      WeightWithout(m, keys, k);
      total := total + m[k].size;
      keys := keys - {k};
    }
  }

  /** A map's edits in ascending order of id. */
  function Ascending(m: map<nat, Edit>): seq<Edit>
    decreases |m|
  {
    if m == map[] then []
    else
      var k := MinOf(m.Keys);
      [m[k]] + Ascending(m - {k})
  }

  // ----- placing one edit -----

  /** The deferred map and FIFO after trying to place an edit, and whether the
      edit was accepted. */
  datatype Placed = Placed(deferred: map<nat, Edit>, fifo: seq<Command>, accepted: bool)

  ghost function Place(deferred: map<nat, Edit>, fifo: seq<Command>, e: Edit): Placed {
    if |fifo| < FIFO_CAPACITY then Placed(deferred - {e.id}, fifo + [Upsert(e)], true)
    else if RoomFor(deferred, e) then Placed(deferred[e.id := e], fifo, true)
    else Placed(deferred, fifo, false)
  }

  ghost function PlaceAll(deferred: map<nat, Edit>, fifo: seq<Command>, edits: seq<Edit>): Placed
    decreases |edits|
  {
    if edits == [] then Placed(deferred, fifo, true)
    else
      var first := Place(deferred, fifo, edits[0]);
      var rest := PlaceAll(first.deferred, first.fifo, edits[1..]);
      rest.(accepted := first.accepted && rest.accepted)
  }

  // ----- flushing -----

  /** What the store did with each pending edit: `landed` ids were written,
      `reported` ids came back as failures (a late I/O error can do both). */
  datatype Verdicts = Verdicts(landed: set<nat>, reported: set<nat>)

  predicate Judges(v: Verdicts, pending: map<nat, Edit>) {
    forall id :: id in pending ==> id in v.landed || id in v.reported
  }

  function FlushedStore(store: map<nat, Stored>, pending: map<nat, Edit>, v: Verdicts): map<nat, Stored> {
    map id | id in store.Keys + (pending.Keys * v.landed) ::
      if id in pending && id in v.landed then Mine(pending[id].revision) else store[id]
  }

  function FlushedFailures(pending: map<nat, Edit>, v: Verdicts): set<(nat, nat)> {
    set id | id in pending && id in v.reported :: (id, pending[id].revision)
  }

  function FlushOk(pending: map<nat, Edit>, v: Verdicts): bool {
    pending.Keys * v.reported == {}
  }

  // ----- the objects -----

  /** The bounded channel between the interface thread and the writer. */
  class Fifo {
    var queue: seq<Command>

    constructor ()
      ensures queue == []
    {
      queue := [];
    }

    method TrySend(c: Command) returns (sent: bool)
      modifies this
      ensures sent == (|old(queue)| < FIFO_CAPACITY)
      ensures queue == if sent then old(queue) + [c] else old(queue)
    {
      sent := |queue| < FIFO_CAPACITY;
      if sent {
        queue := queue + [c];
      }
    }
  }

  /** The interface thread's half. */
  class Runtime {
    const fifo: Fifo
    var deferred: map<nat, Edit>
    var queueFull: bool

    constructor (fifo: Fifo)
      ensures this.fifo == fifo && deferred == map[] && !queueFull
    {
      this.fifo, deferred, queueFull := fifo, map[], false;
    }

    method Offer(e: Edit) returns (accepted: bool)
      modifies this`deferred, this`queueFull, fifo
      ensures Placed(deferred, fifo.queue, accepted) == Place(old(deferred), old(fifo.queue), e)
      ensures |old(fifo.queue)| < FIFO_CAPACITY ==>
                accepted && fifo.queue == old(fifo.queue) + [Upsert(e)] && deferred == old(deferred) - {e.id}
      ensures |old(fifo.queue)| >= FIFO_CAPACITY ==>
                && fifo.queue == old(fifo.queue)
                && (accepted <==>
                      && (|old(deferred)| < MAX_DEFERRED || e.id in old(deferred))
                      && Total(old(deferred)[e.id := e]) <= MAX_DEFERRED_BYTES)
                && deferred == if accepted then old(deferred)[e.id := e] else old(deferred)
      ensures queueFull == (old(queueFull) || !accepted)
    {
      var sent := fifo.TrySend(Upsert(e));
      if sent {
        deferred := deferred - {e.id};
        return true;
      }
      var total := TotalSize(deferred);
      TotalPut(deferred, e);
      var replaced := if e.id in deferred then deferred[e.id].size else 0;
      if (|deferred| < MAX_DEFERRED || e.id in deferred) && total - replaced + e.size <= MAX_DEFERRED_BYTES {
        deferred := deferred[e.id := e];
        accepted := true;
      } else {
        queueFull := true;
        accepted := false;
      }
    }

    /** Offer every deferred edit again, in order of id. Nothing is refused. */
    method Retry()
      requires |deferred| <= MAX_DEFERRED && Total(deferred) <= MAX_DEFERRED_BYTES
      modifies this`deferred, this`queueFull, fifo
      ensures
        var placed := PlaceAll(map[], old(fifo.queue), Ascending(old(deferred)));
        deferred == placed.deferred && fifo.queue == placed.fifo
      ensures queueFull == old(queueFull)
    {
      ghost var before, queued := deferred, fifo.queue;
      var pending := deferred;
      deferred := map[];
      RetryPlacesAll(before, queued);
      ghost var goal := PlaceAll(map[], queued, Ascending(before));
      while pending != map[]
        invariant PlaceAll(deferred, fifo.queue, Ascending(pending)) == goal
        invariant queueFull == old(queueFull)
        decreases |pending|
      {
        var k := MinOf(pending.Keys);
        var record := pending[k];
        assert Ascending(pending)[1..] == Ascending(pending - {k});
        pending := pending - {k};
        var accepted := Offer(record);
      }
    }
  }

  /** The writer thread's half, with the store as it sees it. */
  class Writer {
    const fifo: Fifo
    var pending: map<nat, Edit>
    var store: map<nat, Stored>
    var failures: set<(nat, nat)>

    constructor (fifo: Fifo)
      ensures this.fifo == fifo && pending == map[] && store == map[] && failures == {}
    {
      this.fifo, pending, store, failures := fifo, map[], map[], {};
    }

    /** Save every pending edit; each failure is reported and the rest go on. */
    method FlushPending(v: Verdicts) returns (ok: bool)
      requires Judges(v, pending)
      modifies this`pending, this`store, this`failures
      ensures pending == map[]
      ensures store == FlushedStore(old(store), old(pending), v)
      ensures failures == old(failures) + FlushedFailures(old(pending), v)
      ensures ok == FlushOk(old(pending), v)
    {
      ghost var before := pending;
      var rest, saved, missed := pending, store, failures;
      pending := map[];
      ok := true;
      ghost var done: map<nat, Edit> := map[];
      FlushStart(before, store, failures, v);
      while rest != map[]
        invariant pending == map[] && store == old(store) && failures == old(failures)
        invariant Flushing(before, rest, done, store, saved, failures, missed, ok, v)
        decreases |rest|
      {
        var k :| k in rest;
        var e := rest[k];
        FlushStep(before, rest, done, store, saved, failures, missed, ok, v, k);
        rest := rest - {k};
        saved := if k in v.landed then saved[k := Mine(e.revision)] else saved;
        missed := if k in v.reported then missed + {(k, e.revision)} else missed;
        ok := ok && k !in v.reported;
        done := done[k := e];
      }
      FlushEnd(before, done, store, saved, failures, missed, ok, v);
      store, failures := saved, missed;
    }

    /** Take one edit from the channel; at the limit a new document's edit is
        reported instead. */
    method TakeUpsert(e: Edit)
      modifies this`pending, this`failures
      ensures if |old(pending)| >= MAX_PENDING && e.id !in old(pending)
              then pending == old(pending) && failures == old(failures) + {(e.id, e.revision)}
              else pending == old(pending)[e.id := e] && failures == old(failures)
    {
      if |pending| >= MAX_PENDING && e.id !in pending {
        failures := failures + {(e.id, e.revision)};
        return;
      }
      pending := pending[e.id := e];
    }
  }

  /** Where the flush loop stands with `done` judged and `rest` to go. */
  ghost predicate Flushing(
    before: map<nat, Edit>, rest: map<nat, Edit>, done: map<nat, Edit>, store0: map<nat, Stored>,
    store: map<nat, Stored>, failures0: set<(nat, nat)>, failures: set<(nat, nat)>, ok: bool, v: Verdicts)
  {
    && rest.Keys !! done.Keys && rest + done == before
    && store == FlushedStore(store0, done, v)
    && failures == failures0 + FlushedFailures(done, v)
    && ok == FlushOk(done, v)
  }

  lemma FlushStart(before: map<nat, Edit>, store: map<nat, Stored>, failures: set<(nat, nat)>, v: Verdicts)
    ensures Flushing(before, before, map[], store, store, failures, failures, true, v)
  {
  }

  lemma FlushEnd(
    before: map<nat, Edit>, done: map<nat, Edit>, store0: map<nat, Stored>, store: map<nat, Stored>,
    failures0: set<(nat, nat)>, failures: set<(nat, nat)>, ok: bool, v: Verdicts)
    requires Flushing(before, map[], done, store0, store, failures0, failures, ok, v)
    ensures store == FlushedStore(store0, before, v)
    ensures failures == failures0 + FlushedFailures(before, v)
    ensures ok == FlushOk(before, v)
  {
    assert done == before;
  }

  lemma FlushStep(
    before: map<nat, Edit>, rest: map<nat, Edit>, done: map<nat, Edit>, store0: map<nat, Stored>,
    store: map<nat, Stored>, failures0: set<(nat, nat)>, failures: set<(nat, nat)>, ok: bool, v: Verdicts, k: nat)
    requires Flushing(before, rest, done, store0, store, failures0, failures, ok, v) && k in rest
    ensures Flushing(
              before, rest - {k}, done[k := rest[k]], store0,
              if k in v.landed then store[k := Mine(rest[k].revision)] else store, failures0,
              if k in v.reported then failures + {(k, rest[k].revision)} else failures, ok && k !in v.reported, v)
  {
    var e := rest[k];
    FailuresPut(done, k, e, v);
    assert done[k := e].Keys == done.Keys + {k};
    assert (rest - {k}) + done[k := e] == before;
    StorePut(store0, done, k, e, v);
  }

  lemma StorePut(store: map<nat, Stored>, done: map<nat, Edit>, k: nat, e: Edit, v: Verdicts)
    requires k !in done
    ensures FlushedStore(store, done[k := e], v) ==
            if k in v.landed then FlushedStore(store, done, v)[k := Mine(e.revision)] else FlushedStore(store, done, v)
  {
    assert done[k := e].Keys == done.Keys + {k};
  }

  lemma FailuresPut(done: map<nat, Edit>, k: nat, e: Edit, v: Verdicts)
    requires k !in done
    ensures FlushedFailures(done[k := e], v) ==
            FlushedFailures(done, v) + if k in v.reported then {(k, e.revision)} else {}
    ensures FlushOk(done[k := e], v) == (FlushOk(done, v) && k !in v.reported)
  {
    var after := done[k := e];
    assert after.Keys == done.Keys + {k};
    if FlushOk(after, v) {
      assert forall id :: id in done.Keys * v.reported ==> id in after.Keys * v.reported;
      assert k in v.reported ==> k in after.Keys * v.reported;
    }
    forall p | p in FlushedFailures(done, v) ensures p in FlushedFailures(after, v) {
      var id :| id in done && id in v.reported && p == (id, done[id].revision);
      assert after[id] == done[id];
    }
    if k in v.reported {
      assert after[k] == e;
      assert (k, e.revision) in FlushedFailures(after, v);
    }
  }

  /** With the deferral limits kept, offering the deferred edits again finds
      room for every one of them. */
  lemma RetryPlacesAll(deferred: map<nat, Edit>, fifo: seq<Command>)
    requires |deferred| <= MAX_DEFERRED && Total(deferred) <= MAX_DEFERRED_BYTES
    ensures PlaceAll(map[], fifo, Ascending(deferred)).accepted
  {
    AscendingFits(deferred);
    AllPlaced(map[], fifo, Ascending(deferred));
  }

  function Sum(edits: seq<Edit>): nat {
    if edits == [] then 0 else edits[0].size + Sum(edits[1..])
  }

  lemma {:induction false} AscendingFits(m: map<nat, Edit>)
    ensures |Ascending(m)| == |m| && Sum(Ascending(m)) == Total(m)
    decreases |m|
  {
    if m != map[] {
      var k := MinOf(m.Keys);
      var rest := m - {k};
      assert m.Keys - {k} == rest.Keys;
      AscendingFits(rest);
      WeightWithout(m, m.Keys, k);
      WeightSame(m, rest, rest.Keys);
    }
  }

  lemma {:induction false} AllPlaced(deferred: map<nat, Edit>, fifo: seq<Command>, edits: seq<Edit>)
    requires |deferred| + |edits| <= MAX_DEFERRED
    requires Total(deferred) + Sum(edits) <= MAX_DEFERRED_BYTES
    ensures PlaceAll(deferred, fifo, edits).accepted
    decreases |edits|
  {
    if edits != [] {
      var e := edits[0];
      TotalPut(deferred, e);
      var first := Place(deferred, fifo, e);
      assert |deferred - {e.id}| <= |deferred| by {
        assert (deferred - {e.id}).Keys == deferred.Keys - {e.id};
      }
      assert |deferred[e.id := e]| <= |deferred| + 1 by {
        assert deferred[e.id := e].Keys == deferred.Keys + {e.id};
      }
      AllPlaced(first.deferred, first.fifo, edits[1..]);
    }
  }
}

/** What a flush that answers Ok adds: exactly which documents' newest edits are
    then in the store. */
module RecoveryFlush {
  import opened Wrappers
  import opened RecoveryRuntime
  import opened RecoveryQueue

  // ----- edits that left queue and store -----

  /** Edits a step reports as failed without their having been written. */
  function MissedAt(s: State, a: Action): set<(nat, nat)> {
    match a
    case RefuseUpsert =>
      if s.fifo != [] && s.fifo[0].Upsert? then {(s.fifo[0].edit.id, s.fifo[0].edit.revision)} else {}
    case TakeFlush(v) => Unlanded(s.pending, v)
    case Timer(v) => Unlanded(s.pending, v)
    case _ => {}
  }

  function Unlanded(pending: map<nat, Edit>, v: Verdicts): set<(nat, nat)> {
    set id | id in pending && id !in v.landed :: (id, pending[id].revision)
  }

  /** What a removal takes: the pending edit and, if it succeeds, the stored one. */
  function RemovedAt(s: State, id: nat, deleted: bool): set<(nat, nat)> {
    (set r | r in At(s.pending, id) :: (id, r)) + if deleted then (set r | r in OnStore(s, id) :: (id, r)) else {}
  }

  /** Edits a step discards because their document is cleared. */
  function DroppedAt(s: State, a: Action): set<(nat, nat)> {
    match a
    case Clear(id) => if id in s.deferred then {(id, s.deferred[id].revision)} else {}
    case TakeRemove(deleted, _) =>
      if s.fifo != [] && s.fifo[0].Remove? then RemovedAt(s, s.fifo[0].id, deleted) else {}
    case _ => {}
  }

  function LeftAt(s: State, a: Action): set<(nat, nat)> {
    MissedAt(s, a) + DroppedAt(s, a)
  }

  /** Edits reported without having been written, or removed from queue or store by a
      clear, in the first `n` steps of a run. */
  ghost function Left(ss: seq<State>, what: seq<Action>, n: nat): set<(nat, nat)>
    requires n <= |what| <= |ss|
  {
    if n == 0 then {} else Left(ss, what, n - 1) + LeftAt(ss[n - 1], what[n - 1])
  }

  /** The edit of this revision is in some stage of the queue or in the store. */
  ghost predicate Here(s: State, id: nat, r: nat) {
    Located(OnStore(s, id), At(s.pending, id), Queued(s.fifo, id), HeldBack(s, id), r)
  }

  /** What a step does to the edits of a document: nothing but a new offer comes in,
      what leaves is gone, and the newest accepted one stays or leaves. */
  ghost predicate Flow(s: State, t: State, id: nat, left: set<(nat, nat)>) {
    && s.clock <= t.clock
    && (forall r: nat :: Here(t, id, r) ==> Here(s, id, r) || r == s.clock < t.clock)
    && (forall r: nat :: (id, r) in left ==> Here(s, id, r) && !Here(t, id, r))
    && (id in t.accepted ==>
          if id in s.accepted && t.accepted[id] == s.accepted[id]
          then Here(s, id, s.accepted[id]) ==> Here(t, id, t.accepted[id]) || (id, t.accepted[id]) in left
          else Here(t, id, t.accepted[id]))
  }

  // ----- one step -----

  lemma AlikeFlow(s: State, t: State, id: nat, left: set<(nat, nat)>)
    requires Alike(s, t, id) && forall r: nat :: (id, r) !in left
    ensures Flow(s, t, id, left)
  {
  }

  lemma OfferFlow(s: State, t: State, e: Edit, id: nat)
    requires InOrder(s, id) && (StepOfferSent(s, t, e) || StepOfferDeferred(s, t, e))
    ensures Flow(s, t, id, {})
  {
    QueuedOne(s.fifo, e, id);
    if id == e.id {
      assert t.fifo == s.fifo ==> At(t.deferred, id) == [e.revision];
      assert s.ui.Free? && Rest(s.ui) == [] && Among([], id) == [];
      assert e.revision in [e.revision];
      assert e.revision in Queued(s.fifo, id) + [e.revision];
      OfferHere(s, t, e);
    } else {
      AlikeFlow(s, t, id, {});
    }
  }

  lemma OfferHere(s: State, t: State, e: Edit)
    requires StepOfferSent(s, t, e) || StepOfferDeferred(s, t, e)
    requires t.fifo == s.fifo || Queued(t.fifo, e.id) == Queued(s.fifo, e.id) + [e.revision]
    ensures Here(t, e.id, e.revision)
    ensures forall r: nat :: Here(t, e.id, r) ==> Here(s, e.id, r) || r == e.revision
  {
    var id := e.id;
    assert Rest(t.ui) == [] && Among([], id) == [];
    if t.fifo == s.fifo {
      assert HeldBack(t, id) == [e.revision];
    } else {
      assert HeldBack(t, id) == [];
      assert (Queued(s.fifo, id) + [e.revision])[|Queued(s.fifo, id)|] == e.revision;
    }
  }

  /** What was held back is now last in the channel. */
  lemma MovedFlow(s: State, t: State, id: nat, r: nat)
    requires HeldBack(s, id) == [r] && HeldBack(t, id) == [] && Queued(t.fifo, id) == Queued(s.fifo, id) + [r]
    requires OnStore(t, id) == OnStore(s, id) && At(t.pending, id) == At(s.pending, id)
    requires t.accepted == s.accepted && t.clock == s.clock
    ensures Flow(s, t, id, {})
  {
    hide OnStore, At, Queued, HeldBack;
    assert (Queued(s.fifo, id) + [r])[|Queued(s.fifo, id)|] == r;
    assert forall x :: x in Queued(t.fifo, id) <==> x in Queued(s.fifo, id) || x == r;
  }

  lemma RetrySentFlow(s: State, t: State, e: Edit, id: nat)
    requires Bounded(s) && StepRetrySent(s, t, e)
    ensures Flow(s, t, id, {})
  {
    hide Bounded, Flow;
    RestOfRetry(s, id);
    QueuedOne(s.fifo, e, id);
    RetrySentParts(s, t, e, id);
    if id == e.id {
      MovedFlow(s, t, id, e.revision);
    } else {
      SamePartsFlow(s, t, id, {});
    }
  }

  lemma RetryDeferredFlow(s: State, t: State, e: Edit, id: nat)
    requires Bounded(s) && StepRetryDeferred(s, t, e)
    ensures Flow(s, t, id, {})
  {
    hide Bounded;
    RestOfRetry(s, id);
    assert At(t.deferred, id) == if id == e.id then [e.revision] else At(s.deferred, id);
    AlikeFlow(s, t, id, {});
  }

  lemma TakeFlow(s: State, t: State, e: Edit, id: nat)
    requires InOrder(s, id) && StepTakeUpsert(s, t, e)
    ensures Flow(s, t, id, {})
  {
    if id == e.id {
      assert Queued(s.fifo, id) == [e.revision] + Queued(t.fifo, id);
      TakeStage(OnStore(s, id), At(s.pending, id), e.revision, Queued(t.fifo, id), HeldBack(s, id), Bound(s, id));
      assert HeldBack(t, id) == HeldBack(s, id) && At(t.pending, id) == [e.revision];
      assert e.revision in [e.revision] + Queued(t.fifo, id);
      assert forall x :: x in Queued(t.fifo, id) ==> x in [e.revision] + Queued(t.fifo, id);
    } else {
      AlikeFlow(s, t, id, {});
    }
  }

  lemma RefuseFlow(s: State, t: State, e: Edit, id: nat)
    requires InOrder(s, id) && StepRefuseUpsert(s, t, e)
    ensures Flow(s, t, id, {(e.id, e.revision)})
  {
    if id == e.id {
      assert Queued(s.fifo, id) == [e.revision] + Queued(t.fifo, id);
      TakeStage(OnStore(s, id), At(s.pending, id), e.revision, Queued(t.fifo, id), HeldBack(s, id), Bound(s, id));
      FirstQueuedOnce(OnStore(s, id), At(s.pending, id), e.revision, Queued(t.fifo, id), HeldBack(s, id), Bound(s, id));
      assert HeldBack(t, id) == HeldBack(s, id);
    } else {
      AlikeFlow(s, t, id, {(e.id, e.revision)});
    }
  }

  lemma FirstQueuedOnce(w: seq<nat>, p: seq<nat>, r: nat, q: seq<nat>, h: seq<nat>, bound: nat)
    requires Staged(w, p, [r] + q, h, bound)
    ensures Located(w, p, [r] + q, h, r) && !Located(w, p, q, h, r)
    ensures forall x: nat :: Located(w, p, q, h, x) ==> Located(w, p, [r] + q, h, x)
  {
    TailIncreasing([r], q);
    assert ([r] + q)[0] == r;
    assert forall x :: x in q ==> x in [r] + q;
    assert r in [r];
  }

  lemma PendingOnce(w: seq<nat>, r: nat, q: seq<nat>, h: seq<nat>, bound: nat)
    requires Staged(w, [r], q, h, bound)
    ensures !Located(w, [], q, h, r) && Located([r], [], q, h, r)
    ensures forall x: nat :: Located(w, [r], q, h, x) && x + 1 == bound ==> Located([r], [], q, h, x)
  {
    assert r in [r];
    FlushStage(w, [r], q, h, bound);
  }

  lemma FlushFlow(s: State, t: State, v: Verdicts, id: nat)
    requires InOrder(s, id) && Judges(v, s.pending)
    requires t.pending == map[] && t.store == FlushedStore(s.store, s.pending, v)
    requires Queued(t.fifo, id) == Queued(s.fifo, id) && HeldBack(t, id) == HeldBack(s, id)
    requires t.accepted == s.accepted && t.clock == s.clock
    ensures Flow(s, t, id, Unlanded(s.pending, v))
  {
    if id in s.pending {
      var r := s.pending[id].revision;
      PendingOnce(OnStore(s, id), r, Queued(s.fifo, id), HeldBack(s, id), Bound(s, id));
      assert At(s.pending, id) == [r] && At(t.pending, id) == [];
      if id in v.landed {
        assert OnStore(t, id) == [r];
        assert forall x: nat :: (id, x) !in Unlanded(s.pending, v);
      } else {
        assert OnStore(t, id) == OnStore(s, id);
        assert (id, r) in Unlanded(s.pending, v);
        assert forall x: nat :: (id, x) in Unlanded(s.pending, v) ==> x == r;
      }
    } else {
      assert OnStore(t, id) == OnStore(s, id);
      assert forall x: nat :: (id, x) !in Unlanded(s.pending, v);
    }
  }

  /** What was pending, and perhaps what was stored, is gone. */
  lemma RemovedFlow(s: State, t: State, id: nat, deleted: bool)
    requires InOrder(s, id) && At(t.pending, id) == []
    requires OnStore(t, id) == if deleted then [] else OnStore(s, id)
    requires Queued(t.fifo, id) == Queued(s.fifo, id) && HeldBack(t, id) == HeldBack(s, id)
    requires t.accepted == s.accepted && t.clock == s.clock
    ensures Flow(s, t, id, RemovedAt(s, id, deleted))
  {
    StoreStaged(s, id);
    hide OnStore, At, Queued, HeldBack;
    var gone := RemovedAt(s, id, deleted);
    forall r: nat ensures (id, r) in gone <==> r in At(s.pending, id) || (deleted && r in OnStore(s, id)) {}
  }

  /** Only what was held back is gone. */
  lemma UnheldFlow(s: State, t: State, id: nat, r: nat, left: set<(nat, nat)>)
    requires InOrder(s, id) && HeldBack(s, id) == [r] && HeldBack(t, id) == []
    requires OnStore(t, id) == OnStore(s, id) && Queued(t.fifo, id) == Queued(s.fifo, id)
    requires At(t.pending, id) == At(s.pending, id)
    requires t.accepted == s.accepted && t.clock == s.clock && left == {(id, r)}
    ensures Flow(s, t, id, left)
  {
    hide OnStore, Queued, At;
    HeldOnce(OnStore(s, id), At(s.pending, id), Queued(s.fifo, id), r, Bound(s, id));
  }

  lemma SamePartsFlow(s: State, t: State, id: nat, left: set<(nat, nat)>)
    requires OnStore(t, id) == OnStore(s, id) && At(t.pending, id) == At(s.pending, id)
    requires Queued(t.fifo, id) == Queued(s.fifo, id) && HeldBack(t, id) == HeldBack(s, id)
    requires SameAt(t.accepted, s.accepted, id) && s.clock <= t.clock && forall r: nat :: (id, r) !in left
    ensures Flow(s, t, id, left)
  {
    hide OnStore, At, Queued, HeldBack;
  }

  lemma RemoveFlow(s: State, t: State, i: nat, deleted: bool, ok: bool, id: nat)
    requires InOrder(s, id) && StepTakeRemove(s, t, i, deleted, ok)
    ensures Flow(s, t, id, DroppedAt(s, TakeRemove(deleted, ok)))
  {
    hide Flow, InOrder;
    var left := DroppedAt(s, TakeRemove(deleted, ok));
    assert Queued(t.fifo, id) == Queued(s.fifo, id);
    if id == i {
      RemovedFlow(s, t, id, deleted);
    } else {
      assert At(t.pending, id) == At(s.pending, id);
      SamePartsFlow(s, t, id, left);
    }
  }

  lemma ClearFlow(s: State, t: State, i: nat, id: nat)
    requires InOrder(s, id) && StepClear(s, t, i)
    ensures Flow(s, t, id, DroppedAt(s, Clear(i)))
  {
    hide Flow, InOrder;
    assert Rest(s.ui) == [] && Rest(t.ui) == [] && Among([], id) == [];
    var left := DroppedAt(s, Clear(i));
    if id == i && id in s.deferred {
      assert HeldBack(s, id) == [s.deferred[id].revision] && HeldBack(t, id) == [];
      UnheldFlow(s, t, id, s.deferred[id].revision, left);
    } else {
      assert At(t.deferred, id) == At(s.deferred, id);
      SamePartsFlow(s, t, id, left);
    }
  }

  lemma HeldOnce(w: seq<nat>, p: seq<nat>, q: seq<nat>, r: nat, bound: nat)
    requires Staged(w, p, q, [r], bound)
    ensures Located(w, p, q, [r], r) && !Located(w, p, q, [], r)
    ensures forall x: nat :: Located(w, p, q, [r], x) ==> x == r || Located(w, p, q, [], x)
  {
    assert r in [r];
  }

  lemma SendFlow(s: State, t: State, id: nat)
    requires Tickets(s) && StepSend(s, t)
    ensures Flow(s, t, id, {})
  {
    QueuedOther(s.fifo, s.ui.command, id);
    AlikeFlow(s, t, id, {});
  }

  lemma StartRetryFlow(s: State, t: State, flush: bool, id: nat)
    requires StepRetry(s, t, flush) && Bounded(s)
    ensures Flow(s, t, id, {})
  {
    AmongAscending(s.deferred, id);
    AlikeFlow(s, t, id, {});
  }

  lemma SettleFlow(s: State, t: State, ok: bool, id: nat)
    requires StepTakeSettle(s, t, ok)
    ensures Flow(s, t, id, {})
  {
    AlikeFlow(s, t, id, {});
  }

  lemma QuietFlow(s: State, t: State, id: nat)
    requires Quiet(s, t)
    ensures Flow(s, t, id, {})
  {
    AlikeFlow(s, t, id, {});
  }

  lemma LeftOfInterface(s: State, a: Action)
    requires OfInterface(a)
    ensures LeftAt(s, a) == if a.Clear? then DroppedAt(s, a) else {}
  {
  }

  lemma LeftOfWriter(s: State, a: Action)
    requires OfWriter(a)
    ensures a.TakeUpsert? || a.TakeSettle? ==> LeftAt(s, a) == {}
    ensures a.TakeRemove? ==> LeftAt(s, a) == DroppedAt(s, a)
    ensures a.TakeFlush? || a.Timer? ==> LeftAt(s, a) == Unlanded(s.pending, a.v)
    ensures a.RefuseUpsert? && s.fifo != [] && s.fifo[0].Upsert? ==>
              LeftAt(s, a) == {(s.fifo[0].edit.id, s.fifo[0].edit.revision)}
  {
    hide Unlanded;
  }

  lemma LeftOfOthers(s: State, a: Action)
    requires !OfInterface(a) && !OfWriter(a)
    ensures LeftAt(s, a) == {}
  {
  }

  lemma TakeFlushFlow(s: State, t: State, v: Verdicts, id: nat)
    requires InOrder(s, id) && StepTakeFlush(s, t, v)
    ensures Flow(s, t, id, Unlanded(s.pending, v))
  {
    hide Flow, Unlanded, InOrder;
    FlushFlow(s, t, v, id);
  }

  lemma TimerFlow(s: State, t: State, v: Verdicts, id: nat)
    requires InOrder(s, id) && StepTimer(s, t, v)
    ensures Flow(s, t, id, Unlanded(s.pending, v))
  {
    hide Flow, Unlanded, InOrder;
    FlushFlow(s, t, v, id);
  }

  lemma InterfaceFlow(s: State, t: State, a: Action, id: nat)
    requires Inv(s) && InOrder(s, id) && Step(s, t, a) && OfInterface(a)
    ensures Flow(s, t, id, LeftAt(s, a))
  {
    hide Flow, StepOfferSent, StepOfferDeferred, StepRetrySent, StepRetryDeferred, StepRetry, StepClear, StepSend;
    hide InOrder, Accounted, Waits, Cuts;
    hide MissedAt, DroppedAt, LeftAt;
    LeftOfInterface(s, a);
    match a
    case OfferSent(i, size) => OfferFlow(s, t, Edit(i, size, s.clock), id);
    case OfferDeferred(i, size) => OfferFlow(s, t, Edit(i, size, s.clock), id);
    case Retry(flush) => StartRetryFlow(s, t, flush, id);
    case RetrySent => RetrySentFlow(s, t, s.ui.rest[0], id);
    case RetryDeferred => RetryDeferredFlow(s, t, s.ui.rest[0], id);
    case RetryRefused => RetryHasRoom(s);
    case Clear(i) => ClearFlow(s, t, i, id);
    case Send => SendFlow(s, t, id);
  }

  lemma WriterFlow(s: State, t: State, a: Action, id: nat)
    requires InOrder(s, id) && Step(s, t, a) && OfWriter(a)
    ensures Flow(s, t, id, LeftAt(s, a))
  {
    hide Flow, InOrder, MissedAt, DroppedAt, LeftAt, Unlanded;
    hide StepTakeUpsert, StepRefuseUpsert, StepTakeRemove, StepTakeFlush, StepTakeSettle, StepTimer;
    LeftOfWriter(s, a);
    match a
    case TakeUpsert => TakeFlow(s, t, s.fifo[0].edit, id);
    case RefuseUpsert => RefuseFlow(s, t, s.fifo[0].edit, id);
    case TakeRemove(deleted, ok) => RemoveFlow(s, t, s.fifo[0].id, deleted, ok, id);
    case TakeFlush(v) => TakeFlushFlow(s, t, v, id);
    case TakeSettle(ok) => SettleFlow(s, t, ok, id);
    case Timer(v) => TimerFlow(s, t, v, id);
  }

  lemma StepFlow(s: State, t: State, a: Action, id: nat)
    requires Inv(s) && Step(s, t, a)
    ensures Flow(s, t, id, LeftAt(s, a))
  {
    hide Flow, Step, Bounded, Tickets, Waits, Cuts, LeftAt;
    assert InOrder(s, id);
    if OfInterface(a) {
      InterfaceFlow(s, t, a, id);
    } else if OfWriter(a) {
      WriterFlow(s, t, a, id);
    } else {
      QuietSteps(s, t, a);
      QuietFlow(s, t, id);
      LeftOfOthers(s, a);
    }
  }

  // ----- whole runs -----

  /** What has left a document's queue and store is nowhere, and its newest accepted
      edit either is somewhere or has left. */
  ghost predicate Settles(s: State, id: nat, left: set<(nat, nat)>) {
    && (forall r: nat :: (id, r) in left ==> !Here(s, id, r) && r < s.clock)
    && (id in s.accepted ==> Here(s, id, s.accepted[id]) || (id, s.accepted[id]) in left)
  }

  lemma HereIsPast(s: State, id: nat, r: nat)
    requires InOrder(s, id) && Here(s, id, r)
    ensures r < s.clock
  {
  }

  lemma SettlesStep(s: State, t: State, id: nat, left: set<(nat, nat)>, now: set<(nat, nat)>)
    requires InOrder(s, id) && Settles(s, id, left) && Flow(s, t, id, now)
    ensures Settles(t, id, left + now)
  {
    hide Here, InOrder;
    forall r: nat | (id, r) in now ensures r < s.clock {
      HereIsPast(s, id, r);
    }
  }

  lemma StartSettles(s: State, id: nat)
    requires Initial(s)
    ensures Settles(s, id, {})
  {
  }

  lemma {:induction false} RunSettles(ss: seq<State>, what: seq<Action>, n: nat, id: nat)
    requires Run(ss, what) && n <= |what|
    ensures Settles(ss[n], id, Left(ss, what, n))
  {
    hide Settles, Flow, Inv, Step, Initial, LeftAt, InOrder;
    if n == 0 {
      StartSettles(ss[0], id);
    } else {
      RunSettles(ss, what, n - 1, id);
      RunInv(ss, what, n - 1);
      assert Step(ss[n - 1], ss[n - 1 + 1], what[n - 1]);
      StepFlow(ss[n - 1], ss[n], what[n - 1], id);
      InvOrders(ss[n - 1], id);
      SettlesStep(ss[n - 1], ss[n], id, Left(ss, what, n - 1), LeftAt(ss[n - 1], what[n - 1]));
    }
  }

  // ----- the step that answered -----

  ghost predicate AwaitsFlush(s: State, c: Command) {
    c.Flush? && s.ui == Awaiting(c)
  }

  lemma HeadHasTicket(s: State, c: Command)
    requires Tickets(s) && c in s.fifo && Ticket(c).Some?
    ensures Ticket(s.fifo[0]) == Ticket(c) ==> s.fifo[0] == c
  {
    assert Ticket(s.fifo[0]).Some? ==> forall j :: 0 < j < |s.fifo| ==> Ticket(s.fifo[0]) != Ticket(s.fifo[j]);
  }

  /** Answers come from the writer taking the command at the head of the channel. */
  lemma StepReplies(s: State, t: State, a: Action, k: nat)
    requires Step(s, t, a) && k in t.replies
    ensures
      || (k in s.replies && s.replies[k] == t.replies[k])
      || (s.fifo != [] && Ticket(s.fifo[0]) == Some(k) && t.ui == s.ui &&
          (s.fifo[0].Flush? ==> a.TakeFlush? && t.replies[k] == FlushOk(s.pending, a.v)))
  {
    hide RoomFor, Admits, FlushedStore, FlushedWritten, FlushedFailures, FlushOk, Judges, Ascending;
  }

  /** A call waits for its answer once its command is sent. */
  lemma StepAwaits(s: State, t: State, a: Action, c: Command)
    requires Step(s, t, a) && t.ui == Awaiting(c)
    ensures s.ui == t.ui || (s.ui == Sending(c) && t.replies == s.replies)
  {
    hide RoomFor, Admits, FlushedStore, FlushedWritten, FlushedFailures, FlushOk, Judges, Ascending;
  }

  /** While a flush waits, an answer comes only from the writer taking that flush. */
  lemma AnswerStep(s: State, t: State, a: Action, c: Command)
    requires Tickets(s) && Step(s, t, a) && AwaitsFlush(t, c) && c.ticket in t.replies
    ensures AwaitsFlush(s, c)
    ensures if c.ticket in s.replies then s.replies[c.ticket] == t.replies[c.ticket]
            else a.TakeFlush? && s.fifo != [] && s.fifo[0] == c && t.replies[c.ticket] == FlushOk(s.pending, a.v)
  {
    hide Step, FlushOk;
    StepAwaits(s, t, a, c);
    StepReplies(s, t, a, c.ticket);
    if c in s.fifo {
      HeadHasTicket(s, c);
    }
  }

  /** Once answered, a waiting flush sees nothing happen to any edit. */
  lemma AnsweredIsQuiet(s: State, t: State, a: Action, c: Command)
    requires Tickets(s) && Waits(s) && Step(s, t, a) && AwaitsFlush(s, c) && c.ticket in s.replies
    ensures t.failed == s.failed && LeftAt(s, a) == {}
    ensures t.accepted == s.accepted
  {
    AnsweredIsTaken(s);
    assert s.fifo == [] && s.pending == map[];
  }

  /** The step in which the writer took the flush that is now answered; nothing has
      failed or left since. */
  lemma {:induction false} AnswerCameFrom(ss: seq<State>, what: seq<Action>, i: nat, c: Command) returns (k: nat)
    requires Run(ss, what) && i <= |what| && AwaitsFlush(ss[i], c) && c.ticket in ss[i].replies
    ensures k < i && what[k].TakeFlush? && ss[k].fifo != [] && ss[k].fifo[0] == c
    ensures ss[i].replies[c.ticket] == FlushOk(ss[k].pending, what[k].v)
    ensures ss[i].failed == ss[k + 1].failed && Left(ss, what, i) == Left(ss, what, k + 1)
    ensures ss[i].accepted == ss[k + 1].accepted
  {
    hide Inv, Step, FlushOk, LeftAt;
    NothingAwaited(ss[0], c);
    if i > 0 {
      RunInv(ss, what, i - 1);
      assert Step(ss[i - 1], ss[i - 1 + 1], what[i - 1]);
      InvCalls(ss[i - 1]);
      AnswerStep(ss[i - 1], ss[i], what[i - 1], c);
      if c.ticket in ss[i - 1].replies {
        k := AnswerCameFrom(ss, what, i - 1, c);
        AnsweredIsQuiet(ss[i - 1], ss[i], what[i - 1], c);
      } else {
        k := i - 1;
      }
    }
  }

  lemma NothingAwaited(s: State, c: Command)
    requires Initial(s)
    ensures !AwaitsFlush(s, c)
  {
  }

  lemma InvCalls(s: State)
    requires Inv(s)
    ensures Tickets(s) && Waits(s)
  {
    hide InOrder, Accounted, Bounded, Tickets, Waits, Cuts;
  }

  /** A flush that will answer Ok writes everything pending and reports nothing. */
  lemma OkFlushWritesAll(s: State, t: State, v: Verdicts)
    requires StepTakeFlush(s, t, v) && FlushOk(s.pending, v)
    ensures forall id :: id in s.pending ==> id in v.landed && id in t.store && t.store[id] == Mine(s.pending[id].revision)
    ensures t.failed == s.failed && LeftAt(s, TakeFlush(v)) == {}
  {
    forall id | id in s.pending ensures id in v.landed && id !in v.reported {
      assert id in s.pending.Keys * v.reported <==> id in v.reported;
    }
    assert FlushedFailures(s.pending, v) == {};
    assert Unlanded(s.pending, v) == {};
  }

  /** When nothing waits, a document's newest edit is in the store unless it has left. */
  lemma EmptyDecides(s: State, id: nat, left: set<(nat, nat)>)
    requires Settles(s, id, left) && id in s.accepted && Empty(s)
    ensures NewestStored(s, id) <==> (id, s.accepted[id]) !in left
  {
    QueuedNone(s.fifo, id);
    assert Among([], id) == [];
    assert At(s.pending, id) == [] && Queued(s.fifo, id) == [] && HeldBack(s, id) == [];
  }

  /** The step in which a flush that answers Ok was taken, with what has happened to
      edits since: nothing. */
  lemma OkFlushTaken(ss: seq<State>, what: seq<Action>, i: nat) returns (k: nat)
    requires Run(ss, what) && i < |what| && what[i] == Return
    requires ss[i].ui.Awaiting? && ss[i].ui.command.Flush? && ss[i].ui.command.ticket in ss[i].replies
    requires ss[i].replies[ss[i].ui.command.ticket]
    ensures k < i && what[k].TakeFlush? && ss[k].fifo != [] && ss[k].fifo[0] == ss[i].ui.command
    ensures forall id :: id in ss[k].pending ==>
              id in ss[k + 1].store && ss[k + 1].store[id] == Mine(ss[k].pending[id].revision)
    ensures ss[i + 1].failed == ss[k].failed && Left(ss, what, i + 1) == Left(ss, what, k)
  {
    hide Inv, Step, FlushOk, LeftAt;
    var c := ss[i].ui.command;
    k := AnswerCameFrom(ss, what, i, c);
    assert Step(ss[k], ss[k + 1], what[k]);
    TakenOk(ss[k], ss[k + 1], what[k]);
    assert Step(ss[i], ss[i + 1], what[i]);
    RunInv(ss, what, i);
    InvCalls(ss[i]);
    AnsweredIsQuiet(ss[i], ss[i + 1], what[i], c);
  }

  lemma TakenOk(s: State, t: State, a: Action)
    requires Step(s, t, a) && a.TakeFlush? && FlushOk(s.pending, a.v)
    ensures forall id :: id in s.pending ==> id in t.store && t.store[id] == Mine(s.pending[id].revision)
    ensures t.failed == s.failed && LeftAt(s, a) == {}
  {
    hide FlushOk, LeftAt, StepTakeFlush;
    OkFlushWritesAll(s, t, a.v);
  }

  /** When a flush answers Ok, the writer took it in a step `k` that put every edit then
      pending into the store. Of each document the newest accepted edit is now in the
      store exactly when it had not, before that step, been reported as failed without
      having been written, or been removed by a clear; and if it is not, it had already
      been reported before that step, or predates a request to clear. */
  lemma FlushOkExactly(ss: seq<State>, what: seq<Action>, i: nat) returns (k: nat, t: State)
    requires Run(ss, what) && i < |what| && what[i] == Return
    requires ss[i].ui.Awaiting? && ss[i].ui.command.Flush? && ss[i].ui.command.ticket in ss[i].replies
    requires ss[i].replies[ss[i].ui.command.ticket]
    ensures k < i && what[k].TakeFlush? && ss[k].fifo != [] && ss[k].fifo[0] == ss[i].ui.command
    ensures forall id :: id in ss[k].pending ==>
              id in ss[k + 1].store && ss[k + 1].store[id] == Mine(ss[k].pending[id].revision)
    ensures t == ss[i + 1] && Empty(t)
    ensures forall id :: id in t.accepted ==>
              (NewestStored(t, id) <==> (id, t.accepted[id]) !in Left(ss, what, k))
    ensures forall id :: id in t.accepted ==>
              || NewestStored(t, id)
              || (id, t.accepted[id]) in ss[k].failed
              || (id in t.cuts && t.accepted[id] < t.cuts[id])
  {
    hide Inv, Step, Settles, Empty, Left, Initial, Located;
    k := OkFlushTaken(ss, what, i);
    t := ss[i + 1];
    assert Step(ss[i], t, what[i]);
    FlushAnswerLeavesNothing(ss, what, i, t);
    forall id | id in t.accepted
      ensures NewestStored(t, id) <==> (id, t.accepted[id]) !in Left(ss, what, k)
    {
      RunSettles(ss, what, i + 1, id);
      EmptyDecides(t, id, Left(ss, what, i + 1));
    }
  }

  // ----- an Ok that wrote less than everything -----

  function Edits(n: nat): map<nat, Edit> {
    if n == 0 then map[] else Edits(n - 1)[n - 1 := Edit(n - 1, 1, n - 1)]
  }

  function Revisions(n: nat): map<nat, nat> {
    if n == 0 then map[] else Revisions(n - 1)[n - 1 := n - 1]
  }

  /** The writer holds the edits of `n` documents and nothing else is going on. */
  function Holding(n: nat): State {
    State(map[], [], Edits(n), map[], Free, map[], 0, n, Revisions(n), map[], map[], {})
  }

  lemma {:induction false} EditsSize(n: nat)
    ensures |Edits(n)| == n && forall i :: i in Edits(n) ==> i < n
  {
    if n > 0 {
      EditsSize(n - 1);
      assert Edits(n).Keys == Edits(n - 1).Keys + {n - 1};
    }
  }

  lemma RunGrows(ss: seq<State>, what: seq<Action>, a: Action, t: State)
    requires Run(ss, what) && Step(ss[|ss| - 1], t, a)
    ensures Run(ss + [t], what + [a]) && |ss| == |what| + 1
  {
    hide Step, Initial;
    var more, acts := ss + [t], what + [a];
    forall i | 0 <= i < |acts| ensures Step(more[i], more[i + 1], acts[i]) {
      if i < |what| {
        assert Step(ss[i], ss[i + 1], what[i]);
      }
    }
  }

  function Offered(s: State, id: nat): State {
    s.(clock := s.clock + 1, accepted := s.accepted[id := s.clock], fifo := [Upsert(Edit(id, 1, s.clock))])
  }

  lemma OfferStep(s: State, id: nat)
    requires s.ui.Free? && s.fifo == [] && s.deferred == map[]
    ensures Step(s, Offered(s, id), OfferSent(id, 1))
  {
    assert s.deferred - {id} == s.deferred;
  }

  lemma {:induction false} HoldingRun(n: nat) returns (ss: seq<State>, what: seq<Action>)
    requires n <= MAX_PENDING
    ensures Run(ss, what) && ss[|ss| - 1] == Holding(n)
  {
    if n == 0 {
      ss, what := [Holding(0)], [];
    } else {
      hide Step, Run, Offered;
      ss, what := HoldingRun(n - 1);
      RunNotEmpty(ss, what);
      var s := Holding(n - 1);
      OfferStep(s, n - 1);
      RunGrows(ss, what, OfferSent(n - 1, 1), Offered(s, n - 1));
      ss, what := ss + [Offered(s, n - 1)], what + [OfferSent(n - 1, 1)];
      HoldingNext(n);
      RunGrows(ss, what, TakeUpsert, Holding(n));
      ss, what := ss + [Holding(n)], what + [TakeUpsert];
    }
  }

  lemma RunNotEmpty(ss: seq<State>, what: seq<Action>)
    requires Run(ss, what)
    ensures |ss| == |what| + 1
  {
  }

  lemma HoldingNext(n: nat)
    requires 0 < n <= MAX_PENDING
    ensures Step(Offered(Holding(n - 1), n - 1), Holding(n), TakeUpsert)
  {
    EditsSize(n - 1);
  }

  /** The writer's limit refuses the edit of one more document, and a flush after that
      still answers Ok: it speaks for what was pending. */
  lemma OkWithEditUnwritten() returns (ss: seq<State>, what: seq<Action>, i: nat)
    ensures Run(ss, what) && i + 1 == |what| && what[i] == Return
    ensures ss[i].ui.Awaiting? && ss[i].ui.command.Flush? && ss[i].ui.command.ticket in ss[i].replies
    ensures ss[i].replies[ss[i].ui.command.ticket]
    ensures MAX_PENDING in ss[i + 1].accepted && !NewestStored(ss[i + 1], MAX_PENDING)
  {
    hide Run, Step, Offered, NewestStored, Edits, Revisions;
    ss, what := HoldingRun(MAX_PENDING);
    RunNotEmpty(ss, what);
    var s := Holding(MAX_PENDING);
    OfferStep(s, MAX_PENDING);
    RunGrows(ss, what, OfferSent(MAX_PENDING, 1), Offered(s, MAX_PENDING));
    ss, what := ss + [Offered(s, MAX_PENDING)], what + [OfferSent(MAX_PENDING, 1)];
    var refused := Refused();
    RunGrows(ss, what, RefuseUpsert, refused);
    ss, what := ss + [refused], what + [RefuseUpsert];
    ss, what, i := FlushAll(ss, what, refused);
    RunNotEmpty(ss, what);
    NotStored(ss[i + 1]);
  }

  lemma NotStored(s: State)
    requires MAX_PENDING !in s.store
    ensures !NewestStored(s, MAX_PENDING)
  {
  }

  lemma Refused() returns (t: State)
    ensures Step(Offered(Holding(MAX_PENDING), MAX_PENDING), t, RefuseUpsert)
    ensures t.ui.Free? && t.deferred == map[] && t.fifo == [] && t.replies == map[] && t.tickets == 0
    ensures MAX_PENDING in t.accepted && MAX_PENDING !in t.pending && MAX_PENDING !in t.store
  {
    hide Edits, Revisions;
    EditsSize(MAX_PENDING);
    var s := Offered(Holding(MAX_PENDING), MAX_PENDING);
    t := s.(fifo := [], failed := s.failed + {(MAX_PENDING, MAX_PENDING)});
  }

  /** From a free state with nothing deferred and an empty channel, a flush that the
      store takes without a fault is answered Ok. */
  lemma FlushAll(ss0: seq<State>, what0: seq<Action>, s: State) returns (ss: seq<State>, what: seq<Action>, i: nat)
    requires Run(ss0, what0) && ss0[|ss0| - 1] == s
    requires s.ui.Free? && s.deferred == map[] && s.fifo == [] && s.replies == map[] && s.tickets == 0
    ensures Run(ss, what) && i + 1 == |what| && what[i] == Return
    ensures ss[i].ui.Awaiting? && ss[i].ui.command.Flush? && ss[i].ui.command.ticket in ss[i].replies
    ensures ss[i].replies[ss[i].ui.command.ticket]
    ensures ss[i + 1].accepted == s.accepted
    ensures forall id :: id !in s.pending ==> (id in ss[i + 1].store <==> id in s.store)
  {
    hide Run, Step;
    var v := Verdicts(s.pending.Keys, {});
    RunNotEmpty(ss0, what0);
    var retrying, sending, waiting, taken, back := FlushSteps(s, v);
    RunGrows(ss0, what0, Retry(true), retrying);
    ss, what := ss0 + [retrying], what0 + [Retry(true)];
    RunGrows(ss, what, RetryDone, sending);
    ss, what := ss + [sending], what + [RetryDone];
    RunGrows(ss, what, Send, waiting);
    ss, what := ss + [waiting], what + [Send];
    RunGrows(ss, what, TakeFlush(v), taken);
    ss, what := ss + [taken], what + [TakeFlush(v)];
    i := |what|;
    RunGrows(ss, what, Return, back);
    ss, what := ss + [back], what + [Return];
  }

  lemma FlushSteps(s: State, v: Verdicts)
    returns (retrying: State, sending: State, waiting: State, taken: State, back: State)
    requires s.ui.Free? && s.deferred == map[] && s.fifo == [] && s.replies == map[] && s.tickets == 0
    requires v == Verdicts(s.pending.Keys, {})
    ensures Step(s, retrying, Retry(true)) && Step(retrying, sending, RetryDone) && Step(sending, waiting, Send)
    ensures Step(waiting, taken, TakeFlush(v)) && Step(taken, back, Return)
    ensures taken.ui == Awaiting(Flush(0)) && 0 in taken.replies && taken.replies[0]
    ensures back.accepted == s.accepted
    ensures forall id :: id !in s.pending ==> (id in back.store <==> id in s.store)
  {
    hide Step;
    retrying, sending, waiting := AskFlush(s);
    taken := AnswerFlush(waiting, v);
    back := taken.(ui := Free);
    assert Step(taken, back, Return) by { ReturnStep(taken, back); }
  }

  lemma AskFlush(s: State) returns (retrying: State, sending: State, waiting: State)
    requires s.ui.Free? && s.deferred == map[] && s.fifo == [] && s.tickets == 0
    ensures Step(s, retrying, Retry(true)) && Step(retrying, sending, RetryDone) && Step(sending, waiting, Send)
    ensures waiting == s.(ui := Awaiting(Flush(0)), tickets := 1, fifo := [Flush(0)])
  {
    retrying := s.(ui := Retrying([], true));
    sending := s.(ui := Sending(Flush(0)), tickets := 1);
    waiting := sending.(fifo := [Flush(0)], ui := Awaiting(Flush(0)));
  }

  lemma AnswerFlush(s: State, v: Verdicts) returns (t: State)
    requires s.fifo == [Flush(0)] && v == Verdicts(s.pending.Keys, {})
    ensures Step(s, t, TakeFlush(v))
    ensures t.ui == s.ui && 0 in t.replies && t.replies[0] && t.accepted == s.accepted
    ensures forall id :: id !in s.pending ==> (id in t.store <==> id in s.store)
  {
    hide FlushedWritten, FlushedFailures;
    assert FlushOk(s.pending, v);
    t := Flushed(s, v).(fifo := [], replies := s.replies[0 := true]);
  }

  lemma ReturnStep(s: State, t: State)
    requires s.ui == Awaiting(Flush(0)) && 0 in s.replies && t == s.(ui := Free)
    ensures Step(s, t, Return)
  {
  }
}

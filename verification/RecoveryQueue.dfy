/** Every interleaving of the interface thread with the recovery writer: no
    accepted edit is lost in silence, edits of a document reach the store in the
    order they were offered, and a cleared document stays cleared. */
module RecoveryQueue {
  import opened Wrappers
  import opened RecoveryRuntime

  /** What the interface thread is doing. A call that waits for the writer first
      waits for room in the channel and then for its reply. */
  datatype Ui =
    | Free
    | Retrying(rest: seq<Edit>, flush: bool)
    | Sending(command: Command)
    | Awaiting(command: Command)

  /** The last five fields are history: the newest accepted revision of each
      document, the newest revision ever written, the revision at which clearing
      was last asked for, and the edits reported as failed. */
  datatype State = State(
    deferred: map<nat, Edit>,
    fifo: seq<Command>,
    pending: map<nat, Edit>,
    store: map<nat, Stored>,
    ui: Ui,
    replies: map<nat, bool>,
    tickets: nat,
    clock: nat,
    accepted: map<nat, nat>,
    written: map<nat, nat>,
    cuts: map<nat, nat>,
    failed: set<(nat, nat)>)

  datatype Action =
    | OfferSent(id: nat, size: nat)
    | OfferDeferred(id: nat, size: nat)
    | OfferRefused(id: nat, size: nat)
    | Retry(flush: bool)
    | RetrySent
    | RetryDeferred
    | RetryRefused
    | RetryDone
    | Clear(id: nat)
    | Ask
    | Send
    | GiveUp
    | Return
    | TakeUpsert
    | RefuseUpsert
    | TakeRemove(deleted: bool, ok: bool)
    | TakeFlush(v: Verdicts)
    | TakeSettle(ok: bool)
    | Timer(v: Verdicts)
    | Evict(id: nat)

  /** The writer has room for the edit's document. */
  predicate Admits(pending: map<nat, Edit>, id: nat) {
    |pending| < MAX_PENDING || id in pending
  }

  function FlushedWritten(written: map<nat, nat>, pending: map<nat, Edit>, v: Verdicts): map<nat, nat> {
    map id | id in written.Keys + (pending.Keys * v.landed) ::
      if id in pending && id in v.landed then pending[id].revision else written[id]
  }

  function Flushed(s: State, v: Verdicts): State {
    s.(
      pending := map[],
      store := FlushedStore(s.store, s.pending, v),
      written := FlushedWritten(s.written, s.pending, v),
      failed := s.failed + FlushedFailures(s.pending, v))
  }

  function Ticket(c: Command): Option<nat> {
    match c
    case Upsert(_) => None
    case Remove(_, t, _) => Some(t)
    case Flush(t) => Some(t)
    case Settle(t) => Some(t)
  }

  /** An offer that the channel takes. */
  ghost predicate StepOfferSent(s: State, s': State, e: Edit) {
    && s.ui.Free? && e.revision == s.clock && |s.fifo| < FIFO_CAPACITY
    && s' == s.(
         clock := s.clock + 1,
         accepted := s.accepted[e.id := e.revision],
         deferred := s.deferred - {e.id},
         fifo := s.fifo + [Upsert(e)])
  }

  /** An offer that waits because the channel is full. */
  ghost predicate StepOfferDeferred(s: State, s': State, e: Edit) {
    && s.ui.Free? && e.revision == s.clock && |s.fifo| >= FIFO_CAPACITY && RoomFor(s.deferred, e)
    && s' == s.(
         clock := s.clock + 1,
         accepted := s.accepted[e.id := e.revision],
         deferred := s.deferred[e.id := e])
  }

  /** An offer that is turned away: `offer` returns false. */
  ghost predicate StepOfferRefused(s: State, s': State, e: Edit) {
    && s.ui.Free? && e.revision == s.clock && |s.fifo| >= FIFO_CAPACITY && !RoomFor(s.deferred, e)
    && s' == s.(clock := s.clock + 1)
  }

  ghost predicate StepRetry(s: State, s': State, flush: bool) {
    s.ui.Free? && s' == s.(deferred := map[], ui := Retrying(Ascending(s.deferred), flush))
  }

  ghost predicate InHand(s: State, e: Edit) {
    s.ui.Retrying? && s.ui.rest != [] && e == s.ui.rest[0]
  }

  ghost predicate StepRetrySent(s: State, s': State, e: Edit) {
    && InHand(s, e) && |s.fifo| < FIFO_CAPACITY
    && s' == s.(
         ui := s.ui.(rest := s.ui.rest[1..]),
         deferred := s.deferred - {e.id},
         fifo := s.fifo + [Upsert(e)])
  }

  ghost predicate StepRetryDeferred(s: State, s': State, e: Edit) {
    && InHand(s, e) && |s.fifo| >= FIFO_CAPACITY && RoomFor(s.deferred, e)
    && s' == s.(ui := s.ui.(rest := s.ui.rest[1..]), deferred := s.deferred[e.id := e])
  }

  ghost predicate StepRetryRefused(s: State, s': State, e: Edit) {
    && InHand(s, e) && |s.fifo| >= FIFO_CAPACITY && !RoomFor(s.deferred, e)
    && s' == s.(ui := s.ui.(rest := s.ui.rest[1..]))
  }

  ghost predicate StepRetryDone(s: State, s': State) {
    && s.ui.Retrying? && s.ui.rest == []
    && if s.ui.flush && s.deferred == map[]
       then s' == s.(ui := Sending(Flush(s.tickets)), tickets := s.tickets + 1)
       else s' == s.(ui := Free)
  }

  ghost predicate StepClear(s: State, s': State, id: nat) {
    && s.ui.Free?
    && s' == s.(
         deferred := s.deferred - {id},
         ui := Sending(Remove(id, s.tickets, s.clock)),
         tickets := s.tickets + 1,
         cuts := s.cuts[id := s.clock])
  }

  ghost predicate StepSend(s: State, s': State) {
    && s.ui.Sending? && |s.fifo| < FIFO_CAPACITY
    && s' == s.(fifo := s.fifo + [s.ui.command], ui := Awaiting(s.ui.command))
  }

  ghost predicate StepReturn(s: State, s': State) {
    && s.ui.Awaiting? && Ticket(s.ui.command).Some? && Ticket(s.ui.command).value in s.replies
    && s' == s.(ui := Free)
  }

  ghost predicate StepTakeUpsert(s: State, s': State, e: Edit) {
    && s.fifo != [] && s.fifo[0] == Upsert(e) && Admits(s.pending, e.id)
    && s' == s.(fifo := s.fifo[1..], pending := s.pending[e.id := e])
  }

  ghost predicate StepRefuseUpsert(s: State, s': State, e: Edit) {
    && s.fifo != [] && s.fifo[0] == Upsert(e) && !Admits(s.pending, e.id)
    && s' == s.(fifo := s.fifo[1..], failed := s.failed + {(e.id, e.revision)})
  }

  /** A removal answers Ok only once the record is gone from the store. */
  ghost predicate StepTakeRemove(s: State, s': State, id: nat, deleted: bool, ok: bool) {
    && s.fifo != [] && s.fifo[0].Remove? && s.fifo[0].id == id && (ok ==> deleted)
    && s' == s.(
         fifo := s.fifo[1..],
         pending := s.pending - {id},
         store := if deleted then s.store - {id} else s.store,
         replies := s.replies[s.fifo[0].ticket := ok])
  }

  ghost predicate StepTakeFlush(s: State, s': State, v: Verdicts) {
    && s.fifo != [] && s.fifo[0].Flush? && Judges(v, s.pending)
    && s' == Flushed(s, v).(
         fifo := s.fifo[1..],
         replies := s.replies[s.fifo[0].ticket := FlushOk(s.pending, v)])
  }

  /** The writer saw no command for a while, or edits have waited too long. */
  ghost predicate StepTimer(s: State, s': State, v: Verdicts) {
    Judges(v, s.pending) && s' == Flushed(s, v)
  }

  ghost predicate StepTakeSettle(s: State, s': State, ok: bool) {
    && s.fifo != [] && s.fifo[0].Settle?
    && s' == s.(fifo := s.fifo[1..], replies := s.replies[s.fifo[0].ticket := ok])
  }

  ghost predicate Step(s: State, s': State, action: Action) {
    match action
    case OfferSent(id, size) => StepOfferSent(s, s', Edit(id, size, s.clock))
    case OfferDeferred(id, size) => StepOfferDeferred(s, s', Edit(id, size, s.clock))
    case OfferRefused(id, size) => StepOfferRefused(s, s', Edit(id, size, s.clock))
    case Retry(flush) => StepRetry(s, s', flush)
    case RetrySent => s.ui.Retrying? && s.ui.rest != [] && StepRetrySent(s, s', s.ui.rest[0])
    case RetryDeferred => s.ui.Retrying? && s.ui.rest != [] && StepRetryDeferred(s, s', s.ui.rest[0])
    case RetryRefused => s.ui.Retrying? && s.ui.rest != [] && StepRetryRefused(s, s', s.ui.rest[0])
    case RetryDone => StepRetryDone(s, s')
    case Clear(id) => StepClear(s, s', id)
    case Ask => s.ui.Free? && s' == s.(ui := Sending(Settle(s.tickets)), tickets := s.tickets + 1)
    case Send => StepSend(s, s')
    case GiveUp => (s.ui.Sending? || s.ui.Awaiting?) && s' == s.(ui := Free)
    case Return => StepReturn(s, s')
    case TakeUpsert => s.fifo != [] && s.fifo[0].Upsert? && StepTakeUpsert(s, s', s.fifo[0].edit)
    case RefuseUpsert => s.fifo != [] && s.fifo[0].Upsert? && StepRefuseUpsert(s, s', s.fifo[0].edit)
    case TakeRemove(deleted, ok) =>
      s.fifo != [] && s.fifo[0].Remove? && StepTakeRemove(s, s', s.fifo[0].id, deleted, ok)
    case TakeFlush(v) => StepTakeFlush(s, s', v)
    case TakeSettle(ok) => StepTakeSettle(s, s', ok)
    case Timer(v) => StepTimer(s, s', v)
    case Evict(id) => id in s.store && s.store[id].Foreign? && s' == s.(store := s.store - {id})
  }

  /** A fresh runtime over a store that may hold other sessions' records. */
  ghost predicate Initial(s: State) {
    && s.deferred == map[] && s.fifo == [] && s.pending == map[] && s.ui.Free?
    && s.replies == map[] && s.accepted == map[] && s.written == map[] && s.cuts == map[] && s.failed == {}
    && forall id :: id in s.store ==> s.store[id].Foreign?
  }

  // ----- the line of revisions of one document -----

  function Queued(fifo: seq<Command>, id: nat): seq<nat> {
    if fifo == [] then []
    else if fifo[0].Upsert? && fifo[0].edit.id == id then [fifo[0].edit.revision] + Queued(fifo[1..], id)
    else Queued(fifo[1..], id)
  }

  function Among(edits: seq<Edit>, id: nat): seq<nat> {
    if edits == [] then []
    else if edits[0].id == id then [edits[0].revision] + Among(edits[1..], id)
    else Among(edits[1..], id)
  }

  function At(m: map<nat, Edit>, id: nat): seq<nat> {
    if id in m then [m[id].revision] else []
  }

  function Rest(ui: Ui): seq<Edit> {
    if ui.Retrying? then ui.rest else []
  }

  function Written(s: State, id: nat): seq<nat> {
    if id in s.written then [s.written[id]] else []
  }

  /** What this window has in the store. */
  function OnStore(s: State, id: nat): seq<nat> {
    if id in s.store && s.store[id].Mine? then [s.store[id].revision] else []
  }

  /** What the interface thread still holds back. */
  function HeldBack(s: State, id: nat): seq<nat> {
    Among(Rest(s.ui), id) + At(s.deferred, id)
  }

  /** What was last written and what the writer still has to write. */
  function Ahead(s: State, id: nat): seq<nat> {
    Written(s, id) + At(s.pending, id)
  }

  /** Everything that is on its way for one document, store side first. */
  function Waiting(s: State, id: nat): seq<nat> {
    At(s.pending, id) + Queued(s.fifo, id) + HeldBack(s, id)
  }

  /** All revisions of one document from the store outward. */
  function Line(s: State, id: nat): seq<nat> {
    Written(s, id) + Waiting(s, id)
  }

  ghost predicate Increasing(line: seq<nat>) {
    forall i, j :: 0 <= i < j < |line| ==> line[i] < line[j]
  }

  ghost predicate Older(a: seq<nat>, b: seq<nat>) {
    forall x, y :: x in a && y in b ==> x < y
  }

  ghost predicate Below(a: seq<nat>, bound: nat) {
    forall x :: x in a ==> x < bound
  }

  ghost predicate Staged(w: seq<nat>, p: seq<nat>, q: seq<nat>, h: seq<nat>, bound: nat) {
    && Increasing(q) && Increasing(h) && |w| <= 1 && |p| <= 1
    && Older(w, p) && Older(w, q) && Older(w, h) && Older(p, q) && Older(p, h) && Older(q, h)
    && Below(w, bound) && Below(p, bound) && Below(q, bound) && Below(h, bound)
  }

  /** One past the newest accepted revision. */
  function Bound(s: State, id: nat): nat {
    if id in s.accepted then s.accepted[id] + 1 else 0
  }

  /** What was last written is older than what is pending, which is older than
      what is in the channel, in order, which is older than what is held back;
      nothing is newer than the newest accepted edit. */
  ghost predicate InOrder(s: State, id: nat) {
    && Staged(Written(s, id), At(s.pending, id), Queued(s.fifo, id), HeldBack(s, id), Bound(s, id))
    && Bound(s, id) <= s.clock
    && (OnStore(s, id) == [] || OnStore(s, id) == Written(s, id))
  }

  /** The newest accepted edit of a document is still on its way, is in the store,
      was reported as failed, or predates a request to clear. */
  ghost predicate Accounted(s: State, id: nat) {
    id in s.accepted ==>
      Located(OnStore(s, id), At(s.pending, id), Queued(s.fifo, id), HeldBack(s, id), s.accepted[id])
      || (id, s.accepted[id]) in s.failed
      || (id in s.cuts && s.accepted[id] < s.cuts[id])
  }

  ghost predicate Located(w: seq<nat>, p: seq<nat>, q: seq<nat>, h: seq<nat>, r: nat) {
    r in w || r in p || r in q || r in h
  }

  predicate DistinctIds(edits: seq<Edit>) {
    forall i, j :: 0 <= i < j < |edits| ==> edits[i].id != edits[j].id
  }

  /** The deferral limits, counting edits that a retry has in hand. */
  ghost predicate Bounded(s: State) {
    && |s.deferred| + |Rest(s.ui)| <= MAX_DEFERRED
    && Total(s.deferred) + Sum(Rest(s.ui)) <= MAX_DEFERRED_BYTES
    && |s.pending| <= MAX_PENDING
    && |s.fifo| <= FIFO_CAPACITY
    && (forall id :: id in s.deferred ==> s.deferred[id].id == id)
    && (forall id :: id in s.pending ==> s.pending[id].id == id)
    && DistinctIds(Rest(s.ui))
    && (forall i :: 0 <= i < |Rest(s.ui)| ==> Rest(s.ui)[i].id !in s.deferred)
  }

  // ----- calls that wait -----

  /** What follows a command in the channel. */
  function After(fifo: seq<Command>, c: Command): seq<Command> {
    if fifo == [] then []
    else if fifo[0] == c then fifo[1..]
    else After(fifo[1..], c)
  }

  predicate NoUpsert(fifo: seq<Command>) {
    forall i :: 0 <= i < |fifo| ==> !fifo[i].Upsert?
  }

  predicate NoUpsertOf(fifo: seq<Command>, id: nat) {
    forall i :: 0 <= i < |fifo| && fifo[i].Upsert? ==> fifo[i].edit.id != id
  }

  /** Nothing of the document is queued or stored anywhere. */
  predicate Gone(s: State, id: nat) {
    && id !in s.deferred && id !in s.pending && id !in s.store
    && NoUpsertOf(s.fifo, id)
    && forall i :: 0 <= i < |Rest(s.ui)| ==> Rest(s.ui)[i].id != id
  }

  /** No accepted edit is waiting anywhere. */
  predicate Empty(s: State) {
    && s.deferred == map[] && s.pending == map[] && NoUpsert(s.fifo) && Rest(s.ui) == []
  }

  ghost predicate Tickets(s: State) {
    && (forall i :: 0 <= i < |s.fifo| && Ticket(s.fifo[i]).Some? ==>
          Ticket(s.fifo[i]).value < s.tickets && Ticket(s.fifo[i]).value !in s.replies)
    && (forall i, j :: 0 <= i < j < |s.fifo| && Ticket(s.fifo[i]).Some? ==> Ticket(s.fifo[i]) != Ticket(s.fifo[j]))
    && (forall t :: t in s.replies ==> t < s.tickets)
    && (s.ui.Sending? ==>
          && Ticket(s.ui.command).Some? && Ticket(s.ui.command).value < s.tickets
          && Ticket(s.ui.command).value !in s.replies
          && forall i :: 0 <= i < |s.fifo| ==> Ticket(s.fifo[i]) != Ticket(s.ui.command))
    && (s.ui.Awaiting? ==>
          && Ticket(s.ui.command).Some? && Ticket(s.ui.command).value < s.tickets
          && (s.ui.command in s.fifo || Ticket(s.ui.command).value in s.replies))
  }

  /** While a call waits, the interface thread adds nothing behind it. */
  ghost predicate Waits(s: State) {
    && (s.ui.Sending? && s.ui.command.Flush? ==> s.deferred == map[])
    && (s.ui.Sending? && s.ui.command.Remove? ==>
          && s.ui.command.id !in s.deferred && s.ui.command.cut == s.clock
          && s.ui.command.id in s.cuts && s.ui.command.cut <= s.cuts[s.ui.command.id])
    && (s.ui.Awaiting? && s.ui.command.Flush? ==>
          s.deferred == map[] && (s.ui.command !in s.fifo ==> s.pending == map[]))
    && (s.ui.Awaiting? && s.ui.command.Remove? ==>
          var id := s.ui.command.id;
          && id !in s.deferred
          && (s.ui.command !in s.fifo ==>
                && id !in s.pending
                && (s.ui.command.ticket in s.replies && s.replies[s.ui.command.ticket] ==> id !in s.store)))
    && (s.ui.Awaiting? ==> After(s.fifo, s.ui.command) == [] && (s.ui.command !in s.fifo ==> s.fifo == []))
  }

  /** A removal in the channel only discards edits older than its request. */
  ghost predicate Cuts(s: State) {
    (forall id :: id in s.cuts ==> s.cuts[id] <= s.clock) &&
    forall i :: 0 <= i < |s.fifo| && s.fifo[i].Remove? ==>
      && s.fifo[i].id in s.cuts && s.fifo[i].cut <= s.cuts[s.fifo[i].id]
      && (forall r :: r in Ahead(s, s.fifo[i].id) || r in Queued(s.fifo[..i], s.fifo[i].id) ==> r < s.fifo[i].cut)
  }

  ghost predicate Inv(s: State) {
    && Bounded(s)
    && (forall id :: InOrder(s, id) && Accounted(s, id))
    && Tickets(s)
    && Waits(s)
    && Cuts(s)
  }

  // ----- facts about lines -----

  lemma {:induction false} QueuedAppend(a: seq<Command>, b: seq<Command>, id: nat)
    ensures Queued(a + b, id) == Queued(a, id) + Queued(b, id)
  {
    if a == [] {
      assert a + b == b;
    } else {
      QueuedAppend(a[1..], b, id);
      assert (a + b)[1..] == a[1..] + b;
    }
  }

  lemma {:induction false} QueuedNone(fifo: seq<Command>, id: nat)
    ensures Queued(fifo, id) == [] <==> NoUpsertOf(fifo, id)
  {
    if fifo != [] {
      QueuedNone(fifo[1..], id);
      forall i | 0 < i < |fifo| ensures fifo[i] == fifo[1..][i - 1] {}
    }
  }

  lemma {:induction false} AmongNone(edits: seq<Edit>, id: nat)
    ensures Among(edits, id) == [] <==> forall i :: 0 <= i < |edits| ==> edits[i].id != id
  {
    if edits != [] {
      AmongNone(edits[1..], id);
      forall i | 0 < i < |edits| ensures edits[i] == edits[1..][i - 1] {}
    }
  }

  lemma {:induction false} AmongAscending(m: map<nat, Edit>, id: nat)
    requires forall k :: k in m ==> m[k].id == k
    ensures Among(Ascending(m), id) == At(m, id)
    ensures DistinctIds(Ascending(m))
    ensures forall e :: e in Ascending(m) ==> e.id in m && m[e.id] == e
    decreases |m|
  {
    if m != map[] {
      var k := MinOf(m.Keys);
      var rest := m - {k};
      AmongAscending(rest, id);
      var s := Ascending(rest);
      assert Ascending(m) == [m[k]] + s && ([m[k]] + s)[1..] == s;
      assert At(rest, id) == if id == k then [] else At(m, id);
      forall i, j | 0 <= i < j < |[m[k]] + s| ensures ([m[k]] + s)[i].id != ([m[k]] + s)[j].id {
        assert s[j - 1] in s;
      }
    }
  }

  lemma IncreasingJoin(a: seq<nat>, b: seq<nat>)
    requires Increasing(a) && Increasing(b) && Older(a, b)
    ensures Increasing(a + b)
  {
    forall i, j | 0 <= i < j < |a + b| ensures (a + b)[i] < (a + b)[j] {
      if i < |a| && j >= |a| {
        assert a[i] in a && b[j - |a|] in b;
      }
    }
  }

  /** Read as one sequence, the stages of a document are strictly increasing. */
  lemma LineIncreases(s: State, id: nat)
    requires InOrder(s, id)
    ensures Increasing(Line(s, id))
  {
    var w, p, q, h := Written(s, id), At(s.pending, id), Queued(s.fifo, id), HeldBack(s, id);
    IncreasingJoin(p, q);
    IncreasingJoin(p + q, h);
    IncreasingJoin(w, p + q + h);
    assert w + (p + q + h) == Line(s, id);
  }

  // ----- placing an edit -----

  lemma QueuedOne(fifo: seq<Command>, e: Edit, id: nat)
    ensures Queued(fifo + [Upsert(e)], id) == Queued(fifo, id) + if e.id == id then [e.revision] else []
  {
    QueuedAppend(fifo, [Upsert(e)], id);
    assert [Upsert(e)][1..] == [];
  }

  lemma QueuedOther(fifo: seq<Command>, c: Command, id: nat)
    requires !c.Upsert?
    ensures Queued(fifo + [c], id) == Queued(fifo, id)
  {
    QueuedAppend(fifo, [c], id);
    assert [c][1..] == [];
  }

  lemma AppendStage(w: seq<nat>, p: seq<nat>, q: seq<nat>, h: seq<nat>, bound: nat, r: nat)
    requires Staged(w, p, q, h, bound) && bound <= r
    ensures Staged(w, p, q + [r], [], r + 1) && Staged(w, p, q, [r], r + 1)
    ensures r in q + [r] && r in [r]
  {
    IncreasingJoin(q, [r]);
    assert (q + [r])[|q|] == r;
  }

  lemma MoveStage(w: seq<nat>, p: seq<nat>, q: seq<nat>, bound: nat, r: nat)
    requires Staged(w, p, q, [r], bound)
    ensures Staged(w, p, q + [r], [], bound)
    ensures forall x: nat :: Located(w, p, q, [r], x) ==> Located(w, p, q + [r], [], x)
  {
    assert r in [r];
    IncreasingJoin(q, [r]);
    assert (q + [r])[|q|] == r;
  }

  lemma TakeStage(w: seq<nat>, p: seq<nat>, r: nat, q: seq<nat>, h: seq<nat>, bound: nat)
    requires Staged(w, p, [r] + q, h, bound)
    ensures Staged(w, [r], q, h, bound) && Staged(w, p, q, h, bound)
    ensures forall x: nat :: Located(w, p, [r] + q, h, x) && x + 1 == bound ==> Located(w, [r], q, h, x)
    ensures forall x: nat :: Located(w, p, [r] + q, h, x) ==> x == r || Located(w, p, q, h, x)
  {
    TailIncreasing([r], q);
    assert forall x :: x in q ==> x in [r] + q;
    assert r in [r] + q && r in [r];
    assert forall x :: x in [r] + q ==> x == r || x in q;
    assert forall x :: x in p ==> x < r < bound;
  }

  lemma FlushStage(w: seq<nat>, p: seq<nat>, q: seq<nat>, h: seq<nat>, bound: nat)
    requires Staged(w, p, q, h, bound)
    ensures Staged(p, [], q, h, bound) && Staged(w, [], q, h, bound)
    ensures forall x: nat :: p != [] && Located(w, p, q, h, x) && x + 1 == bound ==> Located(p, [], q, h, x)
  {
    if p != [] {
      assert p[0] in p;
      assert forall x :: x in w ==> x < p[0] < bound;
    }
  }

  lemma DropHeld(w: seq<nat>, p: seq<nat>, q: seq<nat>, h: seq<nat>, bound: nat)
    requires Staged(w, p, q, h, bound)
    ensures Staged(w, p, q, [], bound)
    ensures forall x: nat :: Located(w, p, q, h, x) ==> Located(w, p, q, [], x) || x < bound
  {
  }

  lemma TailIncreasing(a: seq<nat>, b: seq<nat>)
    requires Increasing(a + b)
    ensures Increasing(b) && Older(a, b)
  {
    forall i, j | 0 <= i < j < |b| ensures b[i] < b[j] {
      assert (a + b)[|a| + i] == b[i] && (a + b)[|a| + j] == b[j];
    }
    forall i, j | 0 <= i < |a| && 0 <= j < |b| ensures a[i] < b[j] {
      assert (a + b)[i] == a[i] && (a + b)[|a| + j] == b[j];
    }
  }

  /** What this window has in the store is no newer than what it last wrote. */
  lemma StoreStaged(s: State, id: nat)
    requires InOrder(s, id)
    ensures Staged(OnStore(s, id), At(s.pending, id), Queued(s.fifo, id), HeldBack(s, id), Bound(s, id))
    ensures OnStore(s, id) == [] || OnStore(s, id) == Written(s, id)
  {
    hide At, Queued, HeldBack, Bound, OnStore;
  }

  predicate SameAt<V(==)>(a: map<nat, V>, b: map<nat, V>, id: nat) {
    (id in a <==> id in b) && (id in a ==> a[id] == b[id])
  }

  /** The document `id` looks the same in both states. */
  ghost predicate Alike(s: State, t: State, id: nat) {
    && SameAt(s.written, t.written, id) && SameAt(s.pending, t.pending, id) && SameAt(s.accepted, t.accepted, id)
    && Queued(t.fifo, id) == Queued(s.fifo, id) && HeldBack(t, id) == HeldBack(s, id)
    && s.clock <= t.clock
    && OnStore(t, id) == OnStore(s, id)
    && s.failed <= t.failed
    && (id in s.cuts ==> id in t.cuts && s.cuts[id] <= t.cuts[id])
  }

  lemma AlikeOrder(s: State, t: State, id: nat)
    requires InOrder(s, id) && Accounted(s, id) && Alike(s, t, id)
    ensures InOrder(t, id) && Accounted(t, id)
  {
  }

  /** Nothing happened to the document but to its edits on the way. */
  ghost predicate Settled(s: State, t: State, id: nat) {
    && SameAt(s.written, t.written, id) && OnStore(t, id) == OnStore(s, id)
    && SameAt(s.accepted, t.accepted, id) && t.clock == s.clock && s.failed <= t.failed && t.cuts == s.cuts
  }

  lemma SettledParts(s: State, t: State, id: nat)
    requires Settled(s, t, id)
    ensures Written(t, id) == Written(s, id) && OnStore(t, id) == OnStore(s, id) && Bound(t, id) == Bound(s, id)
    ensures id in t.accepted <==> id in s.accepted
    ensures id in t.accepted ==> t.accepted[id] == s.accepted[id] && Bound(s, id) == s.accepted[id] + 1
  {
    hide OnStore;
  }

  lemma TakenParts(s: State, t: State, id: nat, r: nat)
    requires InOrder(s, id) && Accounted(s, id) && Settled(s, t, id) && At(t.pending, id) == [r]
    requires Queued(s.fifo, id) == [r] + Queued(t.fifo, id) && HeldBack(t, id) == HeldBack(s, id)
    ensures InOrder(t, id) && Accounted(t, id)
  {
    StoreStaged(s, id);
    SettledParts(s, t, id);
    hide Written, At, Queued, HeldBack, OnStore, Bound, Staged, Located;
    TakeStage(Written(s, id), At(s.pending, id), r, Queued(t.fifo, id), HeldBack(s, id), Bound(s, id));
    TakeStage(OnStore(s, id), At(s.pending, id), r, Queued(t.fifo, id), HeldBack(s, id), Bound(s, id));
  }

  lemma MovedParts(s: State, t: State, id: nat, r: nat)
    requires InOrder(s, id) && Accounted(s, id) && Settled(s, t, id) && At(t.pending, id) == At(s.pending, id)
    requires HeldBack(s, id) == [r] && HeldBack(t, id) == [] && Queued(t.fifo, id) == Queued(s.fifo, id) + [r]
    ensures InOrder(t, id) && Accounted(t, id)
  {
    StoreStaged(s, id);
    SettledParts(s, t, id);
    hide Written, At, Queued, HeldBack, OnStore, Bound, Staged, Located;
    MoveStage(Written(s, id), At(s.pending, id), Queued(s.fifo, id), Bound(s, id), r);
    MoveStage(OnStore(s, id), At(s.pending, id), Queued(s.fifo, id), Bound(s, id), r);
  }

  lemma OfferSentOrder(s: State, t: State, e: Edit, id: nat)
    requires InOrder(s, id) && Accounted(s, id) && StepOfferSent(s, t, e)
    ensures InOrder(t, id) && Accounted(t, id)
  {
    QueuedOne(s.fifo, e, id);
    if id == e.id {
      AppendStage(
        Written(s, id), At(s.pending, id), Queued(s.fifo, id), HeldBack(s, id), Bound(s, id), e.revision);
      assert HeldBack(t, id) == [];
    } else {
      AlikeOrder(s, t, id);
    }
  }

  lemma OfferDeferredOrder(s: State, t: State, e: Edit, id: nat)
    requires InOrder(s, id) && Accounted(s, id) && StepOfferDeferred(s, t, e)
    ensures InOrder(t, id) && Accounted(t, id)
  {
    if id == e.id {
      AppendStage(
        Written(s, id), At(s.pending, id), Queued(s.fifo, id), HeldBack(s, id), Bound(s, id), e.revision);
      assert HeldBack(t, id) == [e.revision];
    } else {
      AlikeOrder(s, t, id);
    }
  }

  lemma RetrySentOrder(s: State, t: State, e: Edit, id: nat)
    requires InOrder(s, id) && Accounted(s, id) && Bounded(s) && StepRetrySent(s, t, e)
    ensures InOrder(t, id) && Accounted(t, id)
  {
    hide InOrder, Accounted;
    QueuedOne(s.fifo, e, id);
    RestOfRetry(s, id);
    RetrySentParts(s, t, e, id);
    if id == e.id {
      MovedParts(s, t, id, e.revision);
    } else {
      AlikeOrder(s, t, id);
    }
  }

  lemma RetrySentParts(s: State, t: State, e: Edit, id: nat)
    requires StepRetrySent(s, t, e)
    requires Among(s.ui.rest[1..], id) == if id == e.id then [] else Among(s.ui.rest, id)
    requires id == e.id ==> id !in s.deferred && Among(s.ui.rest, id) == [e.revision]
    ensures HeldBack(t, id) == if id == e.id then [] else HeldBack(s, id)
    ensures id == e.id ==> HeldBack(s, id) == [e.revision]
  {
    assert At(t.deferred, id) == if id == e.id then [] else At(s.deferred, id);
  }

  lemma RetryDeferredOrder(s: State, t: State, e: Edit, id: nat)
    requires InOrder(s, id) && Accounted(s, id) && Bounded(s) && StepRetryDeferred(s, t, e)
    ensures InOrder(t, id) && Accounted(t, id)
  {
    hide InOrder, Accounted, Bounded, Queued, RoomFor;
    RestOfRetry(s, id);
    assert At(t.deferred, id) == if id == e.id then [e.revision] else At(s.deferred, id);
    AlikeOrder(s, t, id);
  }

  lemma RestOfRetry(s: State, id: nat)
    requires Bounded(s) && s.ui.Retrying? && s.ui.rest != []
    ensures Among(s.ui.rest[1..], id) == if id == s.ui.rest[0].id then [] else Among(s.ui.rest, id)
    ensures id == s.ui.rest[0].id ==> id !in s.deferred && Among(s.ui.rest, id) == [s.ui.rest[0].revision]
  {
    var rest := s.ui.rest;
    assert Rest(s.ui)[0].id !in s.deferred;
    forall i | 0 <= i < |rest[1..]| ensures rest[1..][i].id != rest[0].id {
      assert rest[1..][i] == rest[i + 1];
    }
    AmongNone(rest[1..], rest[0].id);
  }

  lemma TakenOrder(s: State, t: State, e: Edit, id: nat)
    requires InOrder(s, id) && Accounted(s, id) && StepTakeUpsert(s, t, e)
    ensures InOrder(t, id) && Accounted(t, id)
  {
    hide InOrder, Accounted;
    if id == e.id {
      assert Queued(s.fifo, id) == [e.revision] + Queued(t.fifo, id);
      TakenParts(s, t, id, e.revision);
    } else {
      AlikeOrder(s, t, id);
    }
  }

  lemma RefusedOrder(s: State, t: State, e: Edit, id: nat)
    requires InOrder(s, id) && Accounted(s, id) && StepRefuseUpsert(s, t, e)
    ensures InOrder(t, id) && Accounted(t, id)
  {
    if id == e.id {
      assert Queued(s.fifo, id) == [e.revision] + Queued(t.fifo, id);
      TakeStage(Written(s, id), At(s.pending, id), e.revision, Queued(t.fifo, id), HeldBack(s, id), Bound(s, id));
    } else {
      AlikeOrder(s, t, id);
    }
  }

  lemma FlushOrder(s: State, t: State, v: Verdicts, id: nat)
    requires InOrder(s, id) && Accounted(s, id) && Judges(v, s.pending)
    requires t.pending == map[] && t.store == FlushedStore(s.store, s.pending, v)
    requires t.written == FlushedWritten(s.written, s.pending, v)
    requires t.failed == s.failed + FlushedFailures(s.pending, v)
    requires Queued(t.fifo, id) == Queued(s.fifo, id) && HeldBack(t, id) == HeldBack(s, id)
    requires t.accepted == s.accepted && t.clock == s.clock && t.cuts == s.cuts
    ensures InOrder(t, id) && Accounted(t, id)
  {
    hide Queued, HeldBack, Among;
    if id in s.pending {
      var r := s.pending[id].revision;
      FlushStage(Written(s, id), At(s.pending, id), Queued(s.fifo, id), HeldBack(s, id), Bound(s, id));
      if id in v.reported {
        assert (id, r) in FlushedFailures(s.pending, v);
      }
      if id in v.landed {
        assert Written(t, id) == At(s.pending, id);
      } else {
        assert Written(t, id) == Written(s, id);
        assert forall x :: x in At(s.pending, id) ==> x == r;
      }
    } else {
      assert Written(t, id) == Written(s, id);
      AlikeOrder(s, t, id);
    }
  }

  lemma TakeFlushOrder(s: State, t: State, v: Verdicts, id: nat)
    requires InOrder(s, id) && Accounted(s, id) && StepTakeFlush(s, t, v)
    ensures InOrder(t, id) && Accounted(t, id)
  {
    FlushOrder(s, t, v, id);
  }

  lemma TimerOrder(s: State, t: State, v: Verdicts, id: nat)
    requires InOrder(s, id) && Accounted(s, id) && StepTimer(s, t, v)
    ensures InOrder(t, id) && Accounted(t, id)
  {
    FlushOrder(s, t, v, id);
  }

  /** What is written or pending is older than the cut, so losing it is accounted for. */
  lemma RemovedParts(s: State, t: State, id: nat, cut: nat)
    requires InOrder(s, id) && Accounted(s, id) && id in s.cuts && cut <= s.cuts[id]
    requires forall r :: r in Ahead(s, id) ==> r < cut
    requires At(t.pending, id) == [] && (OnStore(t, id) == [] || OnStore(t, id) == OnStore(s, id))
    requires Written(t, id) == Written(s, id) && Queued(t.fifo, id) == Queued(s.fifo, id)
    requires HeldBack(t, id) == HeldBack(s, id) && t.failed == s.failed && t.cuts == s.cuts
    requires t.accepted == s.accepted && t.clock == s.clock
    ensures InOrder(t, id) && Accounted(t, id)
  {
    hide Written, At, Queued, HeldBack, OnStore;
    FlushStage(Written(s, id), At(s.pending, id), Queued(s.fifo, id), HeldBack(s, id), Bound(s, id));
    assert forall r :: r in OnStore(s, id) || r in At(s.pending, id) ==> r in Ahead(s, id);
  }

  lemma RemoveOrder(s: State, t: State, i: nat, deleted: bool, ok: bool, id: nat)
    requires InOrder(s, id) && Accounted(s, id) && Cuts(s) && StepTakeRemove(s, t, i, deleted, ok)
    ensures InOrder(t, id) && Accounted(t, id)
  {
    hide InOrder, Accounted;
    assert Queued(t.fifo, id) == Queued(s.fifo, id);
    if id == i {
      assert s.fifo[0].Remove?;
      RemovedParts(s, t, id, s.fifo[0].cut);
    } else {
      AlikeOrder(s, t, id);
    }
  }

  lemma ClearOrder(s: State, t: State, i: nat, id: nat)
    requires InOrder(s, id) && Accounted(s, id) && StepClear(s, t, i)
    requires id in s.cuts ==> s.cuts[id] <= s.clock
    ensures InOrder(t, id) && Accounted(t, id)
  {
    if id == i {
      DropHeld(Written(s, id), At(s.pending, id), Queued(s.fifo, id), HeldBack(s, id), Bound(s, id));
      assert HeldBack(t, id) == [];
    } else {
      AlikeOrder(s, t, id);
    }
  }

  lemma SendOrder(s: State, t: State, id: nat)
    requires InOrder(s, id) && Accounted(s, id) && Tickets(s) && StepSend(s, t)
    ensures InOrder(t, id) && Accounted(t, id)
  {
    QueuedOther(s.fifo, s.ui.command, id);
    AlikeOrder(s, t, id);
  }

  lemma RetryOrder(s: State, t: State, flush: bool, id: nat)
    requires InOrder(s, id) && Accounted(s, id) && StepRetry(s, t, flush)
    requires forall k :: k in s.deferred ==> s.deferred[k].id == k
    ensures InOrder(t, id) && Accounted(t, id)
  {
    AmongAscending(s.deferred, id);
    AlikeOrder(s, t, id);
  }

  lemma SettleOrder(s: State, t: State, ok: bool, id: nat)
    requires InOrder(s, id) && Accounted(s, id) && StepTakeSettle(s, t, ok)
    ensures InOrder(t, id) && Accounted(t, id)
  {
    AlikeOrder(s, t, id);
  }

  /** Only the interface thread's own business, the clock or foreign records
      changed. */
  ghost predicate Quiet(s: State, t: State) {
    && t.deferred == s.deferred && t.fifo == s.fifo && t.pending == s.pending && Rest(t.ui) == Rest(s.ui)
    && t.accepted == s.accepted && t.written == s.written && t.cuts == s.cuts && t.failed == s.failed
    && s.clock <= t.clock
    && (forall id :: OnStore(t, id) == OnStore(s, id))
  }

  lemma QuietOrder(s: State, t: State, id: nat)
    requires InOrder(s, id) && Accounted(s, id) && Quiet(s, t)
    ensures InOrder(t, id) && Accounted(t, id)
  {
    AlikeOrder(s, t, id);
  }

  lemma RetryDoneQuiet(s: State, t: State)
    requires StepRetryDone(s, t)
    ensures Quiet(s, t)
  {
  }

  lemma QuietSteps(s: State, t: State, action: Action)
    requires Step(s, t, action)
    requires action.OfferRefused? || action.RetryDone? || action.Ask? || action.GiveUp? || action.Return? || action.Evict?
    ensures Quiet(s, t)
  {
    if action.RetryDone? {
      RetryDoneQuiet(s, t);
    }
  }

  predicate OfInterface(action: Action) {
    || action.OfferSent? || action.OfferDeferred? || action.Retry? || action.RetrySent?
    || action.RetryDeferred? || action.RetryRefused? || action.Clear? || action.Send?
  }

  predicate OfWriter(action: Action) {
    || action.TakeUpsert? || action.RefuseUpsert? || action.TakeRemove? || action.TakeFlush?
    || action.TakeSettle? || action.Timer?
  }

  lemma InterfaceOrder(s: State, t: State, action: Action, id: nat)
    requires InOrder(s, id) && Accounted(s, id) && Bounded(s) && Tickets(s) && Cuts(s)
    requires Step(s, t, action) && OfInterface(action)
    ensures InOrder(t, id) && Accounted(t, id)
  {
    match action
    case OfferSent(i, size) => OfferSentOrder(s, t, Edit(i, size, s.clock), id);
    case OfferDeferred(i, size) => OfferDeferredOrder(s, t, Edit(i, size, s.clock), id);
    case Retry(flush) => RetryOrder(s, t, flush, id);
    case RetrySent => RetrySentOrder(s, t, s.ui.rest[0], id);
    case RetryDeferred => RetryDeferredOrder(s, t, s.ui.rest[0], id);
    case RetryRefused => RetryHasRoom(s);
    case Clear(i) => ClearOrder(s, t, i, id);
    case Send => SendOrder(s, t, id);
  }

  lemma WriterOrder(s: State, t: State, action: Action, id: nat)
    requires InOrder(s, id) && Accounted(s, id) && Cuts(s)
    requires Step(s, t, action) && OfWriter(action)
    ensures InOrder(t, id) && Accounted(t, id)
  {
    match action
    case TakeUpsert => TakenOrder(s, t, s.fifo[0].edit, id);
    case RefuseUpsert => RefusedOrder(s, t, s.fifo[0].edit, id);
    case TakeRemove(deleted, ok) => RemoveOrder(s, t, s.fifo[0].id, deleted, ok, id);
    case TakeFlush(v) => TakeFlushOrder(s, t, v, id);
    case TakeSettle(ok) => SettleOrder(s, t, ok, id);
    case Timer(v) => TimerOrder(s, t, v, id);
  }

  lemma StepOrder(s: State, t: State, action: Action, id: nat)
    requires Inv(s) && Step(s, t, action)
    ensures InOrder(t, id) && Accounted(t, id)
  {
    assert InOrder(s, id) && Accounted(s, id);
    if OfInterface(action) {
      InterfaceOrder(s, t, action, id);
    } else if OfWriter(action) {
      WriterOrder(s, t, action, id);
    } else {
      QuietSteps(s, t, action);
      QuietOrder(s, t, id);
    }
  }

  // ----- bounds -----

  /** A retry finds room for every edit it has in hand. */
  lemma RetryHasRoom(s: State)
    requires Bounded(s) && s.ui.Retrying? && s.ui.rest != []
    ensures RoomFor(s.deferred, s.ui.rest[0])
  {
    assert Rest(s.ui)[0].id !in s.deferred;
    TotalPut(s.deferred, s.ui.rest[0]);
  }

  lemma OfferSentBounded(s: State, t: State, e: Edit)
    requires Bounded(s) && StepOfferSent(s, t, e)
    ensures Bounded(t)
  {
    TotalPut(s.deferred, e);
    assert (s.deferred - {e.id}).Keys == s.deferred.Keys - {e.id};
  }

  lemma OfferDeferredBounded(s: State, t: State, e: Edit)
    requires Bounded(s) && StepOfferDeferred(s, t, e)
    ensures Bounded(t)
  {
    TotalPut(s.deferred, e);
    assert s.deferred[e.id := e].Keys == s.deferred.Keys + {e.id};
  }

  lemma RestBounds(s: State, t: State)
    requires Bounded(s) && s.ui.Retrying? && s.ui.rest != [] && t.ui == s.ui.(rest := s.ui.rest[1..])
    ensures DistinctIds(Rest(t.ui)) && |Rest(t.ui)| == |Rest(s.ui)| - 1
    ensures Sum(Rest(t.ui)) + s.ui.rest[0].size == Sum(Rest(s.ui))
    ensures forall i :: 0 <= i < |Rest(t.ui)| ==>
              Rest(t.ui)[i].id !in s.deferred && Rest(t.ui)[i].id != s.ui.rest[0].id
  {
    var rest := s.ui.rest;
    assert Rest(s.ui) == rest && Rest(t.ui) == rest[1..];
    forall i | 0 <= i < |rest[1..]| ensures rest[1..][i].id !in s.deferred && rest[1..][i].id != rest[0].id {
      assert rest[1..][i] == Rest(s.ui)[i + 1];
    }
  }

  lemma RetrySentBounded(s: State, t: State, e: Edit)
    requires Bounded(s) && StepRetrySent(s, t, e)
    ensures Bounded(t)
  {
    hide Sum, Total, DistinctIds;
    RestBounds(s, t);
    TotalPut(s.deferred, e);
    assert (s.deferred - {e.id}).Keys == s.deferred.Keys - {e.id};
  }

  lemma RetryDeferredBounded(s: State, t: State, e: Edit)
    requires Bounded(s) && StepRetryDeferred(s, t, e)
    ensures Bounded(t)
  {
    hide Sum, Total, DistinctIds, RoomFor, Rest;
    RestBounds(s, t);
    NewDeferred(s, e);
  }

  lemma NewDeferred(s: State, e: Edit)
    requires Bounded(s) && InHand(s, e)
    ensures |s.deferred[e.id := e]| == |s.deferred| + 1
    ensures Total(s.deferred[e.id := e]) == Total(s.deferred) + e.size
  {
    hide Sum, Total, DistinctIds;
    TotalPut(s.deferred, e);
    assert e == Rest(s.ui)[0];
    assert s.deferred[e.id := e].Keys == s.deferred.Keys + {e.id};
  }

  lemma RetryBounded(s: State, t: State, flush: bool)
    requires Bounded(s) && StepRetry(s, t, flush)
    ensures Bounded(t)
  {
    AscendingFits(s.deferred);
    AmongAscending(s.deferred, 0);
  }

  lemma ClearBounded(s: State, t: State, id: nat)
    requires Bounded(s) && StepClear(s, t, id)
    ensures Bounded(t)
  {
    TotalPut(s.deferred, Edit(id, 0, 0));
    assert (s.deferred - {id}).Keys == s.deferred.Keys - {id};
  }

  lemma TakeBounded(s: State, t: State, e: Edit)
    requires Bounded(s) && StepTakeUpsert(s, t, e)
    ensures Bounded(t)
  {
    assert s.pending[e.id := e].Keys == s.pending.Keys + {e.id};
  }

  lemma RemoveBounded(s: State, t: State, id: nat, deleted: bool, ok: bool)
    requires Bounded(s) && StepTakeRemove(s, t, id, deleted, ok)
    ensures Bounded(t)
  {
    assert (s.pending - {id}).Keys == s.pending.Keys - {id};
  }

  lemma StepBounded(s: State, t: State, action: Action)
    requires Bounded(s) && Step(s, t, action)
    ensures Bounded(t)
  {
    hide Sum, Total, DistinctIds;
    if OfInterface(action) {
      match action {
        case OfferSent(id, size) => OfferSentBounded(s, t, Edit(id, size, s.clock));
        case OfferDeferred(id, size) => OfferDeferredBounded(s, t, Edit(id, size, s.clock));
        case Retry(flush) => RetryBounded(s, t, flush);
        case RetrySent => RetrySentBounded(s, t, s.ui.rest[0]);
        case RetryDeferred => RetryDeferredBounded(s, t, s.ui.rest[0]);
        case RetryRefused => RetryHasRoom(s);
        case Clear(id) => ClearBounded(s, t, id);
        case Send =>
      }
    } else if OfWriter(action) {
      WriterBounded(s, t, action);
    } else {
      QuietSteps(s, t, action);
    }
  }

  lemma WriterBounded(s: State, t: State, action: Action)
    requires Bounded(s) && Step(s, t, action) && OfWriter(action)
    ensures Bounded(t)
  {
    match action
    case TakeUpsert => TakeBounded(s, t, s.fifo[0].edit);
    case TakeRemove(deleted, ok) => RemoveBounded(s, t, s.fifo[0].id, deleted, ok);
    case _ =>
  }

  // ----- tickets -----

  /** The channel lost its first command, which was answered if it could be. */
  ghost predicate Popped(s: State, t: State) {
    && s.fifo != [] && t.fifo == s.fifo[1..] && t.ui == s.ui && t.tickets == s.tickets
    && (Ticket(s.fifo[0]).None? ==> t.replies == s.replies)
    && (Ticket(s.fifo[0]).Some? ==>
          && Ticket(s.fifo[0]).value in t.replies
          && t.replies == s.replies[Ticket(s.fifo[0]).value := t.replies[Ticket(s.fifo[0]).value]])
  }

  lemma PoppedTickets(s: State, t: State)
    requires Tickets(s) && Popped(s, t)
    ensures Tickets(t)
  {
    forall i | 0 <= i < |t.fifo| ensures t.fifo[i] == s.fifo[i + 1] {}
    if s.ui.Awaiting? && s.ui.command in s.fifo && s.ui.command != s.fifo[0] {
      assert s.fifo == [s.fifo[0]] + t.fifo;
    }
  }

  /** The interface thread put something at the end of the channel. */
  lemma UpsertSentTickets(s: State, t: State, e: Edit)
    requires Tickets(s) && t.fifo == s.fifo + [Upsert(e)] && t.replies == s.replies && t.tickets == s.tickets
    requires t.ui.Free? || t.ui.Retrying?
    ensures Tickets(t)
  {
  }

  lemma SendTickets(s: State, t: State)
    requires Tickets(s) && StepSend(s, t)
    ensures Tickets(t)
  {
    assert t.fifo[|s.fifo|] == s.ui.command;
  }

  /** A waiting call was opened with a fresh ticket, or given up. */
  lemma CallTickets(s: State, t: State)
    requires Tickets(s) && t.fifo == s.fifo && t.replies == s.replies
    requires || (t.ui.Sending? && Ticket(t.ui.command) == Some(s.tickets) && t.tickets == s.tickets + 1)
             || ((t.ui.Free? || t.ui.Retrying?) && t.tickets == s.tickets)
    ensures Tickets(t)
  {
  }

  // ----- waiting calls -----

  lemma {:induction false} AfterPop(fifo: seq<Command>, c: Command)
    requires fifo != [] && fifo[0] != c
    ensures After(fifo[1..], c) == After(fifo, c)
    ensures c in fifo <==> c in fifo[1..]
  {
    assert fifo == [fifo[0]] + fifo[1..];
  }

  lemma {:induction false} AfterAppend(fifo: seq<Command>, c: Command)
    requires c !in fifo
    ensures After(fifo + [c], c) == []
  {
    if fifo == [] {
      assert [c][1..] == [];
    } else {
      AfterAppend(fifo[1..], c);
      assert (fifo + [c])[1..] == fifo[1..] + [c];
    }
  }

  /** The writer took the first command and did what it asks for. */
  ghost predicate Handled(s: State, t: State) {
    && Popped(s, t) && t.deferred == s.deferred && t.cuts == s.cuts && t.clock == s.clock
    && (s.fifo[0].Upsert? ==> t.store == s.store)
    && (s.fifo[0].Upsert? ==> forall id :: id in t.pending ==> id in s.pending || id == s.fifo[0].edit.id)
    && (s.fifo[0].Remove? ==> t.pending == s.pending - {s.fifo[0].id})
    && (s.fifo[0].Remove? ==> forall id :: id in t.store ==> id in s.store)
    && (s.fifo[0].Remove? && t.replies[s.fifo[0].ticket] ==> s.fifo[0].id !in t.store)
    && (s.fifo[0].Flush? ==> t.pending == map[] && forall id :: id in t.store ==> id in s.store || id in s.pending)
    && (s.fifo[0].Settle? ==> t.pending == s.pending && t.store == s.store)
    && (forall id :: id in t.pending ==>
          || (id in s.pending && t.pending[id] == s.pending[id])
          || (s.fifo[0].Upsert? && s.fifo[0].edit.id == id && t.pending[id] == s.fifo[0].edit))
    && (forall id :: id in t.written ==>
          || (id in s.written && t.written[id] == s.written[id])
          || (id in s.pending && t.written[id] == s.pending[id].revision))
  }

  /** The call on which the interface thread waits is neither lost nor answered
      out of turn while other commands are taken. */
  lemma PoppedWaits(s: State, t: State)
    requires Tickets(s) && Waits(s) && Handled(s, t)
    ensures Waits(t)
  {
    if s.ui.Awaiting? {
      var c := s.ui.command;
      if c == s.fifo[0] {
        assert After(s.fifo, c) == t.fifo;
      } else {
        AfterPop(s.fifo, c);
        assert forall i :: 0 <= i < |t.fifo| ==> t.fifo[i] == s.fifo[i + 1];
      }
    }
  }

  lemma TimerWaits(s: State, t: State, v: Verdicts)
    requires Waits(s) && StepTimer(s, t, v)
    ensures Waits(t)
  {
  }

  lemma SendWaits(s: State, t: State)
    requires Tickets(s) && Waits(s) && StepSend(s, t)
    ensures Waits(t)
  {
    assert s.ui.command !in s.fifo;
    AfterAppend(s.fifo, s.ui.command);
    assert t.fifo[|s.fifo|] == s.ui.command;
  }

  // ----- cuts -----

  lemma QueuedPrefix(fifo: seq<Command>, i: nat, id: nat)
    requires i < |fifo|
    ensures forall r :: r in Queued(fifo[1..][..i], id) ==> r in Queued(fifo[..i + 1], id)
    ensures fifo[0].Upsert? && fifo[0].edit.id == id ==> fifo[0].edit.revision in Queued(fifo[..i + 1], id)
  {
    assert fifo[..i + 1][1..] == fifo[1..][..i];
  }

  lemma PoppedCuts(s: State, t: State)
    requires Cuts(s) && Handled(s, t)
    ensures Cuts(t)
  {
    forall i | 0 <= i < |t.fifo| && t.fifo[i].Remove?
      ensures t.fifo[i].id in t.cuts && t.fifo[i].cut <= t.cuts[t.fifo[i].id]
      ensures forall r :: r in Ahead(t, t.fifo[i].id) || r in Queued(t.fifo[..i], t.fifo[i].id) ==> r < t.fifo[i].cut
    {
      assert t.fifo[i] == s.fifo[i + 1];
      QueuedPrefix(s.fifo, i, t.fifo[i].id);
    }
  }

  lemma TimerCuts(s: State, t: State, v: Verdicts)
    requires Cuts(s) && StepTimer(s, t, v)
    ensures Cuts(t)
  {
    hide Judges, FlushedStore, FlushedFailures, Queued;
    forall id, r | r in Ahead(t, id) ensures r in Ahead(s, id) {
      assert r in Written(s, id) || r in At(s.pending, id);
    }
  }

  lemma SameCuts(s: State, t: State)
    requires Cuts(s) && t.fifo == s.fifo && t.pending == s.pending && t.written == s.written
    requires t.cuts == s.cuts && s.clock <= t.clock
    ensures Cuts(t)
  {
    assert forall id :: Ahead(t, id) == Ahead(s, id);
  }

  lemma AppendedCuts(s: State, t: State, c: Command)
    requires Cuts(s) && t.fifo == s.fifo + [c] && t.pending == s.pending && t.written == s.written
    requires t.cuts == s.cuts && s.clock <= t.clock
    requires c.Remove? ==>
               && c.id in s.cuts && c.cut <= s.cuts[c.id]
               && forall r :: r in Ahead(s, c.id) || r in Queued(s.fifo, c.id) ==> r < c.cut
    ensures Cuts(t)
  {
    forall i | 0 <= i < |t.fifo| && t.fifo[i].Remove?
      ensures t.fifo[i].id in t.cuts && t.fifo[i].cut <= t.cuts[t.fifo[i].id]
      ensures forall r :: r in Ahead(t, t.fifo[i].id) || r in Queued(t.fifo[..i], t.fifo[i].id) ==> r < t.fifo[i].cut
    {
      assert t.fifo[..i] == s.fifo[..i] && Ahead(t, t.fifo[i].id) == Ahead(s, t.fifo[i].id);
      if i == |s.fifo| {
        assert s.fifo[..i] == s.fifo;
      } else {
        assert t.fifo[i] == s.fifo[i];
      }
    }
  }

  lemma ClearCuts(s: State, t: State, id: nat)
    requires Cuts(s) && StepClear(s, t, id)
    ensures Cuts(t)
  {
    assert forall i :: Ahead(t, i) == Ahead(s, i);
  }

  lemma SendCuts(s: State, t: State)
    requires Inv(s) && StepSend(s, t)
    ensures Cuts(t)
  {
    var c := s.ui.command;
    if c.Remove? {
      assert InOrder(s, c.id);
    }
    AppendedCuts(s, t, c);
  }

  // ----- the invariant, step by step -----

  lemma InterfaceCalls(s: State, t: State, action: Action)
    requires Inv(s) && Step(s, t, action) && OfInterface(action)
    ensures Tickets(t) && Waits(t) && Cuts(t)
  {
    match action
    case OfferSent(id, size) => SentCalls(s, t, Edit(id, size, s.clock));
    case RetrySent => SentCalls(s, t, s.ui.rest[0]);
    case RetryRefused => RetryHasRoom(s);
    case Clear(id) => ClearCalls(s, t, id);
    case Send => SendCalls(s, t);
    case OfferDeferred(id, size) => IdleCalls(s, t);
    case Retry(flush) => IdleCalls(s, t);
    case RetryDeferred => IdleCalls(s, t);
  }

  lemma ClearCalls(s: State, t: State, id: nat)
    requires Tickets(s) && Cuts(s) && StepClear(s, t, id)
    ensures Tickets(t) && Waits(t) && Cuts(t)
  {
    CallTickets(s, t);
    ClearCuts(s, t, id);
  }

  /** No call is waiting and the channel is as it was. */
  lemma IdleCalls(s: State, t: State)
    requires Tickets(s) && Cuts(s) && (t.ui.Free? || t.ui.Retrying?) && t.tickets == s.tickets
    requires t.fifo == s.fifo && t.replies == s.replies && t.pending == s.pending && t.cuts == s.cuts
    requires t.written == s.written
    requires s.clock <= t.clock
    ensures Tickets(t) && Waits(t) && Cuts(t)
  {
    CallTickets(s, t);
    SameCuts(s, t);
  }

  lemma SendCalls(s: State, t: State)
    requires Inv(s) && StepSend(s, t)
    ensures Tickets(t) && Waits(t) && Cuts(t)
  {
    SendTickets(s, t);
    SendWaits(s, t);
    SendCuts(s, t);
  }

  lemma SentCalls(s: State, t: State, e: Edit)
    requires Tickets(s) && Cuts(s) && (StepOfferSent(s, t, e) || StepRetrySent(s, t, e))
    ensures Tickets(t) && Waits(t) && Cuts(t)
  {
    UpsertSentTickets(s, t, e);
    AppendedCuts(s, t, Upsert(e));
  }

  lemma WriterCalls(s: State, t: State, action: Action)
    requires Tickets(s) && Waits(s) && Cuts(s) && Step(s, t, action) && OfWriter(action)
    ensures Tickets(t) && Waits(t) && Cuts(t)
  {
    if action.Timer? {
      TimerWaits(s, t, action.v);
      TimerCuts(s, t, action.v);
    } else {
      WriterPops(s, t, action);
      HandledCalls(s, t);
    }
  }

  lemma HandledCalls(s: State, t: State)
    requires Tickets(s) && Waits(s) && Cuts(s) && Handled(s, t)
    ensures Tickets(t) && Waits(t) && Cuts(t)
  {
    PoppedTickets(s, t);
    PoppedWaits(s, t);
    PoppedCuts(s, t);
  }

  lemma WriterPops(s: State, t: State, action: Action)
    requires Step(s, t, action) && OfWriter(action) && !action.Timer?
    ensures Handled(s, t)
  {
    match action
    case TakeUpsert =>
    case RefuseUpsert =>
    case TakeRemove(deleted, ok) =>
    case TakeFlush(v) =>
    case TakeSettle(ok) =>
  }

  lemma QuietCalls(s: State, t: State, action: Action)
    requires Tickets(s) && Waits(s) && Cuts(s) && Step(s, t, action) && !OfWriter(action) && !OfInterface(action)
    ensures Tickets(t) && Waits(t) && Cuts(t)
  {
    hide Cuts;
    match action
    case OfferRefused(id, size) => CallTickets(s, t);
      SameCuts(s, t);
    case RetryDone => RetryDoneCalls(s, t);
    case Ask => CallTickets(s, t);
      SameCuts(s, t);
    case GiveUp => CallTickets(s, t);
      SameCuts(s, t);
    case Return => CallTickets(s, t);
      SameCuts(s, t);
    case Evict(id) => SameCuts(s, t);
  }

  lemma RetryDoneCalls(s: State, t: State)
    requires Tickets(s) && Waits(s) && Cuts(s) && StepRetryDone(s, t)
    ensures Tickets(t) && Waits(t) && Cuts(t)
  {
    CallTickets(s, t);
    SameCuts(s, t);
  }

  lemma StepInv(s: State, t: State, action: Action)
    requires Inv(s) && Step(s, t, action)
    ensures Inv(t)
  {
    forall id ensures InOrder(t, id) && Accounted(t, id) {
      StepOrder(s, t, action, id);
    }
    StepBounded(s, t, action);
    if OfInterface(action) {
      InterfaceCalls(s, t, action);
    } else if OfWriter(action) {
      WriterCalls(s, t, action);
    } else {
      QuietCalls(s, t, action);
    }
  }

  lemma InitialInv(s: State)
    requires Initial(s)
    ensures Inv(s)
  {
    forall id: nat ensures InOrder(s, id) && Accounted(s, id) {}
    assert s.deferred.Keys == {};
  }

  // ----- what every run guarantees -----

  ghost predicate Run(ss: seq<State>, what: seq<Action>) {
    && |ss| == |what| + 1 && Initial(ss[0])
    && forall i :: 0 <= i < |what| ==> Step(ss[i], ss[i + 1], what[i])
  }

  lemma {:induction false} RunInv(ss: seq<State>, what: seq<Action>, i: nat)
    requires Run(ss, what) && i < |ss|
    ensures Inv(ss[i])
  {
    if i == 0 {
      InitialInv(ss[0]);
    } else {
      RunInv(ss, what, i - 1);
      StepInv(ss[i - 1], ss[i], what[i - 1]);
    }
  }

  /** The newest accepted edit of every document is queued, stored, reported or
      cleared, and the stages of a document are in offer order. */
  lemma NothingIsLost(ss: seq<State>, what: seq<Action>, i: nat, id: nat)
    requires Run(ss, what) && i < |ss|
    ensures Accounted(ss[i], id)
    ensures Increasing(Line(ss[i], id))
  {
    RunInv(ss, what, i);
    assert InOrder(ss[i], id);
    LineIncreases(ss[i], id);
  }

  /** What is written for a document only ever gets newer. */
  lemma {:induction false} WritesInOfferOrder(ss: seq<State>, what: seq<Action>, i: nat, j: nat, id: nat)
    requires Run(ss, what) && i <= j < |ss| && id in ss[i].written
    ensures id in ss[j].written && ss[i].written[id] <= ss[j].written[id]
  {
    hide Inv, InOrder, Step, Initial;
    if i < j {
      WritesInOfferOrder(ss, what, i, j - 1, id);
      RunInv(ss, what, j - 1);
      InvOrders(ss[j - 1], id);
      assert Step(ss[j - 1], ss[j - 1 + 1], what[j - 1]);
      WrittenGrows(ss[j - 1], ss[j], what[j - 1], id);
    }
  }

  lemma InvOrders(s: State, id: nat)
    requires Inv(s)
    ensures InOrder(s, id) && Accounted(s, id)
  {
    hide InOrder, Accounted, Bounded, Tickets, Waits, Cuts;
  }

  lemma WrittenGrows(s: State, t: State, action: Action, id: nat)
    requires InOrder(s, id) && Step(s, t, action) && id in s.written
    ensures id in t.written && s.written[id] <= t.written[id]
  {
    hide InOrder, RoomFor, Admits, Judges, FlushedStore, FlushedWritten, FlushedFailures, FlushOk, Ascending;
    if action.TakeFlush? || action.Timer? {
      FlushedGrows(s, action.v, id);
    }
  }

  lemma FlushedGrows(s: State, v: Verdicts, id: nat)
    requires InOrder(s, id) && id in s.written
    ensures
      var w := FlushedWritten(s.written, s.pending, v);
      id in w && s.written[id] <= w[id]
  {
    hide Queued, HeldBack;
    assert s.written[id] in Written(s, id);
    assert id in s.pending ==> s.pending[id].revision in At(s.pending, id);
  }

  /** The newest accepted edit of the document is in the store. */
  predicate NewestStored(s: State, id: nat) {
    id in s.accepted && id in s.store && s.store[id] == Mine(s.accepted[id])
  }

  /** The newest accepted edit is in the store, was reported as failed, or predates a
      request to clear. */
  predicate Decided(s: State, id: nat)
    requires id in s.accepted
  {
    || NewestStored(s, id)
    || (id, s.accepted[id]) in s.failed
    || (id in s.cuts && s.accepted[id] < s.cuts[id])
  }

  /** A flush that answers, Ok or not, leaves no accepted edit waiting anywhere. */
  lemma FlushAnswerLeavesNothing(ss: seq<State>, what: seq<Action>, i: nat, t: State)
    requires Run(ss, what) && i < |what| && what[i] == Return && ss[i + 1] == t
    requires ss[i].ui.Awaiting? && ss[i].ui.command.Flush?
    requires Step(ss[i], t, Return)
    ensures Empty(t)
    ensures forall id :: id in t.accepted ==> Decided(t, id)
  {
    RunInv(ss, what, i);
    RunInv(ss, what, i + 1);
    var s := ss[i];
    assert s.ui.command !in s.fifo by { AnsweredIsTaken(s); }
    forall id | id in t.accepted ensures Decided(t, id) {
      assert Accounted(t, id);
      QueuedNone(t.fifo, id);
      assert Waiting(t, id) == [];
    }
  }

  lemma AnsweredIsTaken(s: State)
    requires Tickets(s) && s.ui.Awaiting? && Ticket(s.ui.command).Some? && Ticket(s.ui.command).value in s.replies
    ensures s.ui.command !in s.fifo
  {
    forall i | 0 <= i < |s.fifo| ensures s.fifo[i] != s.ui.command {
      assert Ticket(s.fifo[i]).Some? ==> Ticket(s.fifo[i]).value !in s.replies;
    }
  }

  /** A clear that answers Ok leaves the document in no queue and not in the
      store, whatever was queued before. */
  lemma ClearOkLeavesNone(ss: seq<State>, what: seq<Action>, i: nat)
    requires Run(ss, what) && i < |what| && what[i] == Return
    requires ss[i].ui.Awaiting? && ss[i].ui.command.Remove?
    requires Step(ss[i], ss[i + 1], Return) && ss[i].replies[ss[i].ui.command.ticket]
    ensures Gone(ss[i + 1], ss[i].ui.command.id)
  {
    RunInv(ss, what, i);
    AnsweredIsTaken(ss[i]);
  }

  /** And there it stays until it is offered again. */
  lemma {:induction false} ClearedStaysCleared(ss: seq<State>, what: seq<Action>, i: nat, j: nat, id: nat)
    requires Run(ss, what) && i <= j < |ss| && Gone(ss[i], id)
    requires forall k :: i <= k < j ==>
               !(what[k].OfferSent? && what[k].id == id) && !(what[k].OfferDeferred? && what[k].id == id)
    ensures Gone(ss[j], id)
  {
    if i < j {
      ClearedStaysCleared(ss, what, i, j - 1, id);
      RunInv(ss, what, j - 1);
      GoneStep(ss[j - 1], ss[j], what[j - 1], id);
    }
  }

  lemma GoneStep(s: State, t: State, action: Action, id: nat)
    requires Bounded(s) && Tickets(s) && Gone(s, id) && Step(s, t, action)
    requires !(action.OfferSent? && action.id == id) && !(action.OfferDeferred? && action.id == id)
    ensures Gone(t, id)
  {
    if OfInterface(action) {
      GoneInterface(s, t, action, id);
    } else if OfWriter(action) {
      if !action.Timer? {
        WriterPops(s, t, action);
        GoneHandled(s, t, id);
      }
    } else {
      QuietSteps(s, t, action);
      QuietStore(s, t, action);
    }
  }

  lemma GoneHandled(s: State, t: State, id: nat)
    requires Gone(s, id) && Handled(s, t)
    ensures Gone(t, id)
  {
    forall i | 0 <= i < |t.fifo| ensures t.fifo[i] == s.fifo[i + 1] {}
    assert s.fifo[0].Upsert? ==> s.fifo[0].edit.id != id;
  }

  lemma QuietStore(s: State, t: State, action: Action)
    requires Step(s, t, action) && !OfInterface(action) && !OfWriter(action)
    ensures forall id :: id in t.store ==> id in s.store
  {
  }

  lemma GoneInterface(s: State, t: State, action: Action, id: nat)
    requires Bounded(s) && Tickets(s) && Gone(s, id) && Step(s, t, action) && OfInterface(action)
    requires !(action.OfferSent? && action.id == id) && !(action.OfferDeferred? && action.id == id)
    ensures Gone(t, id)
  {
    match action
    case Retry(flush) => AmongAscending(s.deferred, id);
    case RetrySent => GoneRetried(s, t, id);
    case RetryDeferred => GoneRetried(s, t, id);
    case RetryRefused => RetryHasRoom(s);
    case OfferSent(i, size) => GoneOffer(s, t, Edit(i, size, s.clock), id);
    case OfferDeferred(i, size) => GoneDeferred(s, t, Edit(i, size, s.clock), id);
    case Clear(i) => GoneClear(s, t, i, id);
    case Send => GoneSend(s, t, id);
  }

  lemma GoneDeferred(s: State, t: State, e: Edit, id: nat)
    requires Gone(s, id) && StepOfferDeferred(s, t, e) && e.id != id
    ensures Gone(t, id)
  {
  }

  lemma GoneClear(s: State, t: State, i: nat, id: nat)
    requires Gone(s, id) && StepClear(s, t, i)
    ensures Gone(t, id)
  {
  }

  lemma GoneOffer(s: State, t: State, e: Edit, id: nat)
    requires Gone(s, id) && StepOfferSent(s, t, e) && e.id != id
    ensures Gone(t, id)
  {
  }

  lemma GoneSend(s: State, t: State, id: nat)
    requires Tickets(s) && Gone(s, id) && StepSend(s, t)
    ensures Gone(t, id)
  {
  }

  lemma GoneRetried(s: State, t: State, id: nat)
    requires Bounded(s) && Gone(s, id) && s.ui.Retrying? && s.ui.rest != []
    requires StepRetrySent(s, t, s.ui.rest[0]) || StepRetryDeferred(s, t, s.ui.rest[0])
    ensures Gone(t, id)
  {
    assert Rest(s.ui)[0].id != id;
    forall i | 0 <= i < |Rest(t.ui)| ensures Rest(t.ui)[i] == Rest(s.ui)[i + 1] {}
  }

  /** While the writer lives, a retry refuses nothing. */
  lemma RetryDropsNothing(ss: seq<State>, what: seq<Action>, i: nat)
    requires Run(ss, what) && i < |what|
    ensures !what[i].RetryRefused?
  {
    RunInv(ss, what, i);
    if what[i].RetryRefused? {
      assert Step(ss[i], ss[i + 1], what[i]);
      RetryHasRoom(ss[i]);
    }
  }

  // ----- the methods take these steps -----

  /** The effect of `offer` is one of the three offer steps, and it answers true
      exactly when the edit was not refused. */
  lemma OfferRefines(s: State, t: State, e: Edit, placed: Placed)
    requires s.ui.Free? && e.revision == s.clock
    requires placed == Place(s.deferred, s.fifo, e)
    requires t == s.(clock := s.clock + 1, accepted := t.accepted, deferred := placed.deferred, fifo := placed.fifo)
    requires t.accepted == if placed.accepted then s.accepted[e.id := e.revision] else s.accepted
    ensures placed.accepted ==> StepOfferSent(s, t, e) || StepOfferDeferred(s, t, e)
    ensures !placed.accepted ==> StepOfferRefused(s, t, e)
  {
  }

  /** The effect of the writer taking an edit from the channel is one of its two
      steps. */
  lemma TakeRefines(s: State, t: State, e: Edit)
    requires s.fifo != [] && s.fifo[0] == Upsert(e)
    requires t == s.(fifo := s.fifo[1..], pending := t.pending, failed := t.failed)
    requires if |s.pending| >= MAX_PENDING && e.id !in s.pending
             then t.pending == s.pending && t.failed == s.failed + {(e.id, e.revision)}
             else t.pending == s.pending[e.id := e] && t.failed == s.failed
    ensures if Admits(s.pending, e.id) then StepTakeUpsert(s, t, e) else StepRefuseUpsert(s, t, e)
  {
  }

  /** The effect of `FlushPending` is a timer step, and with the answer sent it is the
      step that takes a flush. */
  lemma FlushRefines(s: State, t: State, v: Verdicts, ok: bool)
    requires Judges(v, s.pending) && ok == FlushOk(s.pending, v)
    requires t == s.(pending := map[], store := t.store, written := t.written, failed := t.failed)
    requires t.store == FlushedStore(s.store, s.pending, v) && t.written == FlushedWritten(s.written, s.pending, v)
    requires t.failed == s.failed + FlushedFailures(s.pending, v)
    ensures StepTimer(s, t, v)
    ensures s.fifo != [] && s.fifo[0].Flush? ==>
              StepTakeFlush(s, t.(fifo := s.fifo[1..], replies := s.replies[s.fifo[0].ticket := ok]), v)
  {
    hide FlushedStore, FlushedWritten, FlushedFailures, FlushOk, Judges;
  }

  /** A run of retry steps from `ss[0]` that ends with nothing left in hand. */
  ghost predicate RetryRun(ss: seq<State>) {
    && ss != [] && ss[|ss| - 1].ui.Retrying? && ss[|ss| - 1].ui.rest == []
    && forall i :: 0 <= i < |ss| - 1 ==>
         ss[i].ui.Retrying? && ss[i].ui.rest != [] &&
         (StepRetrySent(ss[i], ss[i + 1], ss[i].ui.rest[0]) || StepRetryDeferred(ss[i], ss[i + 1], ss[i].ui.rest[0]))
  }

  lemma RetryRunCons(s: State, ss: seq<State>)
    requires RetryRun(ss) && s.ui.Retrying? && s.ui.rest != []
    requires StepRetrySent(s, ss[0], s.ui.rest[0]) || StepRetryDeferred(s, ss[0], s.ui.rest[0])
    ensures RetryRun([s] + ss)
  {
    var all := [s] + ss;
    forall i | 0 <= i < |all| - 1
      ensures all[i].ui.Retrying? && all[i].ui.rest != []
      ensures StepRetrySent(all[i], all[i + 1], all[i].ui.rest[0]) || StepRetryDeferred(all[i], all[i + 1], all[i].ui.rest[0])
    {
      if i > 0 {
        assert all[i] == ss[i - 1] && all[i + 1] == ss[i];
      }
    }
  }

  /** The `Retry` method, undisturbed, is a run of retry steps that places every
      edit it took in hand. */
  lemma {:induction false} RetryRefines(s: State) returns (ss: seq<State>)
    requires Bounded(s) && s.ui.Retrying?
    ensures RetryRun(ss) && ss[0] == s
    ensures
      var placed := PlaceAll(s.deferred, s.fifo, s.ui.rest);
      var last := ss[|ss| - 1];
      placed.accepted && last.deferred == placed.deferred && last.fifo == placed.fifo
    decreases |Rest(s.ui)|
  {
    if s.ui.rest == [] {
      ss := [s];
    } else {
      var t := RetryOnce(s);
      var tail := RetryRefines(t);
      RetryRunCons(s, tail);
      ss := [s] + tail;
    }
  }

  lemma RetryOnce(s: State) returns (t: State)
    requires Bounded(s) && s.ui.Retrying? && s.ui.rest != []
    ensures Bounded(t) && t.ui == s.ui.(rest := s.ui.rest[1..])
    ensures StepRetrySent(s, t, s.ui.rest[0]) || StepRetryDeferred(s, t, s.ui.rest[0])
    ensures Placed(t.deferred, t.fifo, true) == Place(s.deferred, s.fifo, s.ui.rest[0])
  {
    var e := s.ui.rest[0];
    RetryHasRoom(s);
    if |s.fifo| < FIFO_CAPACITY {
      t := s.(ui := s.ui.(rest := s.ui.rest[1..]), deferred := s.deferred - {e.id}, fifo := s.fifo + [Upsert(e)]);
      RetrySentBounded(s, t, e);
    } else {
      t := s.(ui := s.ui.(rest := s.ui.rest[1..]), deferred := s.deferred[e.id := e]);
      RetryDeferredBounded(s, t, e);
    }
  }
}

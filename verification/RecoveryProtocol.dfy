/** Any number of sessions working on one recovery directory: every durable
    operation is a step of its own, and a session may die between any two. */
module RecoveryProtocol {
  import opened Wrappers
  import opened RecoveryTypes
  import opened RecoveryScan
  import opened RecoveryPlan
  import opened RecoveryTheorems

  datatype Request =
    | Upserting(offered: Record)
    | Pruning(policy: Retention)
    | Removing(id: nat)
    | Claiming(id: nat)

  /** `todo` is what a session that holds the mutation lock has yet to do. */
  datatype Op = Idle | Committing(request: Request, todo: seq<Effect>)

  datatype Session = Session(policy: Retention, startup: Option<Issue>, op: Op)

  /** `sessions` are the running sessions and `used` all tokens ever issued.
      `granted` remembers which session was told that it holds which record. */
  datatype World = World(
    items: Items,
    markers: Markers,
    holder: Option<nat>,
    sessions: map<nat, Session>,
    used: set<nat>,
    granted: set<(nat, nat)>)

  datatype Action =
    | Open(policy: Retention, entries: seq<nat>)
    | OpenFails(entries: seq<nat>, left: bool)
    | Begin(request: Request, env: Env, view: Markers)
    | Advance
    | Finish
    | Fail
    | Crash
    | Close(removed: bool)
    | NoteStartupIssue

  /** A probe may find a marker locked by another prober, but never finds a
      running session's marker free. */
  ghost predicate Observes(markers: Markers, view: Markers) {
    forall n :: n in markers && markers[n].Held? ==> n in view && !view[n].Released?
  }

  function PlanFor(len: Encoder, w: World, a: nat, request: Request, env: Env, view: Markers)
    : Result<seq<Effect>, Error>
    requires a in w.sessions && Scannable(w.items, env)
  {
    match request
    case Upserting(offered) =>
      UpsertPlan(len, w.items, view, a, w.sessions[a].policy, w.sessions[a].startup, env, offered)
    case Pruning(policy) =>
      if !ValidRetention(policy) then Err(InvalidRetention)
      else PrunePlan(len, w.items, view, a, policy, w.sessions[a].startup, env)
    case Removing(id) => RemovePlan(w.items, view, a, id)
    case Claiming(id) => ClaimPlan(w.items, view, a, env, id)
  }

  /** The record whose possession a finished request confirms. */
  function Confirms(request: Request): set<nat> {
    match request
    case Upserting(offered) => {offered.id}
    case Claiming(id) => {id}
    case _ => {}
  }

  function Revokes(request: Request): set<nat> {
    if request.Removing? then {request.id} else {}
  }

  function Granting(a: nat, ids: set<nat>): set<(nat, nat)> {
    set id | id in ids :: (a, id)
  }

  /** The session once a request is done: new limits are adopted, and a save or a
      prune clears the startup issue. */
  function Settled(s: Session, request: Request): Session {
    Session(
      if request.Pruning? then request.policy else s.policy,
      if request.Pruning? || request.Upserting? then None else s.startup,
      Idle)
  }

  /** A refused request changes nothing. One with nothing to do on disk is done at
      once; any other holds the lock until it is carried out. */
  function Started(w: World, a: nat, request: Request, plan: Result<seq<Effect>, Error>): World
    requires a in w.sessions
  {
    if plan.Err? then w
    else if plan.value == [] then w.(sessions := w.sessions[a := Settled(w.sessions[a], request)])
    else w.(
      holder := Some(a),
      sessions := w.sessions[a := w.sessions[a].(op := Committing(request, plan.value))],
      granted := w.granted - Granting(a, Revokes(request)))
  }

  function Finished(w: World, a: nat): World
    requires a in w.sessions && w.sessions[a].op.Committing?
  {
    var request := w.sessions[a].op.request;
    w.(
      holder := None,
      sessions := w.sessions[a := Settled(w.sessions[a], request)],
      granted := w.granted + Granting(a, Confirms(request)))
  }

  function Died(w: World, a: nat, markers: Markers): World {
    w.(
      markers := markers,
      holder := if w.holder == Some(a) then None else w.holder,
      sessions := w.sessions - {a})
  }

  /** The markers without those of dead sessions among `entries`. */
  function Unmarked(markers: Markers, entries: seq<nat>): Markers {
    map n | n in markers && !(n in entries && markers[n].Released?) :: markers[n]
  }

  ghost predicate Step(len: Encoder, w: World, w': World, a: nat, action: Action) {
    match action
    case Open(policy, entries) =>
      && w.holder.None? && a !in w.used && a !in w.markers && ValidRetention(policy)
      && w' == w.(
           markers := Unmarked(w.markers, entries)[a := Held],
           sessions := w.sessions[a := Session(policy, None, Idle)],
           used := w.used + {a})
    case OpenFails(entries, left) =>
      && w.holder.None? && a !in w.used && a !in w.markers
      && w' == w.(
           markers := if left then Unmarked(w.markers, entries)[a := Released] else Unmarked(w.markers, entries),
           used := w.used + {a})
    case Begin(request, env, view) =>
      && w.holder.None? && a in w.sessions && w.sessions[a].op.Idle?
      && Scannable(w.items, env) && Observes(w.markers, view)
      && w' == Started(w, a, request, PlanFor(len, w, a, request, env, view))
    case Advance =>
      && a in w.sessions && w.sessions[a].op.Committing? && w.sessions[a].op.todo != []
      && var op := w.sessions[a].op;
         w' == w.(
           items := Apply(len, w.items, op.todo[0]),
           sessions := w.sessions[a := w.sessions[a].(op := op.(todo := op.todo[1..]))])
    case Finish =>
      && a in w.sessions && w.sessions[a].op.Committing? && w.sessions[a].op.todo == []
      && w' == Finished(w, a)
    case Fail =>
      && a in w.sessions && w.sessions[a].op.Committing? && w.sessions[a].op.todo != []
      && w' == w.(
           items := Abandon(w.items, w.sessions[a].op.todo[0]),
           holder := None,
           sessions := w.sessions[a := w.sessions[a].(op := Idle)])
    case Crash =>
      a in w.sessions && w' == Died(w, a, w.markers[a := Released])
    case Close(removed) =>
      && a in w.sessions && w.sessions[a].op.Idle?
      && w' == Died(w, a, if removed then w.markers - {a} else w.markers[a := Released])
    case NoteStartupIssue =>
      && a in w.sessions && w.sessions[a].op.Idle?
      && w' == w.(sessions := w.sessions[a := w.sessions[a].(startup := Some(Issue(RetentionIssue, None)))])
  }

  // ----- the invariant -----

  /** Session `a` may replace or delete this entry: it is missing, its own, or
      owned by a session that is no longer running. */
  predicate Yields(w: World, a: nat, n: Name) {
    n !in w.items ||
    (var owner := OwnerOf(w.items, n);
     owner.Some? && owner.value.Uuid? && (owner.value.value == a || owner.value.value !in w.sessions))
  }

  ghost predicate SafeEffect(w: World, a: nat, e: Effect) {
    match e
    case Publish(_, r) => r.session == Uuid(a) && Yields(w, a, Item(r.id))
    case Delete(id) => Yields(w, a, Item(id)) && (a, id) !in w.granted
    case _ => true
  }

  /** What the rest of a commit will have achieved. */
  ghost predicate Promised(len: Encoder, w: World, a: nat, request: Request, todo: seq<Effect>)
    requires a in w.sessions
  {
    var after := ApplyAll(len, w.items, todo);
    match request
    case Upserting(offered) =>
      && WithinLimits(len, after, w.sessions[a].policy)
      && OwnerOf(after, Item(offered.id)) == Some(Uuid(a))
    case Pruning(policy) => WithinLimits(len, after, policy)
    case Removing(id) => Item(id) !in after
    case Claiming(id) => OwnerOf(after, Item(id)) == Some(Uuid(a))
  }

  ghost predicate Inv(len: Encoder, w: World) {
    && w.sessions.Keys <= w.used
    && (forall a :: a in w.sessions ==> a in w.markers && w.markers[a].Held?)
    && (forall n, o :: OwnerOf(w.items, n) == Some(Uuid(o)) ==> o in w.used)
    && (w.holder.Some? ==> w.holder.value in w.sessions && w.sessions[w.holder.value].op.Committing?)
    && (forall a :: a in w.sessions && w.sessions[a].op.Committing? ==> w.holder == Some(a) && Sane(len, w, a))
    && (forall s, id :: (s, id) in w.granted ==> s in w.used)
    && (forall s, id :: (s, id) in w.granted && s in w.sessions ==> OwnerOf(w.items, Item(id)) == Some(Uuid(s)))
  }

  ghost predicate Sane(len: Encoder, w: World, a: nat)
    requires a in w.sessions && w.sessions[a].op.Committing?
  {
    var op := w.sessions[a].op;
    && (forall i :: 0 <= i < |op.todo| ==> SafeEffect(w, a, op.todo[i]))
    && Promised(len, w, a, op.request, op.todo)
  }

  ghost predicate Initial(w: World) {
    && w.holder.None? && w.sessions == map[] && w.granted == {}
    && (forall n, o :: OwnerOf(w.items, n) == Some(Uuid(o)) ==> o in w.used)
  }

  lemma InitialInv(len: Encoder, w: World)
    requires Initial(w)
    ensures Inv(len, w)
  {
  }

  // ----- every plan is safe -----

  lemma NotLiveIsDead(w: World, view: Markers, a: nat, owner: SessionId)
    requires forall s :: s in w.sessions ==> s in w.markers && w.markers[s].Held?
    requires Observes(w.markers, view) && !IsLive(view, a, owner)
    ensures owner.Uuid? && owner.value != a && owner.value !in w.sessions
  {
  }

  lemma ExistingYields(w: World, view: Markers, a: nat, id: nat)
    requires forall s :: s in w.sessions ==> s in w.markers && w.markers[s].Held?
    requires Observes(w.markers, view)
    requires ReadExisting(w.items, id).Ok? && !ForeignLive(ReadExisting(w.items, id).value, view, a)
    requires Item(id) in w.items ==> !w.items[Item(id)].Hidden?
    ensures Yields(w, a, Item(id))
  {
    var existing := ReadExisting(w.items, id).value;
    if existing.Some? && existing.value.session != Uuid(a) {
      NotLiveIsDead(w, view, a, existing.value.session);
    }
  }

  lemma UpsertSafe(len: Encoder, w: World, a: nat, env: Env, view: Markers, offered: Record)
    requires Inv(len, w) && a in w.sessions && Scannable(w.items, env) && Observes(w.markers, view)
    requires PlanFor(len, w, a, Upserting(offered), env, view).Ok?
    ensures
      var plan := PlanFor(len, w, a, Upserting(offered), env, view).value;
      && (forall i :: 0 <= i < |plan| ==> SafeEffect(w, a, plan[i]))
      && Promised(len, w, a, Upserting(offered), plan)
  {
    var policy, startup := w.sessions[a].policy, w.sessions[a].startup;
    var record, survivors, victims := UpsertDecision(len, w.items, view, a, policy, startup, env, offered);
    UpsertWithinLimits(len, w.items, view, a, policy, startup, env, offered);
    UpsertOutcome(len, w.items, env.temp, record, victims);
    TargetYields(len, w, a, env, view, offered);
    VictimsSafe(len, w, a, view, victims);
    SaveSafe(w, a, env.temp, record, victims);
  }

  lemma TargetYields(len: Encoder, w: World, a: nat, env: Env, view: Markers, offered: Record)
    requires Inv(len, w) && a in w.sessions && Scannable(w.items, env) && Observes(w.markers, view)
    requires PlanFor(len, w, a, Upserting(offered), env, view).Ok?
    ensures Yields(w, a, Item(offered.id))
  {
    CleanListingIsWholeDirectory(w.items, w.sessions[a].startup, env.scan);
    if Item(offered.id) in w.items {
      assert Readable(w.items, Item(offered.id));
    }
    ExistingYields(w, view, a, offered.id);
  }

  lemma SaveSafe(w: World, a: nat, temp: string, record: Record, victims: seq<nat>)
    requires record.session == Uuid(a) && Yields(w, a, Item(record.id))
    requires forall i :: 0 <= i < |victims| ==> SafeEffect(w, a, Delete(victims[i]))
    ensures
      var plan := WriteEffects(temp, record) + Deletes(victims) + [SyncItems];
      forall i :: 0 <= i < |plan| ==> SafeEffect(w, a, plan[i])
  {
    var write := WriteEffects(temp, record);
    var plan := write + Deletes(victims) + [SyncItems];
    forall i | 0 <= i < |plan| ensures SafeEffect(w, a, plan[i]) {
      if i < 3 {
        assert plan[i] == write[i];
      } else if i < 3 + |victims| {
        assert plan[i] == Deletes(victims)[i - 3];
      }
    }
  }

  lemma VictimsSafe(len: Encoder, w: World, a: nat, view: Markers, victims: seq<nat>)
    requires Inv(len, w) && a in w.sessions && Observes(w.markers, view)
    requires Expendable(w.items, view, a, victims)
    ensures forall i :: 0 <= i < |victims| ==> SafeEffect(w, a, Delete(victims[i]))
  {
    forall i | 0 <= i < |victims| ensures SafeEffect(w, a, Delete(victims[i])) {
      var n := Item(victims[i]);
      assert victims[i] in victims;
      NotLiveIsDead(w, view, a, ReadRecord(w.items[n]).value.session);
      assert OwnerOf(w.items, n) != Some(Uuid(a));
    }
  }

  lemma PruneSafe(len: Encoder, w: World, a: nat, env: Env, view: Markers, policy: Retention)
    requires Inv(len, w) && a in w.sessions && Scannable(w.items, env) && Observes(w.markers, view)
    requires PlanFor(len, w, a, Pruning(policy), env, view).Ok?
    ensures
      var plan := PlanFor(len, w, a, Pruning(policy), env, view).value;
      && (forall i :: 0 <= i < |plan| ==> SafeEffect(w, a, plan[i]))
      && Promised(len, w, a, Pruning(policy), plan)
  {
    var startup := w.sessions[a].startup;
    PruneWithinLimits(len, w.items, view, a, policy, startup, env);
    var victims := PruneDecision(len, w.items, view, a, policy, startup, env);
    VictimsSafe(len, w, a, view, victims);
    var plan := PlanFor(len, w, a, Pruning(policy), env, view).value;
    forall i | 0 <= i < |plan| ensures SafeEffect(w, a, plan[i]) {
      if i < |victims| {
        assert plan[i] == Deletes(victims)[i];
      }
    }
  }

  lemma RemoveSafe(len: Encoder, w: World, a: nat, env: Env, view: Markers, id: nat)
    requires Inv(len, w) && a in w.sessions && Scannable(w.items, env) && Observes(w.markers, view)
    requires PlanFor(len, w, a, Removing(id), env, view).Ok?
    requires PlanFor(len, w, a, Removing(id), env, view).value != []
    ensures Yields(w, a, Item(id))
    ensures PlanFor(len, w, a, Removing(id), env, view).value == [Delete(id), SyncItems]
    ensures Promised(len, w, a, Removing(id), PlanFor(len, w, a, Removing(id), env, view).value)
  {
    ExistingYields(w, view, a, id);
    assert [Delete(id), SyncItems][1..] == [SyncItems];
    ApplySync(len, w.items - {Item(id)});
  }

  lemma ClaimSafe(len: Encoder, w: World, a: nat, env: Env, view: Markers, id: nat)
    requires Inv(len, w) && a in w.sessions && Scannable(w.items, env) && Observes(w.markers, view)
    requires PlanFor(len, w, a, Claiming(id), env, view).Ok?
    requires PlanFor(len, w, a, Claiming(id), env, view).value != []
    ensures
      var plan := PlanFor(len, w, a, Claiming(id), env, view).value;
      && (forall i :: 0 <= i < |plan| ==> SafeEffect(w, a, plan[i]))
      && Promised(len, w, a, Claiming(id), plan)
  {
    ExistingYields(w, view, a, id);
    var record := ReadExisting(w.items, id).value.value.(session := Uuid(a), updatedMs := env.stampMs);
    ApplyWrite(len, w.items, env.temp, record);
  }

  // ----- steps keep the invariant -----

  lemma BeginInv(len: Encoder, w: World, w': World, a: nat, request: Request, env: Env, view: Markers)
    requires Inv(len, w) && Step(len, w, w', a, Begin(request, env, view))
    ensures Inv(len, w')
  {
    var plan := PlanFor(len, w, a, request, env, view);
    if plan.Ok? && plan.value != [] {
      match request {
        case Upserting(offered) => UpsertSafe(len, w, a, env, view, offered);
        case Pruning(policy) => PruneSafe(len, w, a, env, view, policy);
        case Removing(id) => RemoveSafe(len, w, a, env, view, id);
        case Claiming(id) => ClaimSafe(len, w, a, env, view, id);
      }
      StartedSane(len, w, w', a, request, plan.value);
    } else if plan.Ok? {
      SettledInv(len, w, w', a, request);
    }
  }

  lemma SettledInv(len: Encoder, w: World, w': World, a: nat, request: Request)
    requires Inv(len, w) && w.holder.None? && a in w.sessions
    requires w' == Started(w, a, request, Ok([]))
    ensures Inv(len, w')
  {
    assert w'.sessions.Keys == w.sessions.Keys;
  }

  lemma StartedSane(len: Encoder, w: World, w': World, a: nat, request: Request, todo: seq<Effect>)
    requires Inv(len, w) && w.holder.None? && a in w.sessions && w.sessions[a].op.Idle?
    requires todo != [] && w' == Started(w, a, request, Ok(todo))
    requires Promised(len, w, a, request, todo)
    requires forall i :: 0 <= i < |todo| ==>
               SafeEffect(w.(granted := w.granted - Granting(a, Revokes(request))), a, todo[i])
               || SafeEffect(w, a, todo[i])
    ensures Inv(len, w')
  {
    assert w'.sessions[a].op.todo == todo && w'.sessions.Keys == w.sessions.Keys;
    forall i | 0 <= i < |todo| ensures SafeEffect(w', a, todo[i]) {}
    assert Promised(len, w', a, request, todo);
  }

  lemma AdvanceInv(len: Encoder, w: World, w': World, a: nat)
    requires Inv(len, w) && Step(len, w, w', a, Advance)
    ensures Inv(len, w')
  {
    var op := w.sessions[a].op;
    var e := op.todo[0];
    assert SafeEffect(w, a, e);
    assert w'.sessions.Keys == w.sessions.Keys;
    var rest := op.todo[1..];
    forall i | 0 <= i < |rest| ensures SafeEffect(w', a, rest[i]) {
      assert SafeEffect(w, a, op.todo[i + 1]);
    }
    assert Promised(len, w', a, op.request, rest);
    forall n, o | OwnerOf(w'.items, n) == Some(Uuid(o)) ensures o in w'.used {
      assert OwnerOf(w.items, n) == Some(Uuid(o)) || o == a;
    }
    forall s, id | (s, id) in w'.granted && s in w'.sessions
      ensures OwnerOf(w'.items, Item(id)) == Some(Uuid(s))
    {
      assert OwnerOf(w.items, Item(id)) == Some(Uuid(s));
    }
  }

  lemma FinishInv(len: Encoder, w: World, w': World, a: nat)
    requires Inv(len, w) && Step(len, w, w', a, Finish)
    ensures Inv(len, w')
  {
    assert Sane(len, w, a);
    assert w'.sessions.Keys == w.sessions.Keys;
  }

  lemma FailInv(len: Encoder, w: World, w': World, a: nat)
    requires Inv(len, w) && Step(len, w, w', a, Fail)
    ensures Inv(len, w')
  {
    assert w'.sessions.Keys == w.sessions.Keys;
    forall n: Name | !n.Other? ensures SameEntry(w.items, w'.items, n) {}
    forall n, o | OwnerOf(w'.items, n) == Some(Uuid(o)) ensures o in w'.used {
      assert OwnerOf(w.items, n) == Some(Uuid(o));
    }
  }

  lemma DiedInv(len: Encoder, w: World, w': World, a: nat, markers: Markers)
    requires Inv(len, w) && a in w.sessions && w' == Died(w, a, markers)
    requires forall n :: n in w.markers && n != a ==> n in markers && markers[n] == w.markers[n]
    ensures Inv(len, w')
  {
    forall b | b in w'.sessions && w'.sessions[b].op.Committing? ensures Sane(len, w', b) {
      assert w.holder == Some(b) && Sane(len, w, b);
      var op := w.sessions[b].op;
      forall i | 0 <= i < |op.todo| ensures SafeEffect(w', b, op.todo[i]) {
        assert SafeEffect(w, b, op.todo[i]);
      }
      assert Promised(len, w', b, op.request, op.todo);
    }
  }

  lemma OpenInv(len: Encoder, w: World, w': World, a: nat, policy: Retention, entries: seq<nat>)
    requires Inv(len, w) && Step(len, w, w', a, Open(policy, entries))
    ensures Inv(len, w')
  {
    assert forall b :: b in w.sessions ==> b != a;
    forall b | b in w'.sessions ensures b in w'.markers && w'.markers[b].Held? {}
    forall b | b in w'.sessions ensures w'.sessions[b].op.Idle? {
      if b != a { assert b in w.sessions; }
    }
  }

  lemma OpenFailsInv(len: Encoder, w: World, w': World, a: nat, entries: seq<nat>, left: bool)
    requires Inv(len, w) && Step(len, w, w', a, OpenFails(entries, left))
    ensures Inv(len, w')
  {
    forall b | b in w'.sessions ensures b in w'.markers && w'.markers[b].Held? {}
    forall b | b in w'.sessions ensures w'.sessions[b].op.Idle? {
      assert b in w.sessions;
    }
  }

  lemma StepInv(len: Encoder, w: World, w': World, a: nat, action: Action)
    requires Inv(len, w) && Step(len, w, w', a, action)
    ensures Inv(len, w')
  {
    match action
    case Open(policy, entries) => OpenInv(len, w, w', a, policy, entries);
    case OpenFails(entries, left) => OpenFailsInv(len, w, w', a, entries, left);
    case Begin(request, env, view) => BeginInv(len, w, w', a, request, env, view);
    case Advance => AdvanceInv(len, w, w', a);
    case Finish => FinishInv(len, w, w', a);
    case Fail => FailInv(len, w, w', a);
    case Crash => DiedInv(len, w, w', a, w.markers[a := Released]);
    case Close(removed) => DiedInv(len, w, w', a, w'.markers);
    case NoteStartupIssue => assert w'.sessions.Keys == w.sessions.Keys;
  }

  // ----- what every run guarantees -----

  /** A run: `ws[i + 1]` follows `ws[i]` by a step of `who[i]`. */
  ghost predicate Run(len: Encoder, ws: seq<World>, who: seq<nat>, what: seq<Action>) {
    && |ws| == |who| + 1 && |what| == |who|
    && Initial(ws[0])
    && forall i :: 0 <= i < |who| ==> Step(len, ws[i], ws[i + 1], who[i], what[i])
  }

  lemma {:induction false} RunInv(len: Encoder, ws: seq<World>, who: seq<nat>, what: seq<Action>, i: nat)
    requires Run(len, ws, who, what) && i < |ws|
    ensures Inv(len, ws[i])
  {
    if i == 0 {
      InitialInv(len, ws[0]);
    } else {
      RunInv(len, ws, who, what, i - 1);
      StepInv(len, ws[i - 1], ws[i], who[i - 1], what[i - 1]);
    }
  }

  /** A running session's record is out of reach of every other session. */
  lemma StepRespectsOwners(len: Encoder, w: World, w': World, a: nat, action: Action, n: Name, o: nat)
    requires Inv(len, w) && Step(len, w, w', a, action)
    requires !n.Other? && OwnerOf(w.items, n) == Some(Uuid(o)) && o in w.sessions && o != a
    ensures SameEntry(w.items, w'.items, n)
  {
    if action.Advance? {
      assert SafeEffect(w, a, w.sessions[a].op.todo[0]);
    }
  }

  /** While a session keeps running and does not act, its record stays exactly
      as it is, whatever all other sessions do and wherever they crash. */
  lemma {:induction false} RunRespectsOwners(
    len: Encoder, ws: seq<World>, who: seq<nat>, what: seq<Action>, i: nat, j: nat, n: Name, o: nat)
    requires Run(len, ws, who, what) && i <= j < |ws|
    requires !n.Other? && OwnerOf(ws[i].items, n) == Some(Uuid(o))
    requires forall k :: i <= k < j ==> o in ws[k].sessions && who[k] != o
    ensures SameEntry(ws[i].items, ws[j].items, n)
  {
    if i < j {
      RunRespectsOwners(len, ws, who, what, i, j - 1, n, o);
      RunInv(len, ws, who, what, j - 1);
      StepRespectsOwners(len, ws[j - 1], ws[j], who[j - 1], what[j - 1], n, o);
    }
  }

  /** No two running sessions are ever both told that they hold one record. */
  lemma ClaimsAreExclusive(
    len: Encoder, ws: seq<World>, who: seq<nat>, what: seq<Action>, i: nat, id: nat, s: nat, t: nat)
    requires Run(len, ws, who, what) && i < |ws|
    requires (s, id) in ws[i].granted && s in ws[i].sessions
    requires (t, id) in ws[i].granted && t in ws[i].sessions
    ensures s == t
  {
    RunInv(len, ws, who, what, i);
  }

  /** A confirmed save or claim holds for as long as the session runs and does
      not itself start to remove the record. */
  lemma {:induction false} GrantsLast(
    len: Encoder, ws: seq<World>, who: seq<nat>, what: seq<Action>, i: nat, j: nat, id: nat, s: nat)
    requires Run(len, ws, who, what) && i <= j < |ws|
    requires (s, id) in ws[i].granted
    requires forall k :: i <= k <= j ==> s in ws[k].sessions
    requires forall k :: i <= k < j && who[k] == s && what[k].Begin? ==> what[k].request != Removing(id)
    ensures (s, id) in ws[j].granted && OwnerOf(ws[j].items, Item(id)) == Some(Uuid(s))
  {
    RunInv(len, ws, who, what, j);
    if i < j {
      GrantsLast(len, ws, who, what, i, j - 1, id, s);
      assert Step(len, ws[j - 1], ws[j], who[j - 1], what[j - 1]);
    }
  }

  /** When a save or a prune reports success, the whole directory is within the
      limits it was run under, and a saved record belongs to the saver. */
  lemma FinishKeepsPromises(len: Encoder, w: World, w': World, a: nat)
    requires Inv(len, w) && Step(len, w, w', a, Finish)
    ensures !w.sessions[a].op.request.Removing? && !w.sessions[a].op.request.Claiming? ==>
              WithinLimits(len, w'.items, w'.sessions[a].policy)
    ensures forall id :: id in Confirms(w.sessions[a].op.request) ==>
              (a, id) in w'.granted && OwnerOf(w'.items, Item(id)) == Some(Uuid(a))
    ensures w.sessions[a].op.request.Removing? ==> Item(w.sessions[a].op.request.id) !in w'.items
  {
    assert Sane(len, w, a);
  }

  /** A prune that succeeds without anything to delete is done at once: the limits
      are adopted, the startup issue is gone, and the directory as it stands is
      within them. */
  lemma IdlePruneTakesEffect(len: Encoder, w: World, w': World, a: nat, policy: Retention, env: Env, view: Markers)
    requires Inv(len, w) && Step(len, w, w', a, Begin(Pruning(policy), env, view))
    requires PlanFor(len, w, a, Pruning(policy), env, view) == Ok([])
    ensures w'.sessions[a] == Session(policy, None, Idle)
    ensures w'.items == w.items && WithinLimits(len, w'.items, policy)
  {
    PruneWithinLimits(len, w.items, view, a, policy, w.sessions[a].startup, env);
  }

  /** At the moment a planned victim is deleted its owner is still not a running
      session, and no running session has been told that it holds it: nobody
      could claim it since the listing. */
  lemma VictimIsStillDead(
    len: Encoder, ws: seq<World>, who: seq<nat>, what: seq<Action>, i: nat, a: nat, id: nat)
    requires Run(len, ws, who, what) && i < |who|
    requires what[i].Advance? && who[i] == a && Step(len, ws[i], ws[i + 1], a, Advance)
    requires ws[i].sessions[a].op.todo[0] == Delete(id)
    ensures forall s :: s in ws[i].sessions && s != a ==>
              OwnerOf(ws[i].items, Item(id)) != Some(Uuid(s)) && (s, id) !in ws[i].granted
    ensures (a, id) !in ws[i].granted
  {
    RunInv(len, ws, who, what, i);
    assert SafeEffect(ws[i], a, ws[i].sessions[a].op.todo[0]);
  }

  /** No step leaves a half-written record: an entry that changes at all is
      gone, or is one complete encoding owned by the session that acted. */
  lemma RecordsAreWhole(len: Encoder, w: World, w': World, a: nat, action: Action, n: Name)
    requires Inv(len, w) && Step(len, w, w', a, action) && !n.Other?
    ensures
      || SameEntry(w.items, w'.items, n)
      || n !in w'.items
      || (exists r :: w'.items[n] == Encoded(len, r) && r.session == Uuid(a) && n == Item(r.id))
  {
    if action.Advance? {
      assert SafeEffect(w, a, w.sessions[a].op.todo[0]);
    }
  }
}

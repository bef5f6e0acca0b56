/** The operations of a store object, undisturbed, as steps of its session. */
module RecoveryRefinement {
  import opened Wrappers
  import opened RecoveryTypes
  import opened RecoveryPlan
  import opened RecoveryProtocol
  import opened RecoveryStore

  /** Steps that session `a` takes one after the other. */
  ghost predicate Steps(len: Encoder, ws: seq<World>, a: nat, what: seq<Action>) {
    && |ws| == |what| + 1
    && forall i :: 0 <= i < |what| ==> Step(len, ws[i], ws[i + 1], a, what[i])
  }

  lemma StepsCons(len: Encoder, w: World, a: nat, action: Action, ws: seq<World>, what: seq<Action>)
    requires Steps(len, ws, a, what) && Step(len, w, ws[0], a, action)
    ensures Steps(len, [w] + ws, a, [action] + what)
  {
    hide Step;
    var all, acts := [w] + ws, [action] + what;
    forall i | 0 <= i < |acts| ensures Step(len, all[i], all[i + 1], a, acts[i]) {
      if i > 0 {
        assert all[i] == ws[i - 1] && all[i + 1] == ws[i] && acts[i] == what[i - 1];
      }
    }
  }

  /** What a session is left with when it has let go of the lock: settled after
      success, as it was after a failure. */
  function LeftWith(s: Session, request: Request, done: bool): Session {
    if done then Settled(s, request) else s.(op := Idle)
  }

  /** The world beside one session and the directory is untouched. */
  predicate OnlyOwn(w: World, t: World, a: nat) {
    && t.markers == w.markers && t.used == w.used && t.holder.None?
    && a in t.sessions && t.sessions.Keys == w.sessions.Keys
    && (forall b :: b in w.sessions && b != a ==> t.sessions[b] == w.sessions[b])
    && (forall p :: p in t.granted && p.0 != a ==> p in w.granted)
    && (forall p :: p in w.granted && p.0 != a ==> p in t.granted)
  }

  /** Carrying out a plan with `budget` operations before one fails: an advance for
      each, then a finish or a failure. */
  lemma {:induction false} CommitIsSteps(len: Encoder, w: World, a: nat, budget: nat)
    returns (ws: seq<World>, what: seq<Action>)
    requires w.holder == Some(a) && a in w.sessions && w.sessions[a].op.Committing?
    ensures Steps(len, ws, a, what) && ws[0] == w
    ensures
      var op := w.sessions[a].op;
      var t := ws[|ws| - 1];
      && OnlyOwn(w, t, a)
      && t.items == Outcome(len, w.items, op.todo, budget)
      && t.sessions[a] == LeftWith(w.sessions[a], op.request, budget >= |op.todo|)
    decreases |w.sessions[a].op.todo|
  {
    hide OnlyOwn;
    var op := w.sessions[a].op;
    if op.todo == [] {
      var t := Finished(w, a);
      ws, what := [w, t], [Finish];
      FinishedOwn(w, a);
    } else if budget == 0 {
      var t := w.(
        items := Abandon(w.items, op.todo[0]),
        holder := None,
        sessions := w.sessions[a := w.sessions[a].(op := Idle)]);
      ws, what := [w, t], [Fail];
      FailedOwn(w, t, a);
      assert op.todo[..0] == [];
    } else {
      var next := w.(
        items := Apply(len, w.items, op.todo[0]),
        sessions := w.sessions[a := w.sessions[a].(op := op.(todo := op.todo[1..]))]);
      var rest, acts := CommitIsSteps(len, next, a, budget - 1);
      StepsCons(len, w, a, Advance, rest, acts);
      ws, what := [w] + rest, [Advance] + acts;
      OwnThrough(w, next, rest[|rest| - 1], a);
      OutcomeUnfolds(len, w.items, op.todo, budget);
    }
  }

  lemma FinishedOwn(w: World, a: nat)
    requires w.holder == Some(a) && a in w.sessions && w.sessions[a].op.Committing?
    ensures OnlyOwn(w, Finished(w, a), a)
  {
    assert Finished(w, a).sessions.Keys == w.sessions.Keys;
  }

  lemma FailedOwn(w: World, t: World, a: nat)
    requires a in w.sessions && w.sessions[a].op.Committing? && w.sessions[a].op.todo != []
    requires t == w.(items := t.items, holder := None, sessions := w.sessions[a := w.sessions[a].(op := Idle)])
    ensures OnlyOwn(w, t, a)
  {
    assert t.sessions.Keys == w.sessions.Keys;
  }

  lemma OwnThrough(w: World, next: World, t: World, a: nat)
    requires a in w.sessions && OnlyOwn(next, t, a)
    requires next == w.(items := next.items, sessions := w.sessions[a := next.sessions[a]])
    ensures OnlyOwn(w, t, a)
  {
    assert next.sessions.Keys == w.sessions.Keys;
  }

  lemma OutcomeUnfolds(len: Encoder, items: Items, todo: seq<Effect>, budget: nat)
    requires todo != [] && budget > 0
    ensures Outcome(len, items, todo, budget) == Outcome(len, Apply(len, items, todo[0]), todo[1..], budget - 1)
  {
    if budget < |todo| {
      assert todo[..budget][0] == todo[0] && todo[..budget][1..] == todo[1..][..budget - 1];
    }
  }

  /** A save, prune, change of limits, removal or claim, begun with the lock free and
      carried out undisturbed, is a begin followed by advances and a finish or a
      failure. It leaves the directory as the object's operation does, adopts limits
      and clears the startup issue exactly on success, and touches no other session. */
  lemma OperationIsSteps(len: Encoder, w: World, a: nat, request: Request, env: Env, budget: nat)
    returns (ws: seq<World>, what: seq<Action>)
    requires w.holder.None? && a in w.sessions && w.sessions[a].op.Idle? && Scannable(w.items, env)
    ensures Steps(len, ws, a, what) && ws[0] == w
    ensures
      var plan := PlanFor(len, w, a, request, env, w.markers);
      var t := ws[|ws| - 1];
      && OnlyOwn(w, t, a)
      && t.items == Carried(len, w.items, plan, budget)
      && t.sessions[a] == LeftWith(w.sessions[a], request, Verdict(plan, budget).Ok?)
      && (request.Pruning? && ValidRetention(request.policy) ==>
            plan == PrunePlan(len, w.items, w.markers, a, request.policy, w.sessions[a].startup, env))
      && (request.Pruning? && !ValidRetention(request.policy) ==> t.items == w.items && t.sessions == w.sessions)
  {
    if request.Pruning? {
      LimitsPlanned(len, w, a, request, env);
    }
    hide PlanFor, OnlyOwn, PrunePlan, ValidRetention, Step, LeftWith;
    var plan := PlanFor(len, w, a, request, env, w.markers);
    var begin := Begin(request, env, w.markers);
    var begun := Started(w, a, request, plan);
    BeginIsStep(len, w, a, request, env);
    if plan.Err? || plan.value == [] {
      ws, what := [w, begun], [begin];
      StartedOwn(w, a, request, plan);
    } else {
      var rest, acts := CommitIsSteps(len, begun, a, budget);
      StepsCons(len, w, a, begin, rest, acts);
      ws, what := [w] + rest, [begin] + acts;
      BegunOwn(w, begun, rest[|rest| - 1], a, request, plan);
    }
  }

  lemma BeginIsStep(len: Encoder, w: World, a: nat, request: Request, env: Env)
    requires w.holder.None? && a in w.sessions && w.sessions[a].op.Idle? && Scannable(w.items, env)
    ensures
      var plan := PlanFor(len, w, a, request, env, w.markers);
      && Step(len, w, Started(w, a, request, plan), a, Begin(request, env, w.markers))
      && (plan.Err? ==> Started(w, a, request, plan).sessions[a] == LeftWith(w.sessions[a], request, false))
      && (plan.Ok? && plan.value == [] ==>
            Started(w, a, request, plan).sessions[a] == LeftWith(w.sessions[a], request, true))
      && (plan.Ok? && plan.value != [] ==>
            forall done :: LeftWith(Started(w, a, request, plan).sessions[a], request, done) ==
                           LeftWith(w.sessions[a], request, done))
  {
    hide PlanFor, Scannable;
  }

  lemma LimitsPlanned(len: Encoder, w: World, a: nat, request: Request, env: Env)
    requires a in w.sessions && Scannable(w.items, env) && request.Pruning?
    ensures PlanFor(len, w, a, request, env, w.markers) ==
            if ValidRetention(request.policy)
            then PrunePlan(len, w.items, w.markers, a, request.policy, w.sessions[a].startup, env)
            else Err(InvalidRetention)
  {
  }

  lemma StartedOwn(w: World, a: nat, request: Request, plan: Result<seq<Effect>, Error>)
    requires w.holder.None? && a in w.sessions && (plan.Err? || plan.value == [])
    ensures OnlyOwn(w, Started(w, a, request, plan), a)
  {
    assert Started(w, a, request, plan).sessions.Keys == w.sessions.Keys;
  }

  lemma BegunOwn(w: World, begun: World, t: World, a: nat, request: Request, plan: Result<seq<Effect>, Error>)
    requires a in w.sessions && plan.Ok? && plan.value != [] && begun == Started(w, a, request, plan)
    requires OnlyOwn(begun, t, a)
    ensures OnlyOwn(w, t, a)
  {
    assert begun.sessions.Keys == w.sessions.Keys;
  }

  // ----- opening and closing -----

  /** The markers that the iterator names. */
  function NamesOf(entries: seq<Passed>): (ns: seq<nat>)
    ensures forall n :: n in ns <==> PassedBy(entries, n)
  {
    if entries == [] then []
    else
      PassedByRest(entries);
      (if entries[0].Named? then [entries[0].n] else []) + NamesOf(entries[1..])
  }

  /** What `Open` does before it prunes, begun with the lock free and valid limits, is
      one step: an opening that leaves the markers as the object does, or a failed one
      that leaves what was swept and perhaps a marker nobody holds. */
  lemma OpenIsStep(
    len: Encoder, w: World, a: nat, policy: Retention, entries: seq<Passed>, synced: bool, marking: Marking)
    returns (t: World, action: Action)
    requires w.holder.None? && a !in w.used && a !in w.markers && ValidRetention(policy)
    ensures Step(len, w, t, a, action)
    ensures
      var sweep := SweepFrom(w.markers, entries, 0, false, synced);
      && t.items == w.items && t.granted == w.granted && t.holder.None? && t.used == w.used + {a}
      && (sweep.r.Ok? && marking.Marked? ==>
            t.markers == sweep.markers[a := Held] && t.sessions == w.sessions[a := Session(policy, None, Idle)])
      && (!(sweep.r.Ok? && marking.Marked?) ==>
            && t.sessions == w.sessions
            && t.markers == if sweep.r.Ok? && marking.LeftUnlocked? then sweep.markers[a := Released] else sweep.markers)
  {
    var sweep := SweepFrom(w.markers, entries, 0, false, synced);
    var p := SweepExactly(w.markers, entries, 0, false, synced);
    var ns := NamesOf(entries[..p]);
    assert Unmarked(w.markers, ns) == sweep.markers;
    if sweep.r.Ok? && marking.Marked? {
      action := Open(policy, ns);
      t := w.(markers := sweep.markers[a := Held], sessions := w.sessions[a := Session(policy, None, Idle)], used := w.used + {a});
    } else {
      var left := sweep.r.Ok? && marking.LeftUnlocked?;
      action := OpenFails(ns, left);
      t := w.(markers := if left then sweep.markers[a := Released] else sweep.markers, used := w.used + {a});
    }
  }

  /** What `Close` does is one step, after which the session is gone. */
  lemma CloseIsStep(len: Encoder, w: World, a: nat, removed: bool) returns (t: World)
    requires a in w.sessions && w.sessions[a].op.Idle? && w.holder != Some(a)
    ensures Step(len, w, t, a, Close(removed))
    ensures t.markers == if removed then w.markers - {a} else w.markers[a := Released]
    ensures t.items == w.items && t.holder == w.holder && t.used == w.used && t.sessions == w.sessions - {a}
  {
    t := Died(w, a, if removed then w.markers - {a} else w.markers[a := Released]);
  }
}

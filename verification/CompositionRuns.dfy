/** Where requests go: to the destination whose button was pressed last. */
module CompositionRuns {
  import opened Wrappers
  import opened Composition

  /** The button pressed in step `k` is the last that took effect before step `n`, and
      the destinations have been the same since. */
  ghost predicate LastPressed(ss: seq<State>, actions: seq<Action>, k: nat, n: nat)
    requires n <= |actions| < |ss|
  {
    && k < n && Presses(ss[k], actions[k])
    && forall m :: k < m < n ==> !actions[m].ChangeTargets? && !Presses(ss[m], actions[m])
  }

  /** A button is pressed while nothing is in flight. */
  ghost predicate Presses(s: State, a: Action) {
    a.Choose? && s.flight.None?
  }

  /** The destination of the button pressed, if its place in the list is taken. */
  function Pressed(s: State, index: nat): Option<Target> {
    if index < |s.targets| then Some(s.targets[index]) else None
  }

  lemma PressSelects(s: State, a: Action, t: State)
    requires Next(s, a, t)
    ensures Presses(s, a) ==> Destination(t) == Pressed(s, a.index)
    ensures !Presses(s, a) && !a.ChangeTargets? ==> Destination(t) == Destination(s)
    ensures a.ChangeTargets? ==> Destination(t) == None
  {
    hide SortRows, Unconfirmed, Blocked;
  }

  /** In every run the destination selected is that of the last button pressed since the
      destinations changed, and none before. */
  lemma {:induction false} SelectedByButton(ss: seq<State>, actions: seq<Action>, n: nat)
    requires Run(ss, actions) && n < |ss|
    ensures forall k: nat | LastPressed(ss, actions, k, n) :: Destination(ss[n]) == Pressed(ss[k], actions[k].index)
    ensures Destination(ss[n]).Some? ==> exists k: nat :: LastPressed(ss, actions, k, n)
  {
    hide Next, Destination;
    if n == 0 {
      NothingSelected(ss[0]);
    } else {
      var s, a := ss[n - 1], actions[n - 1];
      assert Next(s, a, ss[n - 1 + 1]);
      PressSelects(s, a, ss[n]);
      SelectedByButton(ss, actions, n - 1);
      if Presses(s, a) {
        assert LastPressed(ss, actions, n - 1, n);
      } else if !a.ChangeTargets? && Destination(s).Some? {
        var k: nat :| LastPressed(ss, actions, k, n - 1);
        assert LastPressed(ss, actions, k, n);
      }
      forall k: nat | LastPressed(ss, actions, k, n) ensures Destination(ss[n]) == Pressed(ss[k], actions[k].index) {
        if k < n - 1 {
          assert LastPressed(ss, actions, k, n - 1);
        }
      }
    }
  }

  lemma NothingSelected(s: State)
    requires s == State([], None, [], 0, None, [], None)
    ensures Destination(s).None? && s.flight.None?
  {
  }

  /** The step puts a request in flight: to the destination then selected, with the
      items asked for, or those waiting, or none. */
  ghost predicate Sends(s: State, a: Action, t: State) {
    && s.flight.None? && Destination(t).Some?
    && t.flight == Some(Flight(t.epoch, Destination(t).value, Asked(s, a), Running))
  }

  function Asked(s: State, a: Action): seq<Item> {
    if a.Ask? then a.items else if a.AskAgain? then s.retryItems else []
  }

  /** A request stays in flight as it was sent until it is drained. */
  lemma FlightStep(s: State, a: Action, t: State)
    requires Next(s, a, t) && t.flight.Some?
    ensures if s.flight.None? then Sends(s, a, t)
            else s.flight.value == t.flight.value.(answer := s.flight.value.answer)
  {
    hide SortRows, Unconfirmed, Blocked;
  }

  /** In every run each request in flight was sent, in some step `k`, to the target of
      the button last pressed by then; nothing else has been in flight since. */
  lemma {:induction false} InFlightIsOfButton(ss: seq<State>, actions: seq<Action>, n: nat)
    returns (k: nat, pressed: nat, t: State)
    requires Run(ss, actions) && n < |ss| && ss[n].flight.Some?
    ensures k < n && t == ss[k + 1] && Sends(ss[k], actions[k], t)
    ensures ss[n].flight.value == t.flight.value.(answer := ss[n].flight.value.answer)
    ensures LastPressed(ss, actions, pressed, k + 1)
    ensures Pressed(ss[pressed], actions[pressed].index) == Some(ss[n].flight.value.target)
  {
    hide Next, Presses, Destination, LastPressed, Pressed;
    NothingSelected(State([], None, [], 0, None, [], None));
    var s, a := ss[n - 1], actions[n - 1];
    assert Next(s, a, ss[n - 1 + 1]);
    FlightStep(s, a, ss[n]);
    if s.flight.Some? {
      k, pressed, t := InFlightIsOfButton(ss, actions, n - 1);
    } else {
      k, t := n - 1, ss[n];
      SelectedByButton(ss, actions, n);
      pressed :| LastPressed(ss, actions, pressed, n);
    }
  }

  /** The retry button puts the very items waiting in flight to their destination. */
  lemma RetrySends(s: State, t: State)
    requires Next(s, AskAgain(true), t)
    requires s.flight.None? && s.retryItems != [] && Destination(s).Some? && Destination(s) == s.retryTarget
    ensures Sends(s, AskAgain(true), t) && t.flight.value.target == s.retryTarget.value
    ensures t.retryItems == s.retryItems && t.retryTarget == s.retryTarget
  {
  }

  /** What is sent with items waits for the destination it is sent to. */
  lemma SentItemsWait(s: State, a: Action, t: State)
    requires Next(s, a, t) && Sends(s, a, t) && t.flight.value.items != []
    ensures t.retryItems == t.flight.value.items && t.retryTarget == Some(t.flight.value.target)
  {
    hide SortRows, Unconfirmed;
  }
}

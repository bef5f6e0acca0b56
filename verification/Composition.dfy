/** The request and drain machine in front of retained collections: one request in
    flight at a time, answers checked against a wrapping generation, and items kept
    for retry until the destination they were sent to lists them. */
module Composition {
  import opened Wrappers

  const GENERATIONS: nat := 0x1_0000_0000_0000_0000

  datatype Target = Target(persona: string, space: nat, writer: nat)

  datatype Item = Item(id: string, body: string)

  datatype Receipt = Receipt(target: Target, itemId: string)

  /** A retained item as listed; `rank` stands for its place in the listing order. */
  datatype Row = Row(receipt: Receipt, item: Item, author: nat, rank: nat)

  datatype Answer = Running | Answered(result: Result<seq<Row>, string>) | Disconnected

  datatype Flight = Flight(epoch: nat, target: Target, items: seq<Item>, answer: Answer)

  /** `epoch` counts every change of destination; the code keeps it modulo 2^64. */
  datatype State = State(
    targets: seq<Target>,
    selected: Option<nat>,
    retained: seq<Row>,
    epoch: nat,
    flight: Option<Flight>,
    retryItems: seq<Item>,
    retryTarget: Option<Target>)

  function Destination(s: State): Option<Target> {
    if s.selected.Some? && s.selected.value < |s.targets| then Some(s.targets[s.selected.value]) else None
  }

  function Ids(items: seq<Item>): (ids: seq<string>)
    ensures |ids| == |items| && forall i :: 0 <= i < |items| ==> ids[i] == items[i].id
  {
    seq(|items|, i requires 0 <= i < |items| => items[i].id)
  }

  // ----- the worker -----

  /** Every row carries a receipt of the target for its own item. */
  ghost predicate Authentic(rows: seq<Row>, target: Target) {
    forall i :: 0 <= i < |rows| ==> rows[i].receipt == Receipt(target, rows[i].item.id)
  }

  /** What the port answers: one receipt for each submitted item, perhaps one for an
      organization change, and the listing. */
  datatype Port = Port(
    retain: Item -> Result<Receipt, string>,
    organize: string -> Result<Receipt, string>,
    list: Result<seq<Row>, string>)

  /** Submits the items and the change, then lists. An answer is passed on only if
      every receipt is of the right destination and item. */
  method Work(target: Target, items: seq<Item>, change: Option<string>, port: Port) returns (r: Result<seq<Row>, string>)
    ensures r.Ok? <==>
              && (forall i :: 0 <= i < |items| ==> port.retain(items[i]) == Ok(Receipt(target, items[i].id)))
              && (change.Some? ==> port.organize(change.value) == Ok(Receipt(target, change.value)))
              && port.list.Ok? && Authentic(port.list.value, target)
    ensures r.Ok? ==> r == port.list
  {
    for i := 0 to |items|
      invariant forall k :: 0 <= k < i ==> port.retain(items[k]) == Ok(Receipt(target, items[k].id))
    {
      var receipt := port.retain(items[i]);
      if receipt.Err? {
        return Err(receipt.error);
      }
      if receipt.value.target != target || receipt.value.itemId != items[i].id {
        return Err("receipt mismatch");
      }
    }
    if change.Some? {
      var receipt := port.organize(change.value);
      if receipt.Err? {
        return Err(receipt.error);
      }
      if receipt.value.target != target || receipt.value.itemId != change.value {
        return Err("receipt mismatch");
      }
    }
    if port.list.Err? {
      return Err(port.list.error);
    }
    var rows := port.list.value;
    if exists i :: 0 <= i < |rows| && (rows[i].receipt.target != target || rows[i].receipt.itemId != rows[i].item.id) {
      return Err("mismatched authority receipts");
    }
    return Ok(rows);
  }

  // ----- the operations -----

  function SetTargets(s: State, targets: seq<Target>): State {
    s.(epoch := s.epoch + 1, targets := targets, selected := None, retained := [])
  }

  /** The request is refused while older material is unconfirmed, unless it is that
      same request to that same destination. */
  predicate Blocked(s: State, target: Target, items: seq<Item>, legacy: bool) {
    && (items != [] || legacy)
    && s.retryItems != []
    && (s.retryTarget != Some(target) || legacy || Ids(items) != Ids(s.retryItems))
  }

  function Request(s: State, items: seq<Item>, legacy: bool, spawned: bool): State {
    if s.flight.Some? then s
    else if Destination(s).None? then s.(retained := [])
    else Submit(s.(retained := []), Destination(s).value, items, legacy, spawned)
  }

  function Submit(s: State, target: Target, items: seq<Item>, legacy: bool, spawned: bool): State {
    if Blocked(s, target, items, legacy) then s
    else
      var flight := if spawned then Some(Flight(s.epoch, target, items, Running)) else s.flight;
      if items != [] then s.(retryItems := items, retryTarget := Some(target), flight := flight)
      else s.(flight := flight)
  }

  function Select(s: State, index: nat, spawned: bool): State {
    if s.flight.Some? then s
    else Request(s.(epoch := s.epoch + 1, selected := Some(index), retained := []), [], false, spawned)
  }

  function Retry(s: State, spawned: bool): State {
    if s.retryItems == [] then s else Request(s, s.retryItems, false, spawned)
  }

  predicate Confirmed(item: Item, rows: seq<Row>, writer: nat) {
    exists i :: 0 <= i < |rows| && rows[i].author == writer && rows[i].item == item
  }

  function Unconfirmed(items: seq<Item>, rows: seq<Row>, writer: nat): seq<Item> {
    if items == [] then []
    else (if Confirmed(items[0], rows, writer) then [] else [items[0]]) + Unconfirmed(items[1..], rows, writer)
  }

  ghost predicate Ranked(rows: seq<Row>) {
    forall i, j :: 0 <= i < j < |rows| ==> rows[i].rank <= rows[j].rank
  }

  function InsertRow(row: Row, rows: seq<Row>): (r: seq<Row>)
    ensures multiset(r) == multiset(rows) + multiset{row}
  {
    if rows == [] then [row]
    else if row.rank <= rows[0].rank then [row] + rows
    else
      assert rows == [rows[0]] + rows[1..];
      [rows[0]] + InsertRow(row, rows[1..])
  }

  /** The rows in listing order. */
  function SortRows(rows: seq<Row>): (r: seq<Row>)
    ensures multiset(r) == multiset(rows)
  {
    if rows == [] then []
    else
      assert rows == [rows[0]] + rows[1..];
      InsertRow(rows[0], SortRows(rows[1..]))
  }

  lemma {:induction false} InsertRanked(row: Row, rows: seq<Row>)
    requires Ranked(rows)
    ensures Ranked(InsertRow(row, rows))
  {
    if rows != [] && row.rank > rows[0].rank {
      var more := InsertRow(row, rows[1..]);
      InsertRanked(row, rows[1..]);
      forall i | 0 <= i < |more| ensures rows[0].rank <= more[i].rank {
        assert more[i] in multiset(more);
        assert more[i] == row || more[i] in rows[1..];
      }
    }
  }

  lemma {:induction false} SortRanked(rows: seq<Row>)
    ensures Ranked(SortRows(rows))
  {
    if rows != [] {
      SortRanked(rows[1..]);
      InsertRanked(rows[0], SortRows(rows[1..]));
    }
  }

  /** The state once the rows of the selected destination are shown. */
  function Show(s: State, rows: seq<Row>): State {
    if s.retryTarget.Some? && Destination(s) == s.retryTarget then
      var left := Unconfirmed(s.retryItems, rows, s.retryTarget.value.writer);
      s.(retained := rows, retryItems := left, retryTarget := if left == [] then None else s.retryTarget)
    else s.(retained := rows)
  }

  function Drain(s: State): State {
    if s.flight.None? || s.flight.value.answer.Running? then s
    else
      var landed := s.(flight := None);
      if s.flight.value.answer.Disconnected? then landed.(retained := [])
      else if s.flight.value.epoch % GENERATIONS != s.epoch % GENERATIONS then landed
      else
        match s.flight.value.answer.result
        case Ok(rows) => Show(landed, SortRows(rows))
        case Err(_) => landed.(retained := [])
  }

  // ----- the object -----

  /** A request sent to the worker: the generation it was sent under, where to, with
      which items, and the answer. */
  datatype Sent = Sent(generation: nat, target: Target, items: seq<Item>, answer: Answer)

  class CompositionState {
    var targets: seq<Target>
    var selected: Option<nat>
    var retained: seq<Row>
    var generation: nat
    var receiver: Option<Sent>
    var retryItems: seq<Item>
    var retryTarget: Option<Target>
    ghost var epoch: nat
    ghost var sentEpoch: nat

    /** The generation is the number of destination changes modulo 2^64. */
    ghost predicate Valid()
      reads this
    {
      && generation == epoch % GENERATIONS
      && (receiver.Some? ==> receiver.value.generation == sentEpoch % GENERATIONS)
    }

    ghost function View(): State
      reads this
    {
      State(targets, selected, retained, epoch,
            if receiver.None? then None
            else Some(Flight(sentEpoch, receiver.value.target, receiver.value.items, receiver.value.answer)),
            retryItems, retryTarget)
    }

    constructor ()
      ensures Valid() && View() == State([], None, [], 0, None, [], None)
    {
      targets, selected, retained, generation := [], None, [], 0;
      receiver, retryItems, retryTarget, epoch := None, [], None, 0;
    }

    method ChangeTargets(list: seq<Target>)
      requires Valid()
      modifies this
      ensures Valid() && View() == SetTargets(old(View()), list)
    {
      generation := (generation + 1) % GENERATIONS;
      epoch := epoch + 1;
      targets := list;
      selected := None;
      retained := [];
    }

    /** `spawned` says whether the worker thread could be started. */
    method RequestOperation(items: seq<Item>, legacy: bool, spawned: bool)
      requires Valid()
      modifies this
      ensures Valid() && View() == Request(old(View()), items, legacy, spawned)
      ensures unchanged(`targets) && unchanged(`selected) && unchanged(`generation)
      ensures old(receiver).Some? ==> View() == old(View())
      ensures old(receiver).None? ==>
                && retained == []
                && receiver ==
                   if spawned && selected.Some? && selected.value < |targets|
                      && ((items == [] && !legacy) || old(retryItems) == []
                          || (!legacy && old(retryTarget) == Some(targets[selected.value])
                              && Ids(items) == Ids(old(retryItems))))
                   then Some(Sent(generation, targets[selected.value], items, Running)) else None
    {
      if receiver.Some? {
        return;
      }
      retained := [];
      if selected.None? || selected.value >= |targets| {
        return;
      }
      var target := targets[selected.value];
      if (items != [] || legacy) && retryItems != []
         && (retryTarget != Some(target) || legacy || Ids(items) != Ids(retryItems))
      {
        return;
      }
      if items != [] {
        retryItems := items;
        retryTarget := Some(target);
      }
      if spawned {
        receiver := Some(Sent(generation, target, items, Running));
        sentEpoch := epoch;
      }
    }

    method SelectTarget(index: nat, spawned: bool)
      requires Valid()
      modifies this
      ensures Valid() && View() == Select(old(View()), index, spawned)
      ensures unchanged(`targets) && unchanged(`retryItems) && unchanged(`retryTarget)
      ensures old(receiver).Some? ==> View() == old(View())
      ensures old(receiver).None? ==>
                && selected == Some(index) && retained == [] && epoch == old(epoch) + 1
                && receiver == if spawned && index < |targets| then Some(Sent(generation, targets[index], [], Running))
                               else None
    {
      if receiver.Some? {
        return;
      }
      generation := (generation + 1) % GENERATIONS;
      epoch := epoch + 1;
      selected := Some(index);
      retained := [];
      RequestOperation([], false, spawned);
    }

    method RetrySame(spawned: bool)
      requires Valid()
      modifies this
      ensures Valid() && View() == Retry(old(View()), spawned)
      ensures unchanged(`targets) && unchanged(`selected) && unchanged(`generation) && unchanged(`retryItems)
      ensures old(receiver).Some? || old(retryItems) == [] ==> View() == old(View())
      ensures old(receiver).None? && old(retryItems) != [] ==>
                && unchanged(`retryTarget) && retained == []
                && receiver ==
                   if spawned && selected.Some? && selected.value < |targets|
                      && old(retryTarget) == Some(targets[selected.value])
                   then Some(Sent(generation, retryTarget.value, retryItems, Running)) else None
    {
      if retryItems != [] {
        RequestOperation(retryItems, false, spawned);
      }
    }

    method DrainAnswer()
      requires Valid()
      modifies this
      ensures Valid() && View() == Drain(old(View()))
      ensures unchanged(`targets) && unchanged(`selected) && unchanged(`generation)
      ensures
        if old(receiver).None? || old(receiver).value.answer.Running? then View() == old(View())
        else
          var answer := old(receiver).value.answer;
          var stale := answer.Answered? && old(receiver).value.generation != generation;
          && receiver.None?
          && (stale ==> unchanged(`retained) && unchanged(`retryItems) && unchanged(`retryTarget))
          && (!stale && (answer.Disconnected? || answer.result.Err?) ==>
                retained == [] && unchanged(`retryItems) && unchanged(`retryTarget))
          && (!stale && answer.Answered? && answer.result.Ok? ==>
                multiset(retained) == multiset(answer.result.value) && Ranked(retained))
    {
      hide SortRows, Confirmed, Unconfirmed;
      if receiver.None? || receiver.value.answer.Running? {
        return;
      }
      var sent := receiver.value;
      receiver := None;
      if sent.answer.Disconnected? {
        retained := [];
        return;
      }
      if sent.generation != generation {
        return;
      }
      match sent.answer.result {
        case Err(_) => retained := [];
        case Ok(rows) =>
          SortRanked(rows);
          retained := SortRows(rows);
          if retryTarget.Some? && selected.Some? && selected.value < |targets|
             && targets[selected.value] == retryTarget.value
          {
            retryItems := KeepUnconfirmed(retryItems, retained, retryTarget.value.writer);
            if retryItems == [] {
              retryTarget := None;
            }
          }
      }
    }
  }

  method KeepUnconfirmed(items: seq<Item>, rows: seq<Row>, writer: nat) returns (left: seq<Item>)
    ensures left == Unconfirmed(items, rows, writer)
  {
    hide Confirmed;
    left := [];
    for i := 0 to |items|
      invariant left + Unconfirmed(items[i..], rows, writer) == Unconfirmed(items, rows, writer)
    {
      assert items[i..][0] == items[i] && items[i..][1..] == items[i + 1..];
      if !Confirmed(items[i], rows, writer) {
        left := left + [items[i]];
      }
    }
  }

  // ----- steps -----

  datatype Action =
    | ChangeTargets(list: seq<Target>)
    | Choose(index: nat, spawned: bool)
    | Ask(items: seq<Item>, legacy: bool, spawned: bool)
    | AskAgain(spawned: bool)
    | Answer(answer: Answer)
    | Look

  /** The worker answers once, with rows of the destination it was given. */
  ghost predicate AnswerFits(s: State, answer: Answer) {
    && s.flight.Some? && s.flight.value.answer.Running? && !answer.Running?
    && (answer.Answered? && answer.result.Ok? ==> Authentic(answer.result.value, s.flight.value.target))
  }

  ghost predicate Next(s: State, a: Action, t: State) {
    match a
    case ChangeTargets(list) => t == SetTargets(s, list)
    case Choose(index, spawned) => t == Select(s, index, spawned)
    case Ask(items, legacy, spawned) => t == Request(s, items, legacy, spawned)
    case AskAgain(spawned) => t == Retry(s, spawned)
    case Answer(answer) => AnswerFits(s, answer) && t == s.(flight := Some(s.flight.value.(answer := answer)))
    case Look => t == Drain(s)
  }

  // ----- rows on show belong to the selected destination -----

  ghost predicate Shown(s: State) {
    s.retained != [] ==> Destination(s).Some? && Authentic(s.retained, Destination(s).value)
  }

  /** A request sent since the last change of destination went to the selected one. */
  ghost predicate FlightOk(s: State) {
    s.flight.Some? ==>
      && s.flight.value.epoch <= s.epoch
      && (s.flight.value.epoch == s.epoch ==> Destination(s) == Some(s.flight.value.target))
      && (s.flight.value.answer.Answered? && s.flight.value.answer.result.Ok? ==>
            Authentic(s.flight.value.answer.result.value, s.flight.value.target))
  }

  /** Items wait for retry exactly when there is a destination they were sent to. */
  ghost predicate RetryOk(s: State) {
    s.retryTarget.None? <==> s.retryItems == []
  }

  ghost predicate Inv(s: State) {
    Shown(s) && FlightOk(s) && RetryOk(s)
  }

  lemma SortedAuthentic(rows: seq<Row>, target: Target)
    requires Authentic(rows, target)
    ensures Authentic(SortRows(rows), target)
  {
    var sorted := SortRows(rows);
    forall i | 0 <= i < |sorted| ensures sorted[i].receipt == Receipt(target, sorted[i].item.id) {
      assert sorted[i] in multiset(sorted);
      assert sorted[i] in rows;
    }
  }

  lemma DrainInv(s: State)
    requires Inv(s)
    requires s.flight.Some? ==> s.epoch - s.flight.value.epoch < GENERATIONS
    ensures Inv(Drain(s))
  {
    hide SortRows, Authentic;
    if s.flight.Some? && s.flight.value.answer.Answered? {
      var flight := s.flight.value;
      NoWrap(flight.epoch, s.epoch);
      if flight.answer.result.Ok? {
        SortedAuthentic(flight.answer.result.value, flight.target);
      }
    }
  }

  lemma NoWrap(sent: nat, now: nat)
    requires sent <= now && now - sent < GENERATIONS
    ensures sent % GENERATIONS == now % GENERATIONS ==> sent == now
  {
  }

  lemma RequestInv(s: State, items: seq<Item>, legacy: bool, spawned: bool)
    requires Inv(s)
    ensures Inv(Request(s, items, legacy, spawned)) && Request(s, items, legacy, spawned).epoch == s.epoch
  {
    hide Blocked, Authentic;
    NothingAuthentic();
  }

  lemma NothingAuthentic()
    ensures forall target :: Authentic([], target)
  {
  }

  lemma StepInv(s: State, a: Action, t: State)
    requires Inv(s) && Next(s, a, t)
    requires s.flight.Some? ==> s.epoch - s.flight.value.epoch < GENERATIONS
    ensures Inv(t) && s.epoch <= t.epoch <= s.epoch + 1
  {
    hide Request, Drain, Authentic;
    match a {
      case ChangeTargets(list) =>
      case Choose(index, spawned) =>
        if s.flight.None? {
          RequestInv(s.(epoch := s.epoch + 1, selected := Some(index), retained := []), [], false, spawned);
        }
      case Ask(items, legacy, spawned) => RequestInv(s, items, legacy, spawned);
      case AskAgain(spawned) => RequestInv(s, s.retryItems, false, spawned);
      case Answer(answer) =>
      case Look =>
        DrainInv(s);
        DrainEpoch(s);
    }
  }

  lemma DrainEpoch(s: State)
    ensures Drain(s).epoch == s.epoch && Destination(Drain(s)) == Destination(s)
  {
  }

  ghost predicate Run(ss: seq<State>, actions: seq<Action>) {
    && |ss| == |actions| + 1
    && ss[0] == State([], None, [], 0, None, [], None)
    && forall i :: 0 <= i < |actions| ==> Next(ss[i], actions[i], ss[i + 1])
  }

  lemma {:induction false} RunInv(ss: seq<State>, actions: seq<Action>, n: nat)
    requires Run(ss, actions) && n < |ss| && |actions| < GENERATIONS
    ensures Inv(ss[n]) && ss[n].epoch <= n
  {
    hide Next, Authentic;
    if n > 0 {
      RunInv(ss, actions, n - 1);
      assert Next(ss[n - 1], actions[n - 1], ss[n - 1 + 1]);
      StepInv(ss[n - 1], actions[n - 1], ss[n]);
    }
  }

  /** In every run shorter than 2^64 steps, every row on show carries a receipt of
      the currently selected destination. */
  lemma RowsAreOfDestination(ss: seq<State>, actions: seq<Action>, n: nat, row: Row)
    requires Run(ss, actions) && n < |ss| && |actions| < GENERATIONS
    requires row in ss[n].retained
    ensures Destination(ss[n]) == Some(row.receipt.target) && row.receipt.itemId == row.item.id
  {
    hide Next;
    RunInv(ss, actions, n);
  }

  // ----- stale answers -----

  /** An answer is taken for current exactly when the number of destination changes
      since it was sent is a multiple of 2^64; otherwise only the channel closes. */
  lemma StaleExactly(s: State)
    requires s.flight.Some? && s.flight.value.answer.Answered? && s.flight.value.epoch <= s.epoch
    ensures (s.epoch - s.flight.value.epoch) % GENERATIONS != 0 ==> Drain(s) == s.(flight := None)
    ensures s.flight.value.answer.result.Ok? && (s.epoch - s.flight.value.epoch) % GENERATIONS == 0 ==>
              Drain(s).retained == SortRows(s.flight.value.answer.result.value)
  {
    hide SortRows, Unconfirmed;
    SameResidue(s.flight.value.epoch, s.epoch);
  }

  lemma SameResidue(a: nat, b: nat)
    requires a <= b
    ensures a % GENERATIONS == b % GENERATIONS <==> (b - a) % GENERATIONS == 0
  {
  }

  function Changed(s: State, n: nat): State {
    if n == 0 then s else SetTargets(Changed(s, n - 1), s.targets)
  }

  lemma {:induction false} ChangedBy(s: State, n: nat)
    ensures Changed(s, n).epoch == s.epoch + n && Changed(s, n).flight == s.flight && Changed(s, n).targets == s.targets
    ensures n > 0 ==> Changed(s, n).selected.None?
  {
    if n > 0 {
      ChangedBy(s, n - 1);
    }
  }

  /** The bound on the run is needed: after 2^64 changes of destination while one
      request is in flight, or any multiple of that, its rows are shown with no
      destination selected. */
  lemma WrapAdmitsStale(s: State, rows: seq<Row>, target: Target, items: seq<Item>, n: nat)
    requires n > 0 && n % GENERATIONS == 0
    requires s.flight == Some(Flight(s.epoch, target, items, Answered(Ok(rows))))
    ensures Drain(Changed(s, n)).retained == SortRows(rows) && Destination(Drain(Changed(s, n))).None?
  {
    hide SortRows, Changed;
    ChangedBy(s, n);
    var u := Changed(s, n);
    StaleExactly(u);
    DrainEpoch(u);
  }

  // ----- what leaves the retry list -----

  /** The answer in flight confirms the item: it is current, the selected
      destination is the one the item was sent to, and the listing has an equal item
      by that destination's writer. */
  ghost predicate ConfirmedNow(s: State, x: Item) {
    && s.flight.Some? && s.flight.value.answer.Answered? && s.flight.value.answer.result.Ok?
    && s.flight.value.epoch % GENERATIONS == s.epoch % GENERATIONS
    && s.retryTarget.Some? && Destination(s) == s.retryTarget
    && Confirmed(x, s.flight.value.answer.result.value, s.retryTarget.value.writer)
  }

  lemma SortedConfirms(x: Item, rows: seq<Row>, writer: nat)
    ensures Confirmed(x, SortRows(rows), writer) <==> Confirmed(x, rows, writer)
  {
    var sorted := SortRows(rows);
    if Confirmed(x, sorted, writer) {
      var i :| 0 <= i < |sorted| && sorted[i].author == writer && sorted[i].item == x;
      assert sorted[i] in multiset(sorted);
      assert sorted[i] in rows;
    }
    if Confirmed(x, rows, writer) {
      var i :| 0 <= i < |rows| && rows[i].author == writer && rows[i].item == x;
      assert rows[i] in multiset(rows);
      assert rows[i] in sorted;
    }
  }

  lemma {:induction false} UnconfirmedExactly(items: seq<Item>, rows: seq<Row>, writer: nat, x: Item)
    ensures x in Unconfirmed(items, rows, writer) <==> x in items && !Confirmed(x, rows, writer)
  {
    hide Confirmed;
    if items != [] {
      UnconfirmedExactly(items[1..], rows, writer, x);
      assert items == [items[0]] + items[1..];
    }
  }

  /** `left` is what stands at these places of the list, in order. */
  ghost predicate AtPlaces(items: seq<Item>, left: seq<Item>, places: seq<nat>) {
    && |places| == |left|
    && (forall i, j :: 0 <= i < j < |places| ==> places[i] < places[j])
    && forall i :: 0 <= i < |places| ==> places[i] < |items| && items[places[i]] == left[i]
  }

  function Shifted(places: seq<nat>): (r: seq<nat>)
    ensures |r| == |places| && forall i :: 0 <= i < |r| ==> r[i] == places[i] + 1
  {
    seq(|places|, i requires 0 <= i < |places| => places[i] + 1)
  }

  lemma PlacesShift(items: seq<Item>, left: seq<Item>, places: seq<nat>)
    requires items != [] && AtPlaces(items[1..], left, places)
    ensures AtPlaces(items, left, Shifted(places))
    ensures AtPlaces(items, [items[0]] + left, [0] + Shifted(places))
  {
  }

  /** What is left waits in the order it had. */
  lemma {:induction false} UnconfirmedInOrder(items: seq<Item>, rows: seq<Row>, writer: nat) returns (places: seq<nat>)
    ensures AtPlaces(items, Unconfirmed(items, rows, writer), places)
  {
    hide Confirmed;
    if items == [] {
      places := [];
    } else {
      var rest := UnconfirmedInOrder(items[1..], rows, writer);
      hide AtPlaces;
      PlacesShift(items, Unconfirmed(items[1..], rows, writer), rest);
      places := if Confirmed(items[0], rows, writer) then Shifted(rest) else [0] + Shifted(rest);
      assert [] + Unconfirmed(items[1..], rows, writer) == Unconfirmed(items[1..], rows, writer);
    }
  }

  /** Draining takes exactly the confirmed items off the retry list. */
  lemma DrainTakesConfirmed(s: State, x: Item)
    requires x in s.retryItems
    ensures x !in Drain(s).retryItems <==> ConfirmedNow(s, x)
  {
    hide SortRows, Confirmed, Authentic;
    if s.flight.Some? && s.flight.value.answer.Answered? && s.flight.value.answer.result.Ok?
       && s.retryTarget.Some?
    {
      var rows, writer := s.flight.value.answer.result.value, s.retryTarget.value.writer;
      SortedConfirms(x, rows, writer);
      UnconfirmedExactly(s.retryItems, SortRows(rows), writer, x);
    }
  }

  /** The step asks the destination of the retry list again for the same identities. */
  ghost predicate AsksSameAgain(s: State, a: Action) {
    && a.Ask? && s.flight.None? && Destination(s).Some? && Destination(s) == s.retryTarget
    && !a.legacy && a.items != [] && Ids(a.items) == Ids(s.retryItems)
  }

  /** An item leaves the retry list in a step exactly when that step drains its
      confirmation, or sends a request of the same identities to the same
      destination without that very item. */
  lemma LeavesRetryExactly(s: State, a: Action, t: State, x: Item)
    requires RetryOk(s) && Next(s, a, t) && x in s.retryItems
    ensures x !in t.retryItems <==>
            (a.Look? && ConfirmedNow(s, x)) || (AsksSameAgain(s, a) && x !in a.items)
  {
    hide Drain, SortRows, Confirmed, Authentic, Ids, ConfirmedNow;
    match a {
      case ChangeTargets(list) =>
      case Choose(index, spawned) =>
      case Ask(items, legacy, spawned) =>
      case AskAgain(spawned) =>
      case Answer(answer) =>
      case Look => DrainTakesConfirmed(s, x);
    }
  }

  /** Whatever is asked, the identities waiting stay the same until a confirmation
      is drained. */
  lemma IdentitiesWait(s: State, a: Action, t: State)
    requires RetryOk(s) && Next(s, a, t) && !a.Look? && s.retryItems != []
    ensures Ids(t.retryItems) == Ids(s.retryItems) && t.retryTarget == s.retryTarget
  {
    hide SortRows, Confirmed, Authentic, Ids;
  }

  lemma RetryOkStep(s: State, a: Action, t: State)
    requires RetryOk(s) && Next(s, a, t)
    ensures RetryOk(t)
  {
    hide SortRows, Confirmed, Unconfirmed, Authentic, Ids;
  }

  lemma {:induction false} RunRetryOk(ss: seq<State>, actions: seq<Action>, n: nat)
    requires Run(ss, actions) && n < |ss|
    ensures RetryOk(ss[n])
  {
    hide Next;
    if n > 0 {
      RunRetryOk(ss, actions, n - 1);
      assert Next(ss[n - 1], actions[n - 1], ss[n - 1 + 1]);
      RetryOkStep(ss[n - 1], actions[n - 1], ss[n]);
    }
  }

  /** The items of a request are the waiting ones themselves, or none has the identity
      of a waiting one. */
  ghost predicate KeepsIdentities(s: State, a: Action) {
    a.Ask? ==> a.items == s.retryItems || forall x, y :: x in a.items && y in s.retryItems ==> x.id != y.id
  }

  /** Such a request never puts another item in the place of a waiting one. */
  lemma SameAgainKeeps(s: State, a: Action, x: Item)
    requires KeepsIdentities(s, a) && AsksSameAgain(s, a) && x in s.retryItems
    ensures x in a.items
  {
    var ids := Ids(a.items);
    assert ids == Ids(s.retryItems) && ids[0] == a.items[0].id && ids[0] == s.retryItems[0].id;
    assert a.items[0] in a.items && s.retryItems[0] in s.retryItems;
  }

  /** While an item waits, it waits for the same destination. */
  lemma WaitsForSame(s: State, a: Action, t: State, x: Item)
    requires RetryOk(s) && Next(s, a, t) && x in s.retryItems && x in t.retryItems
    ensures t.retryTarget == s.retryTarget
  {
    hide SortRows, Confirmed, Unconfirmed, Authentic, Ids;
    if !a.Look? {
      IdentitiesWait(s, a, t);
    }
  }

  /** An answer taken for current in a short run was asked of the selected destination. */
  lemma ConfirmedByOwn(s: State, x: Item)
    requires Inv(s) && ConfirmedNow(s, x) && s.epoch < GENERATIONS
    ensures s.flight.value.target == s.retryTarget.value
  {
    hide Authentic, Confirmed;
    NoWrap(s.flight.value.epoch, s.epoch);
  }

  /** In any run whose requests keep identities apart, an item that has left the retry
      list was confirmed: in a step `k` in between the answer drained lists an equal item
      by the writer of the destination it had waited for all along, and in a run of fewer
      than 2^64 steps that answer is that destination's own. */
  lemma {:induction false} OnlyConfirmedLeaves(ss: seq<State>, actions: seq<Action>, i: nat, j: nat, x: Item)
    returns (k: nat)
    requires Run(ss, actions) && i <= j < |ss| && x in ss[i].retryItems && x !in ss[j].retryItems
    requires forall n :: i <= n < j ==> KeepsIdentities(ss[n], actions[n])
    ensures i <= k < j && actions[k].Look? && ConfirmedNow(ss[k], x)
    ensures ss[k].retryTarget == ss[i].retryTarget
    ensures |actions| < GENERATIONS ==> ss[k].flight.value.target == ss[i].retryTarget.value
    decreases j - i
  {
    hide Next, ConfirmedNow, KeepsIdentities, AsksSameAgain, RetryOk, Inv;
    RunRetryOk(ss, actions, i);
    assert Next(ss[i], actions[i], ss[i + 1]);
    if x in ss[i + 1].retryItems {
      WaitsForSame(ss[i], actions[i], ss[i + 1], x);
      k := OnlyConfirmedLeaves(ss, actions, i + 1, j, x);
    } else {
      k := i;
      LeavesRetryExactly(ss[i], actions[i], ss[i + 1], x);
      assert KeepsIdentities(ss[i], actions[i]);
      if AsksSameAgain(ss[i], actions[i]) {
        SameAgainKeeps(ss[i], actions[i], x);
      }
      if |actions| < GENERATIONS {
        RunInv(ss, actions, i);
        ConfirmedByOwn(ss[i], x);
      }
    }
  }

  lemma RunLength(ss: seq<State>, actions: seq<Action>)
    requires Run(ss, actions)
    ensures |ss| == |actions| + 1
  {
  }

  lemma RunGrows(ss: seq<State>, actions: seq<Action>, a: Action, t: State)
    requires Run(ss, actions) && Next(ss[|ss| - 1], a, t)
    ensures Run(ss + [t], actions + [a])
  {
    hide Next;
    var more, all := ss + [t], actions + [a];
    forall i | 0 <= i < |all| ensures Next(more[i], all[i], more[i + 1]) {
      if i < |actions| {
        assert Next(ss[i], actions[i], ss[i + 1]);
      }
    }
  }

  /** The state in which the destination `d` is selected and the items wait for it. */
  function Waiting(d: Target, items: seq<Item>): State {
    State([d], Some(0), [], 2, None, items, if items == [] then None else Some(d))
  }

  /** Asking, an answer, and the drain of it. */
  lemma Exchange(ss: seq<State>, actions: seq<Action>, a: Action, u: State, answer: Answer)
    returns (ss1: seq<State>, actions1: seq<Action>)
    requires Run(ss, actions) && Next(ss[|ss| - 1], a, u) && AnswerFits(u, answer)
    ensures Run(ss1, actions1)
    ensures ss1[|ss1| - 1] == Drain(u.(flight := Some(u.flight.value.(answer := answer))))
  {
    hide Run, Drain, Request;
    RunGrows(ss, actions, a, u);
    ss1, actions1 := ss + [u], actions + [a];
    var answered := u.(flight := Some(u.flight.value.(answer := answer)));
    RunGrows(ss1, actions1, Answer(answer), answered);
    ss1, actions1 := ss1 + [answered], actions1 + [Answer(answer)];
    RunGrows(ss1, actions1, Look, Drain(answered));
    ss1, actions1 := ss1 + [Drain(answered)], actions1 + [Look];
  }

  /** Asking for an item whose answer is an error leaves it waiting. */
  lemma WaitingRun(d: Target, x: Item) returns (ss: seq<State>, actions: seq<Action>)
    ensures Run(ss, actions) && ss[|ss| - 1] == Waiting(d, [x])
  {
    hide Run;
    var first := State([], None, [], 0, None, [], None);
    var known := SetTargets(first, [d]);
    ss, actions := [first], [];
    assert Run(ss, actions) by { OneState(first); }
    RunGrows(ss, actions, ChangeTargets([d]), known);
    ss, actions := ss + [known], actions + [ChangeTargets([d])];
    var chosen := Select(known, 0, true);
    assert AnswerFits(chosen, Answered(Ok([])));
    ss, actions := Exchange(ss, actions, Choose(0, true), chosen, Answered(Ok([])));
    RunLength(ss, actions);
    assert ss[|ss| - 1] == Waiting(d, []);
    var asked := Request(Waiting(d, []), [x], false, true);
    ss, actions := Exchange(ss, actions, Ask([x], false, true), asked, Answered(Err("offline")));
  }

  lemma OneState(s: State)
    requires s == State([], None, [], 0, None, [], None)
    ensures Run([s], [])
  {
  }

  /** The comparison is by identity only: a run in which a request to the same
      destination puts another item of that identity in the place of an unconfirmed
      one. */
  lemma SameIdReplaces(d: Target, x: Item, y: Item) returns (ss: seq<State>, actions: seq<Action>, n: nat)
    requires x.id == y.id
    ensures Run(ss, actions) && n + 1 == |actions| && actions[n] == Ask([y], false, true)
    ensures ss[n].retryItems == [x] && ss[n + 1].retryItems == [y] && ss[n + 1].retryTarget == ss[n].retryTarget
  {
    hide Run;
    ss, actions := WaitingRun(d, x);
    n := |actions|;
    RunLength(ss, actions);
    var t := Request(Waiting(d, [x]), [y], false, true);
    assert Ids([x]) == Ids([y]);
    RunGrows(ss, actions, Ask([y], false, true), t);
    ss, actions := ss + [t], actions + [Ask([y], false, true)];
  }
}

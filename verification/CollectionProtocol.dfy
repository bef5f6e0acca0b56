/** Any number of collection handles stepping through lock, read, compare and
    replace on one file. */
module CollectionProtocol {
  import opened Wrappers
  import opened Collection

  datatype Phase =
    | Idle
    | Locked(change: Commit)
    | Compared(change: Commit)

  datatype Handle = Handle(items: seq<Item>, seen: Content, phase: Phase)

  /** The file, who holds its lock, the handles, and every commit so far in order. */
  datatype World = World(file: Content, lock: Option<nat>, handles: map<nat, Handle>, log: seq<Commit>)

  datatype Action =
    | Attach(h: nat)
    | Begin(h: nat, change: Commit)
    | Compare(h: nat)
    | Replace(h: nat)
    | Abandon(h: nat)
    | Vanish(h: nat)

  function ItemsOf(content: Content): seq<Item> {
    if content.Saved? then content.items else []
  }

  /** A change a handle starts on: a new well-formed item, or the removal of one
      it has; the outcome is within the limits. */
  ghost predicate Allowed(items: seq<Item>, change: Commit, rules: Rules) {
    && (change.Added? ==> rules.valid(change.item) && !HasId(items, change.item.id) && |items| < MAX_ITEMS)
    && (change.Removed? ==> HasId(items, change.id))
    && rules.size(Apply(items, change)) <= MAX_STORE_BYTES
  }

  /** A handle opens on the file as it is, locked or not. */
  ghost predicate StepAttach(w: World, t: World, h: nat, rules: Rules) {
    && h !in w.handles
    && (w.file == Absent || (w.file.Saved? && Acceptable(w.file.items, rules)))
    && t == w.(handles := w.handles[h := Handle(ItemsOf(w.file), w.file, Idle)])
  }

  ghost predicate StepBegin(w: World, t: World, h: nat, change: Commit, rules: Rules) {
    && h in w.handles && w.handles[h].phase.Idle? && w.lock.None?
    && Allowed(w.handles[h].items, change, rules)
    && t == w.(lock := Some(h), handles := w.handles[h := w.handles[h].(phase := Locked(change))])
  }

  /** Under the lock the file still has the content the handle last saw. */
  ghost predicate StepCompare(w: World, t: World, h: nat) {
    && h in w.handles && w.handles[h].phase.Locked?
    && w.file == w.handles[h].seen
    && t == w.(handles := w.handles[h := w.handles[h].(phase := Compared(w.handles[h].phase.change))])
  }

  /** The new content takes the file's place. Whether the directory is then known to
      be durable makes no difference to the file or the handle. */
  ghost predicate StepReplace(w: World, t: World, h: nat) {
    && h in w.handles && w.handles[h].phase.Compared?
    && var change := w.handles[h].phase.change;
       var candidate := Apply(w.handles[h].items, change);
       t == World(Saved(candidate), None, w.handles[h := Handle(candidate, Saved(candidate), Idle)], w.log + [change])
  }

  /** Any refusal or failure before the replacement. */
  ghost predicate StepAbandon(w: World, t: World, h: nat) {
    && h in w.handles && !w.handles[h].phase.Idle?
    && t == w.(lock := None, handles := w.handles[h := w.handles[h].(phase := Idle)])
  }

  /** A handle is dropped or its process dies; the lock goes with it. */
  ghost predicate StepVanish(w: World, t: World, h: nat) {
    && h in w.handles
    && t == w.(lock := if w.lock == Some(h) then None else w.lock, handles := w.handles - {h})
  }

  ghost predicate Next(w: World, a: Action, t: World, rules: Rules) {
    match a
    case Attach(h) => StepAttach(w, t, h, rules)
    case Begin(h, change) => StepBegin(w, t, h, change, rules)
    case Compare(h) => StepCompare(w, t, h)
    case Replace(h) => StepReplace(w, t, h)
    case Abandon(h) => StepAbandon(w, t, h)
    case Vanish(h) => StepVanish(w, t, h)
  }

  /** A collect or remove of the object, undisturbed, is three steps of its handle,
      with the object's own effect on the file and the handle. */
  lemma CommitIsThreeSteps(
    w: World, h: nat, change: Commit, rules: Rules) returns (begun: World, compared: World, done: World)
    requires h in w.handles && w.handles[h].phase.Idle? && w.lock.None?
    requires w.file == w.handles[h].seen && Allowed(w.handles[h].items, change, rules)
    ensures StepBegin(w, begun, h, change, rules) && StepCompare(begun, compared, h) && StepReplace(compared, done, h)
    ensures
      var items := Apply(w.handles[h].items, change);
      && done.file == Saved(items) && done.lock.None? && done.log == w.log + [change]
      && done.handles == w.handles[h := Handle(items, Saved(items), Idle)]
  {
    hide Apply, Allowed;
    var x := w.handles[h];
    var items := Apply(x.items, change);
    begun := w.(lock := Some(h), handles := w.handles[h := x.(phase := Locked(change))]);
    compared := begun.(handles := begun.handles[h := x.(phase := Compared(change))]);
    done := World(Saved(items), None, compared.handles[h := Handle(items, Saved(items), Idle)], w.log + [change]);
  }

  /** Opening a fresh handle on any file that the object opens is a step,
      and dropping one is a step that lets go of its lock. */
  lemma OpenAndDropAreSteps(w: World, h: nat, rules: Rules) returns (attached: World, dropped: World)
    requires h !in w.handles && (w.file == Absent || (w.file.Saved? && Acceptable(w.file.items, rules)))
    requires w.lock != Some(h)
    ensures StepAttach(w, attached, h, rules) && StepVanish(attached, dropped, h) && dropped == w
    ensures attached.file == w.file && attached.lock == w.lock && attached.log == w.log
    ensures attached.handles == w.handles[h := Handle(if w.file.Saved? then w.file.items else [], w.file, Idle)]
  {
    attached := w.(handles := w.handles[h := Handle(ItemsOf(w.file), w.file, Idle)]);
    dropped := attached.(handles := attached.handles - {h});
  }

  /** The items after commits in order. */
  function Fold(items: seq<Item>, log: seq<Commit>): seq<Item> {
    if log == [] then items else Apply(Fold(items, log[..|log| - 1]), log[|log| - 1])
  }

  // ----- the invariant -----

  /** A handle's items are those of the content it saw. */
  ghost predicate HandleOk(x: Handle, rules: Rules) {
    && ((x.seen == Absent && x.items == []) || x.seen == Saved(x.items))
    && Acceptable(x.items, rules)
    && (!x.phase.Idle? ==> Allowed(x.items, x.phase.change, rules))
  }

  ghost predicate HandlesOk(w: World, rules: Rules) {
    forall h :: h in w.handles ==> HandleOk(w.handles[h], rules)
  }

  /** Only the holder of the lock is past its beginning, and one that has compared
      still sees the content it compared with. */
  ghost predicate LockOk(w: World) {
    forall h :: h in w.handles && !w.handles[h].phase.Idle? ==>
      w.lock == Some(h) && (w.handles[h].phase.Compared? ==> w.file == w.handles[h].seen)
  }

  /** The file is the first content with every commit applied in order. */
  ghost predicate FileIsLog(w: World, first: Content) {
    && (w.log == [] ==> w.file == first)
    && (w.log != [] ==> w.file == Saved(Fold(ItemsOf(first), w.log)))
  }

  ghost predicate Inv(w: World, first: Content, rules: Rules) {
    HandlesOk(w, rules) && LockOk(w) && FileIsLog(w, first)
  }

  ghost predicate Init(w: World, first: Content) {
    w == World(first, None, map[], [])
  }

  lemma InitInv(w: World, first: Content, rules: Rules)
    requires Init(w, first)
    ensures Inv(w, first, rules)
  {
  }

  lemma AllowedAcceptable(items: seq<Item>, change: Commit, rules: Rules)
    requires Acceptable(items, rules) && Allowed(items, change, rules)
    ensures Acceptable(Apply(items, change), rules)
  {
    if change.Added? {
      var more := items + [change.item];
      assert forall i :: 0 <= i < |items| ==> items[i].id != change.item.id;
    } else {
      WithoutAcceptable(items, change.id, rules);
    }
  }

  lemma FoldMore(items: seq<Item>, log: seq<Commit>, c: Commit)
    ensures Fold(items, log + [c]) == Apply(Fold(items, log), c)
  {
    assert (log + [c])[..|log|] == log;
  }

  lemma ReplaceInv(w: World, t: World, h: nat, first: Content, rules: Rules)
    requires Inv(w, first, rules) && StepReplace(w, t, h)
    ensures Inv(t, first, rules)
  {
    hide Acceptable, Allowed, Apply, Fold;
    var x := w.handles[h];
    assert HandleOk(x, rules);
    AllowedAcceptable(x.items, x.phase.change, rules);
    FoldMore(ItemsOf(first), w.log, x.phase.change);
    assert ItemsOf(w.file) == x.items;
    assert Fold(ItemsOf(first), []) == ItemsOf(first) by { FoldNone(ItemsOf(first)); }
  }

  lemma FoldNone(items: seq<Item>)
    ensures Fold(items, []) == items
  {
  }

  lemma OtherInv(w: World, a: Action, t: World, first: Content, rules: Rules)
    requires Inv(w, first, rules) && Next(w, a, t, rules) && !a.Replace?
    ensures Inv(t, first, rules)
    ensures t.file == w.file && t.log == w.log
  {
    hide Acceptable, Allowed, Apply, Fold;
    if a.Attach? && w.file == Absent {
      NothingAcceptable(rules);
    }
  }

  lemma NothingAcceptable(rules: Rules)
    ensures Acceptable([], rules)
  {
  }

  lemma StepInv(w: World, a: Action, t: World, first: Content, rules: Rules)
    requires Inv(w, first, rules) && Next(w, a, t, rules)
    ensures Inv(t, first, rules)
    ensures w.log <= t.log
  {
    hide Inv;
    if a.Replace? {
      ReplaceInv(w, t, a.h, first, rules);
    } else {
      OtherInv(w, a, t, first, rules);
    }
  }

  // ----- whole runs -----

  ghost predicate Run(ws: seq<World>, actions: seq<Action>, first: Content, rules: Rules) {
    && |ws| == |actions| + 1
    && Init(ws[0], first)
    && forall i :: 0 <= i < |actions| ==> Next(ws[i], actions[i], ws[i + 1], rules)
  }

  lemma {:induction false} RunInv(ws: seq<World>, actions: seq<Action>, first: Content, rules: Rules, n: nat)
    requires Run(ws, actions, first, rules) && n < |ws|
    ensures Inv(ws[n], first, rules)
  {
    hide Inv, Next, Init;
    if n == 0 {
      InitInv(ws[0], first, rules);
    } else {
      RunInv(ws, actions, first, rules, n - 1);
      assert Next(ws[n - 1], actions[n - 1], ws[n - 1 + 1], rules);
      StepInv(ws[n - 1], actions[n - 1], ws[n], first, rules);
    }
  }

  lemma {:induction false} LogGrows(ws: seq<World>, actions: seq<Action>, first: Content, rules: Rules, i: nat, j: nat)
    requires Run(ws, actions, first, rules) && i <= j < |ws|
    ensures ws[i].log <= ws[j].log
  {
    hide Inv, Next, Init;
    if i < j {
      LogGrows(ws, actions, first, rules, i, j - 1);
      RunInv(ws, actions, first, rules, j - 1);
      assert Next(ws[j - 1], actions[j - 1], ws[j - 1 + 1], rules);
      StepInv(ws[j - 1], actions[j - 1], ws[j], first, rules);
    }
  }

  /** No update is lost: in every reachable state the file holds the first content
      with every successful collect and remove applied in commit order. */
  lemma NoUpdateIsLost(ws: seq<World>, actions: seq<Action>, first: Content, rules: Rules, n: nat)
    requires Run(ws, actions, first, rules) && n < |ws|
    ensures ItemsOf(ws[n].file) == Fold(ItemsOf(first), ws[n].log)
  {
    hide Fold, HandlesOk, LockOk, Next, Init;
    RunInv(ws, actions, first, rules, n);
    FoldNone(ItemsOf(first));
  }

  /** Commits are legal in the order they happened: each adds a new identity or
      removes one the file then has. */
  ghost predicate Legal(items: seq<Item>, log: seq<Commit>, rules: Rules) {
    forall k :: 0 <= k < |log| ==> Allowed(Fold(items, log[..k]), log[k], rules)
  }

  lemma LegalMore(items: seq<Item>, log: seq<Commit>, c: Commit, rules: Rules)
    requires Legal(items, log, rules) && Allowed(Fold(items, log), c, rules)
    ensures Legal(items, log + [c], rules)
  {
    hide Allowed, Fold;
    var more := log + [c];
    forall k | 0 <= k < |more| ensures Allowed(Fold(items, more[..k]), more[k], rules) {
      assert more[..k] == log[..k];
      if k == |log| {
        assert log[..k] == log;
      }
    }
  }

  lemma {:induction false} LogIsLegal(ws: seq<World>, actions: seq<Action>, first: Content, rules: Rules, n: nat)
    requires Run(ws, actions, first, rules) && n < |ws|
    ensures Legal(ItemsOf(first), ws[n].log, rules)
  {
    hide Inv, Next, Fold, Allowed, Legal;
    if n == 0 {
      NothingIsLegal(ItemsOf(first), rules);
    } else {
      LogIsLegal(ws, actions, first, rules, n - 1);
      RunInv(ws, actions, first, rules, n - 1);
      NoUpdateIsLost(ws, actions, first, rules, n - 1);
      var w, a, t := ws[n - 1], actions[n - 1], ws[n];
      assert Next(w, a, ws[n - 1 + 1], rules);
      if a.Replace? {
        ReplaceIsAllowed(w, t, a.h, first, rules);
        LegalMore(ItemsOf(first), w.log, t.log[|w.log|], rules);
      } else {
        OtherInv(w, a, t, first, rules);
      }
    }
  }

  /** What each commit of a run did to the file as it then was: a collect put a valid
      item with a new identity at the end, a remove took an identity the file had, and
      either kept the file within its size. */
  lemma EachCommit(ws: seq<World>, actions: seq<Action>, first: Content, rules: Rules, n: nat, k: nat)
    requires Run(ws, actions, first, rules) && n < |ws| && k < |ws[n].log|
    ensures
      var log := ws[n].log;
      var before, after := Fold(ItemsOf(first), log[..k]), Fold(ItemsOf(first), log[..k + 1]);
      && rules.size(after) <= 16 * 1024 * 1024
      && (log[k].Added? ==>
            && rules.valid(log[k].item) && |before| < 10_000 && after == before + [log[k].item]
            && forall x :: x in before ==> x.id != log[k].item.id)
      && (log[k].Removed? ==>
            && (exists x :: x in before && x.id == log[k].id)
            && forall x :: x in after <==> x in before && x.id != log[k].id)
  {
    hide Run;
    LogIsLegal(ws, actions, first, rules, n);
    var log := ws[n].log;
    assert log[..k + 1][..k] == log[..k];
    var before := Fold(ItemsOf(first), log[..k]);
    assert Allowed(before, log[k], rules);
    hide Fold;
    assert Fold(ItemsOf(first), log[..k + 1]) == Apply(before, log[k]);
    HasIdExactly(before);
  }

  lemma HasIdExactly(items: seq<Item>)
    ensures forall id :: HasId(items, id) <==> exists x :: x in items && x.id == id
  {
    forall id ensures HasId(items, id) <==> exists x :: x in items && x.id == id {
      if HasId(items, id) {
        var i :| 0 <= i < |items| && items[i].id == id;
        assert items[i] in items;
      }
    }
  }

  lemma NothingIsLegal(items: seq<Item>, rules: Rules)
    ensures Legal(items, [], rules)
  {
  }

  lemma ReplaceIsAllowed(w: World, t: World, h: nat, first: Content, rules: Rules)
    requires Inv(w, first, rules) && Next(w, Replace(h), t, rules)
    ensures |t.log| == |w.log| + 1 && t.log == w.log + [t.log[|w.log|]]
    ensures Allowed(ItemsOf(w.file), t.log[|w.log|], rules)
  {
    hide Fold, Acceptable, Allowed, Apply;
    assert HandleOk(w.handles[h], rules);
  }

  lemma {:induction false} FoldAcceptable(items: seq<Item>, log: seq<Commit>, rules: Rules)
    requires Acceptable(items, rules) && Legal(items, log, rules)
    ensures Acceptable(Fold(items, log), rules)
  {
    hide Acceptable, Allowed;
    if log != [] {
      var less := log[..|log| - 1];
      assert Legal(items, less, rules) by {
        forall k | 0 <= k < |less| ensures Allowed(Fold(items, less[..k]), less[k], rules) {
          assert less[..k] == log[..k];
        }
      }
      FoldAcceptable(items, less, rules);
      AllowedAcceptable(Fold(items, less), log[|log| - 1], rules);
    }
  }

  /** Identities stay unique, and the file within its limits, in every reachable
      state. */
  lemma FileStaysAcceptable(ws: seq<World>, actions: seq<Action>, first: Content, rules: Rules, n: nat)
    requires Run(ws, actions, first, rules) && n < |ws| && Acceptable(ItemsOf(first), rules)
    ensures Acceptable(ItemsOf(ws[n].file), rules)
  {
    hide Run, Acceptable, Legal, Fold;
    NoUpdateIsLost(ws, actions, first, rules, n);
    LogIsLegal(ws, actions, first, rules, n);
    FoldAcceptable(ItemsOf(first), ws[n].log, rules);
  }

  /** An item that was in the list and no longer is has been removed since. */
  lemma {:induction false} GoneMeansRemoved(items: seq<Item>, log: seq<Commit>, from: nat, x: Item)
    requires from <= |log| && x in Fold(items, log[..from]) && x !in Fold(items, log)
    ensures exists k :: from <= k < |log| && log[k] == Removed(x.id)
    decreases |log|
  {
    assert log[..|log|] == log;
    if from < |log| {
      var less := log[..|log| - 1];
      assert less[..from] == log[..from];
      if x !in Fold(items, less) {
        GoneMeansRemoved(items, less, from, x);
        var k :| from <= k < |less| && less[k] == Removed(x.id);
        assert log[k] == Removed(x.id);
      } else {
        assert log[|log| - 1] == Removed(x.id);
      }
    }
  }

  /** A collected item disappears only through a successful remove of its identity,
      committed in between. */
  lemma OnlyRemoveRemoves(ws: seq<World>, actions: seq<Action>, first: Content, rules: Rules, i: nat, j: nat, x: Item)
    requires Run(ws, actions, first, rules) && i <= j < |ws|
    requires x in ItemsOf(ws[i].file) && x !in ItemsOf(ws[j].file)
    ensures exists k :: |ws[i].log| <= k < |ws[j].log| && ws[j].log[k] == Removed(x.id)
  {
    hide Run, Fold;
    NoUpdateIsLost(ws, actions, first, rules, i);
    NoUpdateIsLost(ws, actions, first, rules, j);
    LogGrows(ws, actions, first, rules, i, j);
    assert ws[j].log[..|ws[i].log|] == ws[i].log;
    GoneMeansRemoved(ItemsOf(first), ws[j].log, |ws[i].log|, x);
  }
}

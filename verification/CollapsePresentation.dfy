/** From a tile tree, the roles of its tiles and the frame to what is presented. */
module CollapsePresentation {
  import opened Wrappers
  import opened CollapseRow
  import opened Collapse

  datatype Role = Document | NavigatorTile | Site | OtherTile

  /** What the application says of each tile, and which rails were open before. */
  datatype Facts = Facts(role: nat -> Option<Role>, measure: nat -> real, previous: seq<StackPresentation>)

  datatype Rail = Rail(open: bool, drawer: bool)

  datatype StackPresentation = StackPresentation(anchor: nat, rail: Option<Rail>)

  datatype Presentation = Presentation(stacks: seq<StackPresentation>, splits: seq<SplitPresentation>)

  function KindOf(tabs: seq<nat>, f: Facts): Kind {
    if exists i :: 0 <= i < |tabs| && f.role(tabs[i]) == Some(Document) then Source
    else if exists i :: 0 <= i < |tabs| && f.role(tabs[i]) in {Some(NavigatorTile), Some(Site)} then Navigator
    else Reading
  }

  /** The largest measure that any tab asks for. */
  function MeasureOf(tabs: seq<nat>, f: Facts): (m: real)
    ensures m >= 0.0 && forall i :: 0 <= i < |tabs| ==> m >= f.measure(tabs[i])
    ensures m == 0.0 || exists i :: 0 <= i < |tabs| && m == f.measure(tabs[i])
  {
    if tabs == [] then 0.0 else Max(f.measure(tabs[0]), MeasureOf(tabs[1..], f))
  }

  function WasOpen(previous: seq<StackPresentation>, anchor: nat): bool {
    if previous == [] then false
    else if previous[0].anchor == anchor then previous[0].rail.Some? && previous[0].rail.value.open
    else WasOpen(previous[1..], anchor)
  }

  function FractionSum(children: seq<Branch>): real {
    if children == [] then 0.0 else Max(children[0].fraction, 0.0) + FractionSum(children[1..])
  }

  /** The width a branch has by the tree's own fractions. */
  function Nominal(axis: Axis, children: seq<Branch>, width: real, fraction: real): real {
    if axis == Row
    then Available(width, |children|) * Max(fraction, 0.0) / Max(FractionSum(children), EPSILON)
    else width
  }

  function Nominals(axis: Axis, children: seq<Branch>, width: real): (ws: seq<real>)
    ensures |ws| == |children|
    ensures forall i :: 0 <= i < |children| ==> ws[i] == Nominal(axis, children, width, children[i].fraction)
  {
    seq(|children|, i requires 0 <= i < |children| => Nominal(axis, children, width, children[i].fraction))
  }

  function LeafFor(tabs: seq<nat>, width: real, f: Facts): Leaf
    requires tabs != []
  {
    Leaf(tabs[0], KindOf(tabs, f), MeasureOf(tabs, f), width, false, WasOpen(f.previous, tabs[0]))
  }

  function Leaves(tree: Tree, width: real, f: Facts): seq<Leaf>
    decreases tree, 1
  {
    match tree
    case Stack(tabs) => if tabs == [] then [] else [LeafFor(tabs, width, f)]
    case Split(axis, children) => LeavesIn(children, Nominals(axis, children, width), f)
  }

  function LeavesIn(children: seq<Branch>, widths: seq<real>, f: Facts): seq<Leaf>
    requires |widths| == |children|
    decreases children, 0
  {
    if children == [] then []
    else
      assert children[0].tree < children[0];
      Leaves(children[0].tree, widths[0], f) + LeavesIn(children[1..], widths[1..], f)
  }

  /** Pushes one leaf for every stack, in tree order. */
  method Collect(tree: Tree, width: real, f: Facts, before: seq<Leaf>) returns (leaves: seq<Leaf>)
    ensures leaves == before + Leaves(tree, width, f)
    decreases tree
  {
    hide LeafFor, Nominal;
    leaves := before;
    match tree {
      case Stack(tabs) =>
        if tabs != [] {
          leaves := leaves + [LeafFor(tabs, width, f)];
        }
      case Split(axis, children) =>
        var widths := Nominals(axis, children, width);
        for i := 0 to |children|
          invariant leaves + LeavesIn(children[i..], widths[i..], f) == before + LeavesIn(children, widths, f)
        {
          assert children[i..][1..] == children[i + 1..] && widths[i..][1..] == widths[i + 1..];
          assert children[i..][0] == children[i] && widths[i..][0] == widths[i];
          leaves := Collect(children[i].tree, widths[i], f, leaves);
        }
    }
  }

  // ----- every stack finds its own leaf -----

  ghost predicate Distinct(tiles: seq<nat>) {
    forall i, j :: 0 <= i < j < |tiles| ==> tiles[i] != tiles[j]
  }

  ghost predicate Disjoint(a: seq<nat>, b: seq<nat>) {
    forall i, j :: 0 <= i < |a| && 0 <= j < |b| ==> a[i] != b[j]
  }

  /** No leaf of the list is anchored at one of the tiles. */
  ghost predicate Foreign(leaves: seq<Leaf>, tiles: seq<nat>) {
    forall l :: l in leaves ==> l.anchor !in tiles
  }

  lemma DistinctSplits(a: seq<nat>, b: seq<nat>)
    requires Distinct(a + b)
    ensures Distinct(a) && Distinct(b) && Disjoint(a, b)
  {
    assert forall i :: 0 <= i < |a| ==> (a + b)[i] == a[i];
    assert forall i :: 0 <= i < |b| ==> (a + b)[|a| + i] == b[i];
  }

  lemma {:induction false} AnchorsAreTiles(tree: Tree, width: real, f: Facts)
    ensures forall l :: l in Leaves(tree, width, f) ==> l.anchor in Tiles(tree)
    decreases tree, 1
  {
    hide Nominal, KindOf, MeasureOf, WasOpen;
    if tree.Split? {
      AnchorsAreTilesIn(tree.children, Nominals(tree.axis, tree.children, width), f);
    }
  }

  lemma {:induction false} AnchorsAreTilesIn(children: seq<Branch>, widths: seq<real>, f: Facts)
    requires |widths| == |children|
    ensures forall l :: l in LeavesIn(children, widths, f) ==> l.anchor in TilesOf(children)
    decreases children, 0
  {
    hide Leaves, Tiles;
    if children != [] {
      assert children[0].tree < children[0];
      AnchorsAreTiles(children[0].tree, widths[0], f);
      AnchorsAreTilesIn(children[1..], widths[1..], f);
    }
  }

  predicate HasDocument(tabs: seq<nat>, f: Facts) {
    exists i :: 0 <= i < |tabs| && f.role(tabs[i]) == Some(Document)
  }

  predicate HasNavigator(tabs: seq<nat>, f: Facts) {
    exists i :: 0 <= i < |tabs| && (f.role(tabs[i]) == Some(NavigatorTile) || f.role(tabs[i]) == Some(Site))
  }

  /** A stack with a document is a source however its tabs are ordered; one without is
      a navigator when some tab is a navigator or a site. */
  lemma KindExactly(tabs: seq<nat>, f: Facts)
    ensures KindOf(tabs, f) == Source <==> HasDocument(tabs, f)
    ensures KindOf(tabs, f) == Navigator <==> !HasDocument(tabs, f) && HasNavigator(tabs, f)
  {
  }

  /** Some stack of the tree bears source text: it has a tab with a document. */
  predicate HasWriting(tree: Tree, f: Facts)
    decreases tree
  {
    match tree
    case Stack(tabs) => HasDocument(tabs, f)
    case Split(_, children) => exists i :: 0 <= i < |children| && HasWriting(children[i].tree, f)
  }

  /** The leaf list answers for every stack of the tree what its tabs say. */
  ghost predicate Honest(tree: Tree, leaves: seq<Leaf>, f: Facts)
    decreases tree
  {
    && (HasSource(tree, leaves) <==> HasWriting(tree, f))
    && match tree
       case Stack(tabs) =>
         tabs != [] ==>
           && LeafOf(tree, leaves).Some?
           && LeafOf(tree, leaves).value.kind == KindOf(tabs, f)
           && LeafOf(tree, leaves).value.measure == MeasureOf(tabs, f)
       case Split(_, children) => forall i :: 0 <= i < |children| ==> Honest(children[i].tree, leaves, f)
  }

  lemma {:induction false} FindBeyond(before: seq<Leaf>, leaf: Leaf, after: seq<Leaf>)
    requires forall l :: l in before ==> l.anchor != leaf.anchor
    ensures Find(before + [leaf] + after, leaf.anchor) == Some(leaf)
  {
    var all := before + [leaf] + after;
    if before != [] {
      assert all[1..] == before[1..] + [leaf] + after;
      assert all[0] == before[0];
      assert before[0] in before;
      FindBeyond(before[1..], leaf, after);
    }
  }

  lemma StackHonest(tabs: seq<nat>, width: real, f: Facts, before: seq<Leaf>, after: seq<Leaf>)
    requires Foreign(before, tabs) && Foreign(after, tabs)
    ensures Honest(Stack(tabs), before + Leaves(Stack(tabs), width, f) + after, f)
  {
    var all := before + Leaves(Stack(tabs), width, f) + after;
    var tree := Stack(tabs);
    if tabs != [] {
      var leaf := LeafFor(tabs, width, f);
      assert leaf.anchor in tabs;
      FindBeyond(before, leaf, after);
      assert all[|before|] == leaf;
      if leaf.kind == Source {
        assert Tiles(tree)[0] == leaf.anchor;
        assert IsSourceAnchor(all, Tiles(tree)[0]);
      }
      forall k | 0 <= k < |Tiles(tree)| && IsSourceAnchor(all, Tiles(tree)[k]) ensures leaf.kind == Source {
        assert forall l :: l in all ==> l in before || l == leaf || l in after;
        assert forall i :: 0 <= i < |all| && all[i].anchor == tabs[k] ==> all[i] in all && all[i] == leaf;
      }
    }
  }

  lemma {:induction false} TreeHonest(tree: Tree, width: real, f: Facts, before: seq<Leaf>, after: seq<Leaf>)
    requires Distinct(Tiles(tree)) && Foreign(before, Tiles(tree)) && Foreign(after, Tiles(tree))
    ensures Honest(tree, before + Leaves(tree, width, f) + after, f)
    decreases tree, 1
  {
    match tree {
      case Stack(tabs) => StackHonest(tabs, width, f, before, after);
      case Split(axis, children) =>
        hide Nominal, HasSource;
        var widths := Nominals(axis, children, width);
        assert Leaves(tree, width, f) == LeavesIn(children, widths, f);
        TreesHonest(children, widths, f, before, after);
        SourceInSome(tree, before + Leaves(tree, width, f) + after);
    }
  }

  lemma {:induction false} TreesHonest(
    children: seq<Branch>, widths: seq<real>, f: Facts, before: seq<Leaf>, after: seq<Leaf>)
    requires |widths| == |children|
    requires Distinct(TilesOf(children)) && Foreign(before, TilesOf(children)) && Foreign(after, TilesOf(children))
    ensures forall i :: 0 <= i < |children| ==>
              Honest(children[i].tree, before + LeavesIn(children, widths, f) + after, f)
    decreases children, 0
  {
    hide Leaves, Tiles, Honest;
    if children != [] {
      assert children[0].tree < children[0];
      var head, rest := Tiles(children[0].tree), TilesOf(children[1..]);
      var a, b := Leaves(children[0].tree, widths[0], f), LeavesIn(children[1..], widths[1..], f);
      DistinctSplits(head, rest);
      AnchorsAreTiles(children[0].tree, widths[0], f);
      AnchorsAreTilesIn(children[1..], widths[1..], f);
      var all := before + LeavesIn(children, widths, f) + after;
      assert all == before + a + (b + after) == (before + a) + b + after;
      assert Foreign(b + after, head);
      assert Foreign(before + a, rest);
      TreeHonest(children[0].tree, widths[0], f, before, b + after);
      TreesHonest(children[1..], widths[1..], f, before + a, after);
      forall i | 0 <= i < |children| ensures Honest(children[i].tree, all, f) {
        assert i > 0 ==> children[i] == children[1..][i - 1];
      }
    }
  }

  lemma {:induction false} TileInSome(children: seq<Branch>, tile: nat)
    ensures tile in TilesOf(children) <==> exists i :: 0 <= i < |children| && tile in Tiles(children[i].tree)
  {
    hide Tiles;
    if children != [] {
      TileInSome(children[1..], tile);
      if tile in TilesOf(children[1..]) {
        var i :| 0 <= i < |children[1..]| && tile in Tiles(children[1..][i].tree);
        assert tile in Tiles(children[i + 1].tree);
      }
      forall i | 0 <= i < |children| && tile in Tiles(children[i].tree) ensures tile in TilesOf(children) {
        assert i > 0 ==> children[i] == children[1..][i - 1];
      }
    }
  }

  lemma SourceTile(tree: Tree, leaves: seq<Leaf>)
    ensures HasSource(tree, leaves) <==> exists t: nat :: t in Tiles(tree) && IsSourceAnchor(leaves, t)
  {
    hide IsSourceAnchor, Tiles;
    if HasSource(tree, leaves) {
      var k :| 0 <= k < |Tiles(tree)| && IsSourceAnchor(leaves, Tiles(tree)[k]);
      assert Tiles(tree)[k] in Tiles(tree);
    }
  }

  lemma SourceInSome(tree: Tree, leaves: seq<Leaf>)
    requires tree.Split?
    ensures HasSource(tree, leaves) <==>
            exists i :: 0 <= i < |tree.children| && HasSource(tree.children[i].tree, leaves)
  {
    hide HasSource, IsSourceAnchor;
    SourceTile(tree, leaves);
    if HasSource(tree, leaves) {
      var t: nat :| t in Tiles(tree) && IsSourceAnchor(leaves, t);
      TileInSome(tree.children, t);
      var i :| 0 <= i < |tree.children| && t in Tiles(tree.children[i].tree);
      SourceTile(tree.children[i].tree, leaves);
    }
    forall i | 0 <= i < |tree.children| && HasSource(tree.children[i].tree, leaves) ensures HasSource(tree, leaves) {
      SourceTile(tree.children[i].tree, leaves);
      var t: nat :| t in Tiles(tree.children[i].tree) && IsSourceAnchor(leaves, t);
      TileInSome(tree.children, t);
    }
  }

  // ----- folding stacks into rails -----

  /** Some source leaf is more than half a pixel short of its measure. */
  predicate Squeezed(leaves: seq<Leaf>) {
    exists i :: 0 <= i < |leaves| && leaves[i].kind == Source && leaves[i].canonical + 0.5 < leaves[i].measure
  }

  function Fold(leaf: Leaf, drawer: bool): Leaf {
    leaf.(collapsed := leaf.kind == Navigator || (drawer && leaf.kind != Source))
  }

  function Folded(leaves: seq<Leaf>, drawer: bool): (r: seq<Leaf>) {
    if leaves == [] then [] else [Fold(leaves[0], drawer)] + Folded(leaves[1..], drawer)
  }

  function FoldReading(leaf: Leaf): Leaf {
    if leaf.kind == Reading then leaf.(collapsed := true) else leaf
  }

  function ReadingsFolded(leaves: seq<Leaf>): seq<Leaf> {
    if leaves == [] then [] else [FoldReading(leaves[0])] + ReadingsFolded(leaves[1..])
  }

  /** The frame is too narrow for the canonical layout. */
  predicate Tight(leaves: seq<Leaf>, s: Setup) {
    Squeezed(leaves) || s.drawer
  }

  /** The leaves as presented in a frame of the given width. */
  function Final(tree: Tree, f: Facts, s: Setup, width: real): seq<Leaf> {
    var leaves := Leaves(tree, width, f);
    if !Tight(leaves, s) then leaves
    else if Required(tree, Folded(leaves, s.drawer), s) > width then ReadingsFolded(Folded(leaves, s.drawer))
    else Folded(leaves, s.drawer)
  }

  function Shown(leaf: Leaf, s: Setup): StackPresentation {
    StackPresentation(leaf.anchor, if leaf.collapsed then Some(Rail(leaf.open, s.drawer)) else None)
  }

  function Stacks(leaves: seq<Leaf>, s: Setup): seq<StackPresentation> {
    if leaves == [] then [] else [Shown(leaves[0], s)] + Stacks(leaves[1..], s)
  }

  lemma {:induction false} FoldsAt(leaves: seq<Leaf>, drawer: bool)
    ensures |Folded(leaves, drawer)| == |leaves|
    ensures forall i :: 0 <= i < |leaves| ==> Folded(leaves, drawer)[i] == Fold(leaves[i], drawer)
  {
    hide Fold;
    if leaves != [] {
      FoldsAt(leaves[1..], drawer);
      assert forall i :: 0 < i < |leaves| ==> leaves[i] == leaves[1..][i - 1];
    }
  }

  lemma {:induction false} ReadingsAt(leaves: seq<Leaf>)
    ensures |ReadingsFolded(leaves)| == |leaves|
    ensures forall i :: 0 <= i < |leaves| ==> ReadingsFolded(leaves)[i] == FoldReading(leaves[i])
  {
    hide FoldReading;
    if leaves != [] {
      ReadingsAt(leaves[1..]);
      assert forall i :: 0 < i < |leaves| ==> leaves[i] == leaves[1..][i - 1];
    }
  }

  method FoldSides(before: seq<Leaf>, drawer: bool) returns (leaves: seq<Leaf>)
    ensures leaves == Folded(before, drawer)
  {
    FoldsAt(before, drawer);
    hide Fold, Folded;
    leaves := before;
    for i := 0 to |leaves|
      invariant |leaves| == |before|
      invariant forall j :: 0 <= j < i ==> leaves[j] == Fold(before[j], drawer)
      invariant forall j :: i <= j < |before| ==> leaves[j] == before[j]
    {
      leaves := leaves[i := Fold(leaves[i], drawer)];
    }
  }

  method FoldReadings(before: seq<Leaf>) returns (leaves: seq<Leaf>)
    ensures leaves == ReadingsFolded(before)
  {
    ReadingsAt(before);
    hide ReadingsFolded;
    leaves := before;
    for i := 0 to |leaves|
      invariant |leaves| == |before|
      invariant forall j :: 0 <= j < i ==> leaves[j] == FoldReading(before[j])
      invariant forall j :: i <= j < |before| ==> leaves[j] == before[j]
    {
      if leaves[i].kind == Reading {
        leaves := leaves[i := leaves[i].(collapsed := true)];
      }
    }
  }

  method ShowStacks(leaves: seq<Leaf>, s: Setup) returns (stacks: seq<StackPresentation>)
    ensures stacks == Stacks(leaves, s)
  {
    stacks := [];
    for i := 0 to |leaves|
      invariant stacks + Stacks(leaves[i..], s) == Stacks(leaves, s)
    {
      assert leaves[i..][1..] == leaves[i + 1..] && leaves[i..][0] == leaves[i];
      stacks := stacks + [Shown(leaves[i], s)];
    }
  }

  /** Derives rails and constrained fractions from the frame's width. */
  method Present(tree: Tree, f: Facts, s: Setup, width: real) returns (result: Presentation)
    ensures result.stacks == Stacks(Final(tree, f, s, width), s)
    ensures result.splits ==
            if Tight(Leaves(tree, width, f), s) then Splits(tree, Final(tree, f, s, width), s, width, []) else []
  {
    hide Leaves, Folded, ReadingsFolded, Required, Splits, Stacks, Squeezed;
    var leaves := Collect(tree, width, f, []);
    assert leaves == Leaves(tree, width, f);
    var tight := Squeezed(leaves) || s.drawer;
    if tight {
      leaves := FoldSides(leaves, s.drawer);
    }
    if tight && Required(tree, leaves, s) > width {
      leaves := FoldReadings(leaves);
    }
    var stacks := ShowStacks(leaves, s);
    var splits := [];
    if tight {
      splits := Constrain(tree, leaves, s, width, [], []);
    }
    result := Presentation(stacks, splits);
  }

  // ----- folding changes no leaf's identity -----

  ghost predicate SameIdentity(a: seq<Leaf>, b: seq<Leaf>) {
    && |a| == |b|
    && forall i :: 0 <= i < |a| ==>
         a[i].anchor == b[i].anchor && a[i].kind == b[i].kind && a[i].measure == b[i].measure
  }

  lemma FoldedSame(leaves: seq<Leaf>, drawer: bool)
    ensures SameIdentity(leaves, Folded(leaves, drawer))
    ensures SourcesOpen(Folded(leaves, drawer))
  {
    FoldsAt(leaves, drawer);
  }

  lemma ReadingsFoldedSame(leaves: seq<Leaf>)
    requires SourcesOpen(leaves)
    ensures SameIdentity(leaves, ReadingsFolded(leaves))
    ensures SourcesOpen(ReadingsFolded(leaves))
  {
    ReadingsAt(leaves);
  }

  lemma {:induction false} FindSame(a: seq<Leaf>, b: seq<Leaf>, anchor: nat)
    requires SameIdentity(a, b)
    ensures Find(a, anchor).Some? <==> Find(b, anchor).Some?
    ensures Find(a, anchor).Some? ==>
              && Find(a, anchor).value.kind == Find(b, anchor).value.kind
              && Find(a, anchor).value.measure == Find(b, anchor).value.measure
  {
    if a != [] {
      assert SameIdentity(a[1..], b[1..]) by {
        assert forall i :: 0 <= i < |a[1..]| ==> a[1..][i] == a[i + 1] && b[1..][i] == b[i + 1];
      }
      FindSame(a[1..], b[1..], anchor);
    }
  }

  lemma SourceSame(tree: Tree, a: seq<Leaf>, b: seq<Leaf>)
    requires SameIdentity(a, b)
    ensures HasSource(tree, a) <==> HasSource(tree, b)
  {
    assert forall t: nat :: IsSourceAnchor(a, t) <==> IsSourceAnchor(b, t);
  }

  lemma {:induction false} HonestSame(tree: Tree, a: seq<Leaf>, b: seq<Leaf>, f: Facts)
    requires SameIdentity(a, b) && Honest(tree, a, f)
    ensures Honest(tree, b, f)
    decreases tree
  {
    hide HasSource;
    SourceSame(tree, a, b);
    match tree {
      case Stack(tabs) =>
        if tabs != [] {
          FindSame(a, b, tabs[0]);
        }
      case Split(_, children) =>
        forall i | 0 <= i < |children| ensures Honest(children[i].tree, b, f) {
          HonestSame(children[i].tree, a, b, f);
        }
    }
  }

  lemma {:induction false} LeavesFresh(tree: Tree, width: real, f: Facts)
    ensures forall l :: l in Leaves(tree, width, f) ==> !l.collapsed && l.measure >= 0.0
    decreases tree, 1
  {
    hide Nominal;
    if tree.Split? {
      LeavesInFresh(tree.children, Nominals(tree.axis, tree.children, width), f);
    }
  }

  lemma {:induction false} LeavesInFresh(children: seq<Branch>, widths: seq<real>, f: Facts)
    requires |widths| == |children|
    ensures forall l :: l in LeavesIn(children, widths, f) ==> !l.collapsed && l.measure >= 0.0
    decreases children, 0
  {
    hide Leaves;
    if children != [] {
      assert children[0].tree < children[0];
      LeavesFresh(children[0].tree, widths[0], f);
      LeavesInFresh(children[1..], widths[1..], f);
    }
  }

  /** However the stacks are folded, the final leaves answer for every stack of a
      tree with distinct tiles, and no source stack is ever made a rail. */
  lemma FinalHonest(tree: Tree, f: Facts, s: Setup, width: real)
    requires Distinct(Tiles(tree))
    ensures Honest(tree, Final(tree, f, s, width), f)
    ensures SourcesOpen(Final(tree, f, s, width)) && MeasuresSane(Final(tree, f, s, width))
  {
    hide Leaves, Folded, ReadingsFolded, Required, Honest, Tight, Tiles;
    var leaves := Leaves(tree, width, f);
    TreeHonest(tree, width, f, [], []);
    assert [] + leaves + [] == leaves;
    LeavesFresh(tree, width, f);
    assert forall i :: 0 <= i < |leaves| ==> leaves[i] in leaves;
    var folded := Folded(leaves, s.drawer);
    FoldedSame(leaves, s.drawer);
    HonestSame(tree, leaves, folded, f);
    ReadingsFoldedSame(folded);
    HonestSame(tree, folded, ReadingsFolded(folded), f);
  }

  // ----- which stacks are presented as rails -----

  /** The tree has this stack. */
  ghost predicate StackIn(tree: Tree, tabs: seq<nat>)
    decreases tree
  {
    match tree
    case Stack(own) => own == tabs
    case Split(_, children) => exists i :: 0 <= i < |children| && StackIn(children[i].tree, tabs)
  }

  /** Among the leaves is that of the stack, at some width. */
  lemma {:induction false} LeafIn(tree: Tree, width: real, f: Facts, tabs: seq<nat>) returns (i: nat, w: real)
    requires StackIn(tree, tabs) && tabs != []
    ensures i < |Leaves(tree, width, f)| && Leaves(tree, width, f)[i] == LeafFor(tabs, w, f)
    decreases tree, 1
  {
    hide LeafFor, Nominals;
    match tree {
      case Stack(own) => i, w := 0, width;
      case Split(axis, children) => i, w := LeafInSome(children, Nominals(axis, children, width), f, tabs);
    }
  }

  lemma {:induction false} LeafInSome(children: seq<Branch>, widths: seq<real>, f: Facts, tabs: seq<nat>)
    returns (i: nat, w: real)
    requires |widths| == |children| && tabs != []
    requires exists n :: 0 <= n < |children| && StackIn(children[n].tree, tabs)
    ensures i < |LeavesIn(children, widths, f)| && LeavesIn(children, widths, f)[i] == LeafFor(tabs, w, f)
    decreases children, 0
  {
    hide LeafFor, Leaves, StackIn;
    var first := Leaves(children[0].tree, widths[0], f);
    assert children[0].tree < children[0];
    if StackIn(children[0].tree, tabs) {
      i, w := LeafIn(children[0].tree, widths[0], f, tabs);
    } else {
      var n :| 0 <= n < |children| && StackIn(children[n].tree, tabs);
      assert children[1..][n - 1] == children[n];
      var k;
      k, w := LeafInSome(children[1..], widths[1..], f, tabs);
      i := |first| + k;
    }
  }

  /** Every leaf is that of a stack of the tree. */
  lemma {:induction false} StackOf(tree: Tree, width: real, f: Facts, i: nat) returns (tabs: seq<nat>, w: real)
    requires i < |Leaves(tree, width, f)|
    ensures StackIn(tree, tabs) && tabs != [] && Leaves(tree, width, f)[i] == LeafFor(tabs, w, f)
    decreases tree, 1
  {
    hide LeafFor, Nominals;
    match tree {
      case Stack(own) => tabs, w := own, width;
      case Split(axis, children) =>
        var n;
        n, tabs, w := StackOfSome(children, Nominals(axis, children, width), f, i);
    }
  }

  lemma {:induction false} StackOfSome(children: seq<Branch>, widths: seq<real>, f: Facts, i: nat)
    returns (n: nat, tabs: seq<nat>, w: real)
    requires |widths| == |children| && i < |LeavesIn(children, widths, f)|
    ensures n < |children| && StackIn(children[n].tree, tabs) && tabs != []
    ensures LeavesIn(children, widths, f)[i] == LeafFor(tabs, w, f)
    decreases children, 0
  {
    hide LeafFor, Leaves, StackIn;
    var first := Leaves(children[0].tree, widths[0], f);
    assert children[0].tree < children[0];
    if i < |first| {
      n := 0;
      tabs, w := StackOf(children[0].tree, widths[0], f, i);
    } else {
      n, tabs, w := StackOfSome(children[1..], widths[1..], f, i - |first|);
      n := n + 1;
    }
  }

  /** No two leaves have the same anchor. */
  ghost predicate Apart(leaves: seq<Leaf>) {
    forall i, j :: 0 <= i < j < |leaves| ==> leaves[i].anchor != leaves[j].anchor
  }

  lemma {:induction false} LeavesApart(tree: Tree, width: real, f: Facts)
    requires Distinct(Tiles(tree))
    ensures Apart(Leaves(tree, width, f))
    decreases tree, 1
  {
    hide LeafFor, Nominals;
    if tree.Split? {
      LeavesInApart(tree.children, Nominals(tree.axis, tree.children, width), f);
    }
  }

  lemma {:induction false} LeavesInApart(children: seq<Branch>, widths: seq<real>, f: Facts)
    requires |widths| == |children| && Distinct(TilesOf(children))
    ensures Apart(LeavesIn(children, widths, f))
    decreases children, 0
  {
    hide LeafFor, Leaves, Tiles;
    if children != [] {
      assert children[0].tree < children[0];
      var head, rest := Tiles(children[0].tree), TilesOf(children[1..]);
      DistinctSplits(head, rest);
      LeavesApart(children[0].tree, widths[0], f);
      LeavesInApart(children[1..], widths[1..], f);
      AnchorsAreTiles(children[0].tree, widths[0], f);
      AnchorsAreTilesIn(children[1..], widths[1..], f);
      ApartJoin(Leaves(children[0].tree, widths[0], f), LeavesIn(children[1..], widths[1..], f), head, rest);
    }
  }

  lemma ApartJoin(a: seq<Leaf>, b: seq<Leaf>, head: seq<nat>, rest: seq<nat>)
    requires Apart(a) && Apart(b) && Disjoint(head, rest)
    requires (forall l :: l in a ==> l.anchor in head) && (forall l :: l in b ==> l.anchor in rest)
    ensures Apart(a + b)
  {
    forall i, j | 0 <= i < j < |a + b| ensures (a + b)[i].anchor != (a + b)[j].anchor {
      if i < |a| <= j {
        assert a[i] in a && b[j - |a|] in b;
      }
    }
  }

  lemma FoldedAt(leaves: seq<Leaf>, drawer: bool)
    ensures |Folded(leaves, drawer)| == |ReadingsFolded(Folded(leaves, drawer))| == |leaves|
    ensures forall i :: 0 <= i < |leaves| ==>
              && Folded(leaves, drawer)[i] == Fold(leaves[i], drawer)
              && ReadingsFolded(Folded(leaves, drawer))[i] == FoldReading(Fold(leaves[i], drawer))
  {
    hide Fold, FoldReading, Folded, ReadingsFolded;
    FoldsAt(leaves, drawer);
    ReadingsAt(Folded(leaves, drawer));
  }

  lemma {:induction false} StacksAt(leaves: seq<Leaf>, s: Setup)
    ensures |Stacks(leaves, s)| == |leaves|
    ensures forall i :: 0 <= i < |leaves| ==> Stacks(leaves, s)[i] == Shown(leaves[i], s)
  {
    if leaves != [] {
      StacksAt(leaves[1..], s);
      assert forall i :: 0 < i < |leaves| ==> leaves[i] == leaves[1..][i - 1];
    }
  }

  /** The first presentation with this anchor is at `i`. */
  predicate FirstOf(previous: seq<StackPresentation>, anchor: nat, i: nat)
    requires i < |previous|
  {
    previous[i].anchor == anchor && forall j :: 0 <= j < i ==> previous[j].anchor != anchor
  }

  /** The first presentation with this anchor is an open rail. */
  ghost predicate OpenBefore(previous: seq<StackPresentation>, anchor: nat) {
    exists i :: 0 <= i < |previous| && FirstOf(previous, anchor, i) && OpenRail(previous[i].rail)
  }

  predicate OpenRail(rail: Option<Rail>) {
    rail.Some? && rail.value.open
  }

  lemma {:induction false} WasOpenExactly(previous: seq<StackPresentation>, anchor: nat)
    ensures WasOpen(previous, anchor) <==> OpenBefore(previous, anchor)
  {
    if previous != [] {
      var rest := previous[1..];
      WasOpenExactly(rest, anchor);
      if previous[0].anchor == anchor {
        assert FirstOf(previous, anchor, 0);
      } else {
        forall i | 0 < i < |previous| ensures FirstOf(previous, anchor, i) <==> FirstOf(rest, anchor, i - 1) {
          assert forall j :: 0 < j < i ==> previous[j] == rest[j - 1];
          assert forall j :: 0 <= j < i - 1 ==> rest[j] == previous[j + 1];
        }
        if WasOpen(rest, anchor) {
          var i :| 0 <= i < |rest| && FirstOf(rest, anchor, i) && OpenRail(rest[i].rail);
          assert FirstOf(previous, anchor, i + 1);
        }
      }
    }
  }

  /** By the tree's own fractions some stack with a document would be more than half a
      pixel short of its measure. */
  ghost predicate Cramped(tree: Tree, f: Facts, s: Setup, width: real) {
    !WritingWithin(tree, f, [], s, false, width, 0.5)
  }

  /** What is presented of each stack of a tree with distinct tiles. A stack with a
      document is never a rail. In a frame that is cramped or uses drawers a stack with
      a navigator or a site is, and so is every other one if drawers are used or the
      fit test fails; in any other frame there are no rails. A rail is open as it was
      presented last, and is a drawer where drawers are used. */
  lemma RailsExactly(tree: Tree, f: Facts, s: Setup, width: real, tabs: seq<nat>) returns (i: nat)
    requires Distinct(Tiles(tree)) && StackIn(tree, tabs) && tabs != []
    ensures
      var stacks := Stacks(Final(tree, f, s, width), s);
      var misfit := Required(tree, Folded(Leaves(tree, width, f), s.drawer), s) > width;
      && i < |stacks| && stacks[i].anchor == tabs[0]
      && (forall j :: 0 <= j < |stacks| && stacks[j].anchor == tabs[0] ==> j == i)
      && (stacks[i].rail.Some? <==>
            && !HasDocument(tabs, f) && (s.drawer || Cramped(tree, f, s, width))
            && (s.drawer || HasNavigator(tabs, f) || misfit))
      && (stacks[i].rail.Some? ==>
            && stacks[i].rail.value.drawer == s.drawer
            && (stacks[i].rail.value.open <==> OpenBefore(f.previous, tabs[0])))
  {
    hide Leaves, Folded, ReadingsFolded, Required, Tiles, WritingWithin, KindOf, HasDocument, HasNavigator, Squeezed;
    var leaves, w := Leaves(tree, width, f), 0.0;
    i, w := LeafIn(tree, width, f, tabs);
    KindExactly(tabs, f);
    LeavesApart(tree, width, f);
    LeavesFresh(tree, width, f);
    assert leaves[i] in leaves;
    NominalExactly(tree, f, [], s, width, 0.5);
    RoomyUnlessSqueezed(leaves);
    FoldedAt(leaves, s.drawer);
    assert forall j :: 0 <= j < |leaves| ==> Final(tree, f, s, width)[j].anchor == leaves[j].anchor;
    StacksAt(Final(tree, f, s, width), s);
    WasOpenExactly(f.previous, tabs[0]);
  }

  lemma {:induction false} FindAt(leaves: seq<Leaf>, i: nat)
    requires Apart(leaves) && i < |leaves|
    ensures Find(leaves, leaves[i].anchor) == Some(leaves[i])
  {
    if i > 0 {
      assert leaves[0].anchor != leaves[i].anchor;
      assert Apart(leaves[1..]) by {
        assert forall j :: 0 <= j < |leaves[1..]| ==> leaves[1..][j] == leaves[j + 1];
      }
      FindAt(leaves[1..], i - 1);
    }
  }

  lemma {:induction false} HonestStack(tree: Tree, leaves: seq<Leaf>, f: Facts, tabs: seq<nat>)
    requires Honest(tree, leaves, f) && StackIn(tree, tabs)
    ensures Honest(Stack(tabs), leaves, f)
    decreases tree
  {
    hide HasSource, KindOf, HasDocument;
    if tree.Split? {
      var n :| 0 <= n < |tree.children| && StackIn(tree.children[n].tree, tabs);
      HonestStack(tree.children[n].tree, leaves, f, tabs);
    }
  }

  /** The final leaf of a stack. */
  lemma FinalLeaf(tree: Tree, f: Facts, s: Setup, width: real, tabs: seq<nat>) returns (i: nat)
    requires Distinct(Tiles(tree)) && StackIn(tree, tabs) && tabs != []
    ensures i < |Final(tree, f, s, width)| && Final(tree, f, s, width)[i].anchor == tabs[0]
    ensures LeafOf(Stack(tabs), Final(tree, f, s, width)) == Some(Final(tree, f, s, width)[i])
  {
    hide Leaves, Folded, ReadingsFolded, Required, Tiles, KindOf, Squeezed, MeasureOf;
    var leaves, w := Leaves(tree, width, f), 0.0;
    var final := Final(tree, f, s, width);
    i, w := LeafIn(tree, width, f, tabs);
    LeavesApart(tree, width, f);
    FoldedAt(leaves, s.drawer);
    assert forall j :: 0 <= j < |leaves| ==> final[j].anchor == leaves[j].anchor;
    FindAt(final, i);
  }

  /** What the row solver is told of a branch that is a stack, in terms of its tabs and
      of what is presented of it: it is fixed when it is a rail that is closed or a
      drawer, takes spare width when it is a plain reading and no rail, and must have
      the rail width, its measure or the narrowest reading. */
  lemma BranchExactly(tree: Tree, f: Facts, s: Setup, width: real, tabs: seq<nat>, fraction: real) returns (i: nat)
    requires Distinct(Tiles(tree)) && StackIn(tree, tabs) && tabs != []
    ensures
      var stacks := Stacks(Final(tree, f, s, width), s);
      var kid := KidOf(Branch(fraction, Stack(tabs)), Final(tree, f, s, width), s);
      && i < |stacks| && stacks[i].anchor == tabs[0] && kid.fraction == fraction
      && (kid.fixed <==> stacks[i].rail.Some? && (!stacks[i].rail.value.open || s.drawer))
      && (kid.reading <==> !HasDocument(tabs, f) && !HasNavigator(tabs, f) && stacks[i].rail.None?)
      && (kid.source <==> HasDocument(tabs, f))
      && (kid.minimum ==
          if kid.fixed then s.rail else if HasDocument(tabs, f) then MeasureOf(tabs, f) else s.minimum)
  {
    hide Final, Tiles, HasSource, KindOf, MeasureOf, HasDocument, HasNavigator;
    i := FinalLeaf(tree, f, s, width, tabs);
    StacksAt(Final(tree, f, s, width), s);
    FinalHonest(tree, f, s, width);
    HonestStack(tree, Final(tree, f, s, width), f, tabs);
    KindExactly(tabs, f);
  }

  /** And there is nothing else presented. */
  lemma OnlyStacksShown(tree: Tree, f: Facts, s: Setup, width: real, i: nat) returns (tabs: seq<nat>)
    requires i < |Stacks(Final(tree, f, s, width), s)|
    ensures StackIn(tree, tabs) && tabs != [] && Stacks(Final(tree, f, s, width), s)[i].anchor == tabs[0]
  {
    hide Leaves, Folded, ReadingsFolded, Required, Squeezed, KindOf;
    var leaves, w := Leaves(tree, width, f), 0.0;
    StacksAt(Final(tree, f, s, width), s);
    FoldedAt(leaves, s.drawer);
    tabs, w := StackOf(tree, width, f, i);
  }

  // ----- the writing measure is kept -----

  /** No row of the tree has two branches with source text. */
  ghost predicate OneWritingPerRow(tree: Tree, f: Facts)
    decreases tree
  {
    tree.Split? ==>
      && (tree.axis == Row ==>
            forall i, j :: 0 <= i < j < |tree.children| ==>
              !(HasWriting(tree.children[i].tree, f) && HasWriting(tree.children[j].tree, f)))
      && forall i :: 0 <= i < |tree.children| ==> OneWritingPerRow(tree.children[i].tree, f)
  }

  /** The widths a split's branches are laid out with: the solver's in a tight
      frame, those of the tree's own fractions otherwise. */
  function LaidOut(axis: Axis, children: seq<Branch>, leaves: seq<Leaf>, s: Setup, tight: bool, width: real): (ws: seq<real>)
    ensures |ws| == |children|
  {
    if tight then ChildWidths(axis, children, leaves, s, width) else Nominals(axis, children, width)
  }

  /** Every stack with source text gets the measure its tabs ask for, or at most
      `slack` less. */
  ghost predicate WritingWithin(
    tree: Tree, f: Facts, leaves: seq<Leaf>, s: Setup, tight: bool, width: real, slack: real)
    decreases tree
  {
    match tree
    case Stack(tabs) => HasWriting(tree, f) ==> width + slack >= MeasureOf(tabs, f)
    case Split(axis, children) =>
      forall i :: 0 <= i < |children| ==>
        WritingWithin(children[i].tree, f, leaves, s, tight, LaidOut(axis, children, leaves, s, tight, width)[i], slack)
  }

  /** As presented in a frame of the given width, every stack with source text gets
      its measure, or at most `slack` less. */
  ghost predicate PresentedWithin(tree: Tree, f: Facts, s: Setup, width: real, slack: real) {
    WritingWithin(tree, f, Final(tree, f, s, width), s, Tight(Leaves(tree, width, f), s), width, slack)
  }

  ghost predicate WritingKept(tree: Tree, f: Facts, s: Setup, width: real) {
    PresentedWithin(tree, f, s, width, 0.0)
  }

  lemma {:induction false} OneSourceFromWriting(tree: Tree, f: Facts, leaves: seq<Leaf>)
    requires Honest(tree, leaves, f) && OneWritingPerRow(tree, f)
    ensures OneSourcePerRow(tree, leaves)
    decreases tree
  {
    hide HasSource, HasWriting;
    if tree.Split? {
      forall i | 0 <= i < |tree.children|
        ensures HasSource(tree.children[i].tree, leaves) <==> HasWriting(tree.children[i].tree, f)
        ensures OneSourcePerRow(tree.children[i].tree, leaves)
      {
        OneSourceFromWriting(tree.children[i].tree, f, leaves);
      }
    }
  }

  lemma {:induction false} WritingIsMeasure(tree: Tree, f: Facts, leaves: seq<Leaf>, s: Setup, width: real)
    requires Honest(tree, leaves, f)
    ensures WritingWithin(tree, f, leaves, s, true, width, 0.0) <==> Kept(tree, leaves, s, false, width)
    decreases tree
  {
    hide HasSource, ChildWidths;
    if tree.Split? {
      forall i | 0 <= i < |tree.children|
        ensures
          var w := ChildWidths(tree.axis, tree.children, leaves, s, width)[i];
          WritingWithin(tree.children[i].tree, f, leaves, s, true, w, 0.0) <==>
          Kept(tree.children[i].tree, leaves, s, false, w)
      {
        WritingIsMeasure(tree.children[i].tree, f, leaves, s, ChildWidths(tree.axis, tree.children, leaves, s, width)[i]);
      }
    }
  }

  /** Every source leaf's nominal width is its measure, or at most `slack` less. */
  ghost predicate Roomy(leaves: seq<Leaf>, slack: real) {
    forall l :: l in leaves && l.kind == Source ==> l.canonical + slack >= l.measure
  }

  /** With the tree's own fractions a stack's width is what its leaf records. */
  lemma {:induction false} NominalExactly(tree: Tree, f: Facts, leaves: seq<Leaf>, s: Setup, width: real, slack: real)
    ensures WritingWithin(tree, f, leaves, s, false, width, slack) <==> Roomy(Leaves(tree, width, f), slack)
    decreases tree, 1
  {
    hide Nominals, KindOf, MeasureOf, WasOpen, ChildWidths;
    match tree {
      case Stack(tabs) => KindExactly(tabs, f);
      case Split(axis, children) =>
        var widths := Nominals(axis, children, width);
        NominalsExactly(children, widths, f, leaves, s, slack);
    }
  }

  lemma {:induction false} NominalsExactly(
    children: seq<Branch>, widths: seq<real>, f: Facts, leaves: seq<Leaf>, s: Setup, slack: real)
    requires |widths| == |children|
    ensures (forall i :: 0 <= i < |children| ==> WritingWithin(children[i].tree, f, leaves, s, false, widths[i], slack))
            <==> Roomy(LeavesIn(children, widths, f), slack)
    decreases children, 0
  {
    hide Leaves, WritingWithin;
    if children != [] {
      assert children[0].tree < children[0];
      NominalExactly(children[0].tree, f, leaves, s, widths[0], slack);
      NominalsExactly(children[1..], widths[1..], f, leaves, s, slack);
      assert forall i :: 0 < i < |children| ==> children[i] == children[1..][i - 1] && widths[i] == widths[1..][i - 1];
      assert forall i :: 0 <= i < |children[1..]| ==> children[1..][i] == children[i + 1] && widths[1..][i] == widths[i + 1];
    }
  }

  lemma RoomyUnlessSqueezed(leaves: seq<Leaf>)
    ensures Roomy(leaves, 0.5) <==> !Squeezed(leaves)
  {
    if Squeezed(leaves) {
      var i :| 0 <= i < |leaves| && leaves[i].kind == Source && leaves[i].canonical + 0.5 < leaves[i].measure;
      assert leaves[i] in leaves;
    }
  }

  /** In a frame that is not tight nothing is constrained, and every stack with
      source text gets its measure or at most half a pixel less. */
  lemma UntightIsWithinHalfPixel(tree: Tree, f: Facts, s: Setup, width: real)
    requires !Tight(Leaves(tree, width, f), s)
    ensures PresentedWithin(tree, f, s, width, 0.5)
  {
    hide Leaves, Squeezed, Final, Roomy, WritingWithin;
    RoomyUnlessSqueezed(Leaves(tree, width, f));
    NominalExactly(tree, f, Final(tree, f, s, width), s, width, 0.5);
  }

  /** Exactly when every stack with source text is presented with its measure: in a
      tight frame when the frame is as wide as the demand of the leaves presented,
      otherwise when every source leaf has its measure by the tree's own fractions. */
  lemma WritingKeptExactly(tree: Tree, f: Facts, s: Setup, width: real)
    requires Sane(s) && Distinct(Tiles(tree)) && OneWritingPerRow(tree, f) && width >= 0.0
    ensures WritingKept(tree, f, s, width) <==>
            if Tight(Leaves(tree, width, f), s) then Demand(tree, Final(tree, f, s, width), s, false) <= width
            else Roomy(Leaves(tree, width, f), 0.0)
  {
    hide Final, Tiles, Demand, Leaves, Tight, WritingWithin, Roomy;
    var leaves := Final(tree, f, s, width);
    if Tight(Leaves(tree, width, f), s) {
      FinalHonest(tree, f, s, width);
      OneSourceFromWriting(tree, f, leaves);
      KeptExactly(tree, leaves, s, false, width);
      WritingIsMeasure(tree, f, leaves, s, width);
    } else {
      NominalExactly(tree, f, leaves, s, width, 0.0);
    }
  }

  /** When the solver's minimum of the tree fits the frame, every stack with source
      text is presented with its measure, at every depth; in a frame that is not
      tight with at most half a pixel less. */
  lemma MeasureIsKept(tree: Tree, f: Facts, s: Setup, width: real)
    requires Sane(s) && Distinct(Tiles(tree)) && OneWritingPerRow(tree, f)
    requires MinimumWidth(tree, Final(tree, f, s, width), s) <= width
    ensures PresentedWithin(tree, f, s, width, if Tight(Leaves(tree, width, f), s) then 0.0 else 0.5)
  {
    hide Final, MinimumWidth, Tiles, Demand, Leaves, Tight, PresentedWithin;
    var leaves := Final(tree, f, s, width);
    if Tight(Leaves(tree, width, f), s) {
      FinalHonest(tree, f, s, width);
      MinimumNonNegative(tree, leaves, s);
      DemandModest(tree, leaves, s, false);
      WritingKeptExactly(tree, f, s, width);
    } else {
      UntightIsWithinHalfPixel(tree, f, s, width);
    }
  }

  /** When drawers are used or no rail was left open, passing the fit test is
      enough for that. */
  lemma FitTestKeepsMeasure(tree: Tree, f: Facts, s: Setup, width: real)
    requires Sane(s) && Distinct(Tiles(tree)) && OneWritingPerRow(tree, f)
    requires s.drawer || NoOpenRail(Final(tree, f, s, width))
    requires Required(tree, Final(tree, f, s, width), s) <= width
    ensures PresentedWithin(tree, f, s, width, if Tight(Leaves(tree, width, f), s) then 0.0 else 0.5)
  {
    hide Final, Tiles, Required, MinimumWidth, PresentedWithin, Tight, Leaves;
    FitTestIsMinimum(tree, Final(tree, f, s, width), s);
    MeasureIsKept(tree, f, s, width);
  }

  // ----- the fractions of an honest row -----

  /** In a presented tree with distinct tiles every row with source text is one the
      solver's fraction theorem speaks of: no rail bears source text. */
  lemma RowFractions(children: seq<Branch>, f: Facts, leaves: seq<Leaf>, s: Setup, width: real)
    requires Sane(s) && MeasuresSane(leaves) && SourcesOpen(leaves)
    requires Honest(Split(Row, children), leaves, f) && HasWriting(Split(Row, children), f)
    ensures
      var kids := Kids(children, leaves, s);
      var widths := ChildWidths(Row, children, leaves, s, width);
      var fractions := Fractions(kids, widths);
      var room := Room(kids, s.rail, width);
      && (forall i :: 0 <= i < |children| ==> fractions[i] >= 0.0)
      && (forall i :: 0 <= i < |children| && IsRail(children[i].tree, leaves, s) ==>
            fractions[i] == 0.0 && widths[i] == s.rail)
      && (Sum(fractions) == 1.0 <==> FloorApplies(kids, s.rail, width) || room >= 1.0)
      && (GivesBack(kids, widths, fractions, room) <==>
            !FloorApplies(kids, s.rail, width) && (room >= 1.0 || room == 0.0))
  {
    hide RowWidths, Fractions, FloorApplies, Room, MinimumWidth, HasWriting, HasSource, Sum, GivesBack;
    var kids := Kids(children, leaves, s);
    KidsSensible(children, leaves, s);
    forall i | 0 <= i < |kids| && kids[i].fixed ensures !kids[i].source && !kids[i].reading {
      RailIsSide(children[i].tree, f, leaves, s);
    }
    SourceInSome(Split(Row, children), leaves);
    SomeCounted(kids);
    FractionsGiveBackWidths(kids, s.rail, width);
  }

  lemma RailIsSide(tree: Tree, f: Facts, leaves: seq<Leaf>, s: Setup)
    requires SourcesOpen(leaves) && Honest(tree, leaves, f) && IsRail(tree, leaves, s)
    ensures !HasSource(tree, leaves) && !IsReading(tree, leaves)
  {
    hide HasSource, KindOf, MeasureOf;
    if tree.Stack? {
      KindExactly(tree.tabs, f);
    }
  }

  lemma {:induction false} SomeCounted(kids: seq<Kid>)
    requires exists i :: 0 <= i < |kids| && kids[i].source
    ensures Sources(kids) > 0
  {
    if !kids[0].source {
      var i :| 0 <= i < |kids| && kids[i].source;
      assert kids[1..][i - 1].source;
      SomeCounted(kids[1..]);
    }
  }

  // ----- an open rail can cost the measure -----

  const DESK: Tree := Split(Row, [Branch(0.25, Stack([1])), Branch(0.75, Stack([2]))])

  const SETUP: Setup := Setup(28.0, 280.0, false)

  function DeskFacts(): Facts {
    Facts(t => if t == 1 then Some(NavigatorTile) else if t == 2 then Some(Document) else None,
          t => if t == 2 then 786.0 else 0.0,
          [StackPresentation(1, Some(Rail(true, false)))])
  }

  function DeskLeaves(): seq<Leaf> {
    [Leaf(1, Navigator, 0.0, 207.25, true, true), Leaf(2, Source, 786.0, 621.75, false, false)]
  }

  lemma DeskFolds()
    ensures Final(DESK, DeskFacts(), SETUP, 830.0) == DeskLeaves()
    ensures Tight(Leaves(DESK, 830.0, DeskFacts()), SETUP)
    ensures Required(DESK, DeskLeaves(), SETUP) == 815.0
  {
    var f, cs := DeskFacts(), DESK.children;
    var t1, t2 := Stack([1]), Stack([2]);
    var l1, l2 := Leaf(1, Navigator, 0.0, 207.25, false, true), Leaf(2, Source, 786.0, 621.75, false, false);
    assert cs[1..] == [cs[1]] && cs[1..][1..] == [];
    assert FractionSum(cs[1..]) == 0.75 && FractionSum(cs) == 1.0;
    var ws := Nominals(Row, cs, 830.0);
    assert Nominal(Row, cs, 830.0, 0.25) == 207.25 && Nominal(Row, cs, 830.0, 0.75) == 621.75;
    assert ws == [207.25, 621.75] && ws[1..] == [621.75];
    assert [1][1..] == [] && [2][1..] == [];
    assert f.role([1][0]) == Some(NavigatorTile) && f.role([2][0]) == Some(Document);
    assert MeasureOf([], f) == 0.0 && MeasureOf([1], f) == 0.0 && MeasureOf([2], f) == 786.0;
    assert f.previous[0].anchor == 1 && f.previous[1..] == [];
    assert WasOpen([], 2) == false && WasOpen(f.previous, 2) == false;
    assert LeafFor([1], 207.25, f) == l1 && LeafFor([2], 621.75, f) == l2;
    assert Leaves(t2, 621.75, f) == [l2] && Leaves(t1, 207.25, f) == [l1];
    assert LeavesIn(cs[1..], [621.75], f) == [l2];
    var leaves := Leaves(DESK, 830.0, f);
    assert leaves == LeavesIn(cs, ws, f) == [l1, l2];
    assert leaves[1].kind == Source && Squeezed(leaves);
    assert leaves[1..] == [l2] && [l2][1..] == [];
    assert Folded([l2], false) == [l2];
    assert Folded(leaves, false) == DeskLeaves();
    DeskRequired();
  }

  lemma DeskFinds()
    ensures LeafOf(Stack([1]), DeskLeaves()) == Some(DeskLeaves()[0])
    ensures LeafOf(Stack([2]), DeskLeaves()) == Some(DeskLeaves()[1])
  {
    assert DeskLeaves()[1..] == [DeskLeaves()[1]];
  }

  lemma DeskRequired()
    ensures Required(DESK, DeskLeaves(), SETUP) == 815.0
    ensures MinimumWidth(DESK, DeskLeaves(), SETUP) == 1067.0
    ensures MinimumWidth(Stack([2]), DeskLeaves(), SETUP) == 786.0
  {
    hide LeafOf, DeskLeaves;
    var cs := DESK.children;
    DeskFinds();
    DeskKinds();
    assert cs[1..] == [cs[1]] && cs[1..][1..] == [];
    assert Required(Stack([1]), DeskLeaves(), SETUP) == 28.0 && Required(Stack([2]), DeskLeaves(), SETUP) == 786.0;
    assert MinimumWidth(Stack([1]), DeskLeaves(), SETUP) == 280.0;
    assert RequiredSum(cs[1..], DeskLeaves(), SETUP) == 786.0;
    assert MinimumSum(cs[1..], DeskLeaves(), SETUP) == 786.0;
    assert LeafOf(DESK, DeskLeaves()).None? by { DeskIsNoLeaf(); }
  }

  lemma DeskIsNoLeaf()
    ensures LeafOf(DESK, DeskLeaves()).None?
  {
  }

  lemma DeskKinds()
    ensures |DeskLeaves()| == 2
    ensures DeskLeaves()[0] == Leaf(1, Navigator, 0.0, 207.25, true, true)
    ensures DeskLeaves()[1] == Leaf(2, Source, 786.0, 621.75, false, false)
  {
  }

  /** A navigator rail left open passes the fit test as a rail but is laid out
      inline, so the source stack beside it loses its measure. */
  lemma OpenRailCostsMeasure()
    ensures
      var leaves := Final(DESK, DeskFacts(), SETUP, 830.0);
      && Tight(Leaves(DESK, 830.0, DeskFacts()), SETUP)
      && Required(DESK, leaves, SETUP) <= 830.0
      && !WritingKept(DESK, DeskFacts(), SETUP, 830.0)
  {
    hide Final, Required, MinimumWidth, ChildWidths, HasSource, Leaves, Tight;
    DeskFolds();
    DeskRequired();
    DeskKinds();
    DeskFinds();
    var leaves, cs := DeskLeaves(), DESK.children;
    DeskSources();
    RowExact(cs, leaves, SETUP, 830.0, 1);
    assert DESK.Split? && DESK.axis == Row;
    assert cs[1].tree == Stack([2]);
    DeskWriting();
  }

  lemma DeskWriting()
    ensures HasWriting(Stack([2]), DeskFacts()) && MeasureOf([2], DeskFacts()) == 786.0
  {
    assert DeskFacts().role([2][0]) == Some(Document) && [2][1..] == [];
    assert MeasureOf([], DeskFacts()) == 0.0;
  }

  lemma DeskSources()
    ensures HasSource(Stack([2]), DeskLeaves()) && !HasSource(Stack([1]), DeskLeaves())
  {
    DeskKinds();
    assert Tiles(Stack([2]))[0] == 2 && IsSourceAnchor(DeskLeaves(), 2) by { assert DeskLeaves()[1].anchor == 2; }
  }

  // ----- half a pixel can be missing -----

  const PAGE: Tree := Split(Row, [Branch(0.5, Stack([1])), Branch(0.5, Stack([2]))])

  const PAGE_SETUP: Setup := Setup(28.0, 50.0, false)

  function PageFacts(): Facts {
    Facts(t => if t == 1 then Some(Document) else None, t => if t == 1 then 100.25 else 0.0, [])
  }

  lemma PageLeaves()
    ensures Leaves(PAGE, 201.0, PageFacts()) ==
            [Leaf(1, Source, 100.25, 100.0, false, false), Leaf(2, Reading, 0.0, 100.0, false, false)]
  {
    var f, cs := PageFacts(), PAGE.children;
    var l1, l2 := Leaf(1, Source, 100.25, 100.0, false, false), Leaf(2, Reading, 0.0, 100.0, false, false);
    assert cs[1..] == [cs[1]] && cs[1..][1..] == [];
    assert FractionSum(cs[1..]) == 0.5 && FractionSum(cs) == 1.0;
    assert Nominal(Row, cs, 201.0, 0.5) == 100.0;
    var ws := Nominals(Row, cs, 201.0);
    assert ws == [100.0, 100.0] && ws[1..] == [100.0];
    assert [1][1..] == [] && [2][1..] == [];
    assert f.role([1][0]) == Some(Document) && f.role([2][0]) == None;
    assert MeasureOf([], f) == 0.0 && MeasureOf([1], f) == 100.25 && MeasureOf([2], f) == 0.0;
    assert LeafFor([1], 100.0, f) == l1 && LeafFor([2], 100.0, f) == l2;
    assert Leaves(Stack([1]), 100.0, f) == [l1] && Leaves(Stack([2]), 100.0, f) == [l2];
    assert LeavesIn(cs[1..], [100.0], f) == [l2];
    assert Leaves(PAGE, 201.0, f) == LeavesIn(cs, ws, f) == [l1, l2];
  }

  lemma PageMinimum(leaves: seq<Leaf>)
    requires leaves == [Leaf(1, Source, 100.25, 100.0, false, false), Leaf(2, Reading, 0.0, 100.0, false, false)]
    ensures MinimumWidth(PAGE, leaves, PAGE_SETUP) == 151.25
  {
    var cs := PAGE.children;
    assert cs[1..] == [cs[1]] && cs[1..][1..] == [] && leaves[1..] == [leaves[1]];
    assert leaves[0].anchor == 1 && leaves[1].anchor == 2;
    assert Find([leaves[1]], 2) == Some(leaves[1]);
    assert Find(leaves, 2) == Find(leaves[1..], 2);
    assert LeafOf(Stack([1]), leaves) == Some(leaves[0]) && LeafOf(Stack([2]), leaves) == Some(leaves[1]);
    assert MinimumWidth(Stack([1]), leaves, PAGE_SETUP) == 100.25;
    assert MinimumWidth(Stack([2]), leaves, PAGE_SETUP) == 50.0;
    assert MinimumSum(cs[1..], leaves, PAGE_SETUP) == 50.0;
  }

  /** A frame with room to spare is not tight while a source stack is a quarter of a
      pixel short, so nothing is constrained and the quarter stays missing. */
  lemma HalfPixelMissed()
    ensures
      && !Tight(Leaves(PAGE, 201.0, PageFacts()), PAGE_SETUP)
      && MinimumWidth(PAGE, Final(PAGE, PageFacts(), PAGE_SETUP, 201.0), PAGE_SETUP) <= 201.0
      && !WritingKept(PAGE, PageFacts(), PAGE_SETUP, 201.0)
  {
    hide Leaves, MinimumWidth, WritingWithin;
    PageLeaves();
    var leaves := Leaves(PAGE, 201.0, PageFacts());
    PageMinimum(leaves);
    assert Final(PAGE, PageFacts(), PAGE_SETUP, 201.0) == leaves;
    assert leaves[0] in leaves;
    NominalExactly(PAGE, PageFacts(), leaves, PAGE_SETUP, 201.0, 0.0);
  }
}

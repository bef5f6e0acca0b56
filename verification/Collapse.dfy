/** Presenting a tree of tiles in a narrow frame: which stacks become rails, and
    what width each branch of each row is given. */
module Collapse {
  import opened Wrappers
  import opened CollapseRow

  datatype Axis = Row | Column

  datatype Branch = Branch(fraction: real, tree: Tree)

  datatype Tree = Stack(tabs: seq<nat>) | Split(axis: Axis, children: seq<Branch>)

  datatype Kind = Source | Navigator | Reading

  datatype Leaf = Leaf(anchor: nat, kind: Kind, measure: real, canonical: real, collapsed: bool, open: bool)

  /** Rail width, narrowest reading, and whether open rails overlay the source. */
  datatype Setup = Setup(rail: real, minimum: real, drawer: bool)

  datatype SplitPresentation = SplitPresentation(path: seq<nat>, fractions: seq<real>)

  predicate Sane(s: Setup) {
    s.rail >= 0.0 && s.minimum >= 0.0
  }

  // ----- looking up the leaf of a stack -----

  function Find(leaves: seq<Leaf>, anchor: nat): (r: Option<Leaf>)
    ensures r.Some? ==> r.value in leaves && r.value.anchor == anchor
  {
    if leaves == [] then None
    else if leaves[0].anchor == anchor then Some(leaves[0])
    else Find(leaves[1..], anchor)
  }

  function LeafOf(tree: Tree, leaves: seq<Leaf>): (r: Option<Leaf>)
    ensures r.Some? ==> tree.Stack? && tree.tabs != [] && r.value in leaves && r.value.anchor == tree.tabs[0]
  {
    if tree.Stack? && tree.tabs != [] then Find(leaves, tree.tabs[0]) else None
  }

  function Tiles(tree: Tree): seq<nat>
    decreases tree, 1
  {
    match tree
    case Stack(tabs) => tabs
    case Split(_, children) => TilesOf(children)
  }

  function TilesOf(children: seq<Branch>): seq<nat>
    decreases children, 0
  {
    if children == [] then []
    else
      assert children[0].tree < children[0];
      Tiles(children[0].tree) + TilesOf(children[1..])
  }

  predicate IsSourceAnchor(leaves: seq<Leaf>, tile: nat) {
    exists i :: 0 <= i < |leaves| && leaves[i].anchor == tile && leaves[i].kind == Source
  }

  predicate HasSource(tree: Tree, leaves: seq<Leaf>) {
    exists k :: 0 <= k < |Tiles(tree)| && IsSourceAnchor(leaves, Tiles(tree)[k])
  }

  /** The branch is shown as a rail rather than as an inline stack. */
  predicate IsRail(tree: Tree, leaves: seq<Leaf>, s: Setup) {
    var leaf := LeafOf(tree, leaves);
    leaf.Some? && leaf.value.collapsed && (!leaf.value.open || s.drawer)
  }

  predicate IsReading(tree: Tree, leaves: seq<Leaf>) {
    var leaf := LeafOf(tree, leaves);
    leaf.Some? && leaf.value.kind == Reading && !leaf.value.collapsed
  }

  // ----- what a tree needs -----

  /** The width the fit test asks for: every collapsed stack counts as a rail. */
  function Required(tree: Tree, leaves: seq<Leaf>, s: Setup): real
    decreases tree, 1
  {
    var leaf := LeafOf(tree, leaves);
    if leaf.Some? then
      if leaf.value.collapsed then s.rail
      else if leaf.value.kind == Source then leaf.value.measure
      else s.minimum
    else
      match tree
      case Split(Row, children) => RequiredSum(children, leaves, s) + Gaps(|children|)
      case Split(Column, children) => RequiredMax(children, leaves, s)
      case Stack(_) => 0.0
  }

  function RequiredSum(children: seq<Branch>, leaves: seq<Leaf>, s: Setup): real
    decreases children, 0
  {
    if children == [] then 0.0
    else
      assert children[0].tree < children[0];
      Required(children[0].tree, leaves, s) + RequiredSum(children[1..], leaves, s)
  }

  function RequiredMax(children: seq<Branch>, leaves: seq<Leaf>, s: Setup): real
    decreases children, 0
  {
    if children == [] then 0.0
    else
      assert children[0].tree < children[0];
      Max(Required(children[0].tree, leaves, s), RequiredMax(children[1..], leaves, s))
  }

  /** The width the solver holds a branch to: an open rail counts as inline
      unless drawers are used. */
  function MinimumWidth(tree: Tree, leaves: seq<Leaf>, s: Setup): real
    decreases tree, 1
  {
    var leaf := LeafOf(tree, leaves);
    if leaf.Some? then
      if leaf.value.collapsed && (!leaf.value.open || s.drawer) then s.rail
      else if leaf.value.kind == Source then leaf.value.measure
      else s.minimum
    else
      match tree
      case Split(Row, children) => MinimumSum(children, leaves, s) + Gaps(|children|)
      case Split(Column, children) => MinimumMax(children, leaves, s)
      case Stack(_) => 0.0
  }

  function MinimumSum(children: seq<Branch>, leaves: seq<Leaf>, s: Setup): real
    decreases children, 0
  {
    if children == [] then 0.0
    else
      assert children[0].tree < children[0];
      MinimumWidth(children[0].tree, leaves, s) + MinimumSum(children[1..], leaves, s)
  }

  function MinimumMax(children: seq<Branch>, leaves: seq<Leaf>, s: Setup): real
    decreases children, 0
  {
    if children == [] then 0.0
    else
      assert children[0].tree < children[0];
      Max(MinimumWidth(children[0].tree, leaves, s), MinimumMax(children[1..], leaves, s))
  }

  /** The row solver's view of a split's branches. */
  function KidOf(branch: Branch, leaves: seq<Leaf>, s: Setup): Kid {
    Kid(branch.fraction, MinimumWidth(branch.tree, leaves, s), HasSource(branch.tree, leaves),
        IsRail(branch.tree, leaves, s), IsReading(branch.tree, leaves))
  }

  function Kids(children: seq<Branch>, leaves: seq<Leaf>, s: Setup): (kids: seq<Kid>)
    ensures |kids| == |children|
    ensures forall i :: 0 <= i < |kids| ==> kids[i] == KidOf(children[i], leaves, s)
  {
    if children == [] then [] else [KidOf(children[0], leaves, s)] + Kids(children[1..], leaves, s)
  }

  /** The widths a split of the given width gives its branches. */
  function ChildWidths(axis: Axis, children: seq<Branch>, leaves: seq<Leaf>, s: Setup, width: real): (ws: seq<real>)
    ensures |ws| == |children|
  {
    if axis == Row then RowWidths(Kids(children, leaves, s), s.rail, width)
    else seq(|children|, _ => width)
  }

  // ----- no stack falls below its minimum -----

  /** Laid out in `width`, every stack of the tree gets at least its minimum, or, if
      not `all` are asked for, every source stack its measure. */
  ghost predicate Kept(tree: Tree, leaves: seq<Leaf>, s: Setup, all: bool, width: real)
    decreases tree
  {
    match tree
    case Stack(_) =>
      var leaf := LeafOf(tree, leaves);
      if all then width >= MinimumWidth(tree, leaves, s)
      else leaf.Some? && leaf.value.kind == Source ==> width >= leaf.value.measure
    case Split(axis, children) =>
      forall i :: 0 <= i < |children| ==>
        Kept(children[i].tree, leaves, s, all, ChildWidths(axis, children, leaves, s, width)[i])
  }

  /** No row has two branches with source text. */
  ghost predicate OneSourcePerRow(tree: Tree, leaves: seq<Leaf>)
    decreases tree
  {
    tree.Split? ==>
      && (tree.axis == Row ==>
            forall i, j :: 0 <= i < j < |tree.children| ==>
              !(HasSource(tree.children[i].tree, leaves) && HasSource(tree.children[j].tree, leaves)))
      && forall i :: 0 <= i < |tree.children| ==> OneSourcePerRow(tree.children[i].tree, leaves)
  }

  ghost predicate SourcesOpen(leaves: seq<Leaf>) {
    forall i :: 0 <= i < |leaves| && leaves[i].kind == Source ==> !leaves[i].collapsed
  }

  ghost predicate MeasuresSane(leaves: seq<Leaf>) {
    forall i :: 0 <= i < |leaves| ==> leaves[i].measure >= 0.0
  }

  lemma {:induction false} MinimumNonNegative(tree: Tree, leaves: seq<Leaf>, s: Setup)
    requires Sane(s) && MeasuresSane(leaves)
    ensures MinimumWidth(tree, leaves, s) >= 0.0
    decreases tree, 1
  {
    if LeafOf(tree, leaves).None? && tree.Split? {
      MinimumsNonNegative(tree.children, leaves, s);
    }
  }

  lemma {:induction false} MinimumsNonNegative(children: seq<Branch>, leaves: seq<Leaf>, s: Setup)
    requires Sane(s) && MeasuresSane(leaves)
    ensures MinimumSum(children, leaves, s) >= 0.0 && MinimumMax(children, leaves, s) >= 0.0
    decreases children, 0
  {
    if children != [] {
      assert children[0].tree < children[0];
      MinimumNonNegative(children[0].tree, leaves, s);
      MinimumsNonNegative(children[1..], leaves, s);
    }
  }

  lemma {:induction false} KidMinimums(children: seq<Branch>, leaves: seq<Leaf>, s: Setup)
    ensures Minimums(Kids(children, leaves, s)) == MinimumSum(children, leaves, s)
  {
    if children != [] {
      KidMinimums(children[1..], leaves, s);
      assert Kids(children, leaves, s)[1..] == Kids(children[1..], leaves, s);
    }
  }

  lemma {:induction false} BelowMax(children: seq<Branch>, leaves: seq<Leaf>, s: Setup, i: nat)
    requires i < |children|
    ensures MinimumWidth(children[i].tree, leaves, s) <= MinimumMax(children, leaves, s)
  {
    if i > 0 {
      BelowMax(children[1..], leaves, s, i - 1);
    }
  }

  lemma {:induction false} SourcesAtMostOne(kids: seq<Kid>)
    requires forall i, j :: 0 <= i < j < |kids| ==> !(kids[i].source && kids[j].source)
    ensures Sources(kids) <= 1
  {
    if kids != [] {
      var rest := kids[1..];
      assert forall i :: 0 <= i < |rest| ==> rest[i] == kids[i + 1];
      SourcesAtMostOne(rest);
      if kids[0].source {
        assert forall i :: 0 <= i < |rest| ==> !rest[i].source;
        NoneCounted(rest);
      }
    }
  }

  lemma {:induction false} NoneCounted(kids: seq<Kid>)
    requires forall i :: 0 <= i < |kids| ==> !kids[i].source
    ensures Sources(kids) == 0
  {
    if kids != [] {
      NoneCounted(kids[1..]);
    }
  }

  lemma KidsSensible(children: seq<Branch>, leaves: seq<Leaf>, s: Setup)
    requires Sane(s) && MeasuresSane(leaves)
    ensures Sensible(Kids(children, leaves, s), s.rail)
  {
    forall i | 0 <= i < |children|
      ensures Kids(children, leaves, s)[i].minimum >= 0.0
      ensures Kids(children, leaves, s)[i].fixed ==> Kids(children, leaves, s)[i].minimum == s.rail
    {
      MinimumNonNegative(children[i].tree, leaves, s);
    }
  }

  /** One row or column passes on enough width to each branch. */
  lemma SplitFits(axis: Axis, children: seq<Branch>, leaves: seq<Leaf>, s: Setup, width: real)
    requires Sane(s) && MeasuresSane(leaves)
    requires OneSourcePerRow(Split(axis, children), leaves)
    requires MinimumWidth(Split(axis, children), leaves, s) <= width
    ensures forall i :: 0 <= i < |children| ==>
              ChildWidths(axis, children, leaves, s, width)[i] >= MinimumWidth(children[i].tree, leaves, s)
  {
    if axis == Row {
      var kids := Kids(children, leaves, s);
      KidsSensible(children, leaves, s);
      KidMinimums(children, leaves, s);
      SourcesAtMostOne(kids);
      RowKeepsMinimums(kids, s.rail, width);
      forall i | 0 <= i < |children|
        ensures ChildWidths(axis, children, leaves, s, width)[i] >= MinimumWidth(children[i].tree, leaves, s)
      {
        assert kids[i].minimum == MinimumWidth(children[i].tree, leaves, s);
      }
    } else {
      forall i | 0 <= i < |children|
        ensures ChildWidths(axis, children, leaves, s, width)[i] >= MinimumWidth(children[i].tree, leaves, s)
      {
        BelowMax(children, leaves, s, i);
      }
    }
  }

  /** If no row has two branches with source text and the frame is at least as
      wide as the tree's minimum, every stack at every depth gets its minimum. */
  lemma {:induction false} EveryStackFits(tree: Tree, leaves: seq<Leaf>, s: Setup, width: real)
    requires Sane(s) && MeasuresSane(leaves) && OneSourcePerRow(tree, leaves)
    requires MinimumWidth(tree, leaves, s) <= width
    ensures Kept(tree, leaves, s, true, width)
    decreases tree
  {
    hide MinimumWidth, ChildWidths;
    if tree.Split? {
      SplitFits(tree.axis, tree.children, leaves, s, width);
      forall i | 0 <= i < |tree.children|
        ensures Kept(tree.children[i].tree, leaves, s, true,
                     ChildWidths(tree.axis, tree.children, leaves, s, width)[i])
      {
        EveryStackFits(tree.children[i].tree, leaves, s, ChildWidths(tree.axis, tree.children, leaves, s, width)[i]);
      }
    }
  }

  // ----- the fit test against the solver's minimum -----

  /** No collapsed stack is shown inline. */
  ghost predicate NoOpenRail(leaves: seq<Leaf>) {
    forall i :: 0 <= i < |leaves| && leaves[i].collapsed ==> !leaves[i].open
  }

  /** When drawers are used, or no rail is open, the fit test and the solver agree
      on what a tree needs. */
  lemma {:induction false} FitTestIsMinimum(tree: Tree, leaves: seq<Leaf>, s: Setup)
    requires s.drawer || NoOpenRail(leaves)
    ensures Required(tree, leaves, s) == MinimumWidth(tree, leaves, s)
    decreases tree, 1
  {
    if LeafOf(tree, leaves).None? && tree.Split? {
      FitTestsAreMinimums(tree.children, leaves, s);
    }
  }

  lemma {:induction false} FitTestsAreMinimums(children: seq<Branch>, leaves: seq<Leaf>, s: Setup)
    requires s.drawer || NoOpenRail(leaves)
    ensures RequiredSum(children, leaves, s) == MinimumSum(children, leaves, s)
    ensures RequiredMax(children, leaves, s) == MinimumMax(children, leaves, s)
    decreases children, 0
  {
    if children != [] {
      assert children[0].tree < children[0];
      FitTestIsMinimum(children[0].tree, leaves, s);
      FitTestsAreMinimums(children[1..], leaves, s);
    }
  }

  // ----- which width a row of stacks needs, exactly -----

  /** In a row with exactly one branch bearing source text, whose minimum exceeds
      one pixel, that branch gets its minimum exactly when the whole row's minimum
      fits. */
  lemma RowExact(children: seq<Branch>, leaves: seq<Leaf>, s: Setup, width: real, j: nat)
    requires Sane(s) && MeasuresSane(leaves)
    requires j < |children| && HasSource(children[j].tree, leaves)
    requires forall i :: 0 <= i < |children| && HasSource(children[i].tree, leaves) ==> i == j
    requires MinimumWidth(children[j].tree, leaves, s) > 1.0
    ensures ChildWidths(Row, children, leaves, s, width)[j] >= MinimumWidth(children[j].tree, leaves, s)
            <==> MinimumWidth(Split(Row, children), leaves, s) <= width
  {
    hide MinimumWidth, HasSource;
    var kids := Kids(children, leaves, s);
    KidsSensible(children, leaves, s);
    KidMinimums(children, leaves, s);
    RowMinimum(children, leaves, s);
    SourcesExactlyOne(kids, j);
    assert kids[j].minimum == MinimumWidth(children[j].tree, leaves, s);
    OneMinimum(kids, s.rail, j);
    OneSourceRowExact(kids, s.rail, width, j);
  }

  lemma RowMinimum(children: seq<Branch>, leaves: seq<Leaf>, s: Setup)
    ensures MinimumWidth(Split(Row, children), leaves, s) == MinimumSum(children, leaves, s) + Gaps(|children|)
  {
  }

  lemma {:induction false} SourcesExactlyOne(kids: seq<Kid>, j: nat)
    requires j < |kids| && kids[j].source
    requires forall i :: 0 <= i < |kids| && kids[i].source ==> i == j
    ensures Sources(kids) == 1
  {
    var rest := kids[1..];
    assert forall i :: 0 <= i < |rest| ==> rest[i] == kids[i + 1];
    if j == 0 {
      NoneCounted(rest);
    } else {
      assert rest[j - 1].source;
      SourcesExactlyOne(rest, j - 1);
    }
  }

  lemma {:induction false} OneMinimum(kids: seq<Kid>, rail: real, j: nat)
    requires j < |kids| && Sensible(kids, rail)
    ensures Minimums(kids) >= kids[j].minimum
  {
    var rest := kids[1..];
    assert forall i :: 0 <= i < |rest| ==> rest[i] == kids[i + 1];
    if j > 0 {
      OneMinimum(rest, rail, j - 1);
    } else {
      MinimumsPositive(rest, rail);
    }
  }

  lemma {:induction false} MinimumsPositive(kids: seq<Kid>, rail: real)
    requires Sensible(kids, rail)
    ensures Minimums(kids) >= 0.0
  {
    if kids != [] {
      var rest := kids[1..];
      assert forall i :: 0 <= i < |rest| ==> rest[i] == kids[i + 1];
      assert kids[0].minimum >= 0.0;
      MinimumsPositive(rest, rail);
    }
  }

  // ----- exactly which width is enough -----

  /** The width a tree needs for all its stacks to get their minimums or, if not
      `all`, for its source stacks to get their measures. A row asks for its source
      branch only, since the others hold on to their minimums; below a pixel the
      solver's floor gives that branch all it needs. */
  function Demand(tree: Tree, leaves: seq<Leaf>, s: Setup, all: bool): real
    decreases tree, 1
  {
    match tree
    case Stack(_) =>
      var leaf := LeafOf(tree, leaves);
      if all then MinimumWidth(tree, leaves, s)
      else if leaf.Some? && leaf.value.kind == Source then leaf.value.measure
      else 0.0
    case Split(Column, children) => DemandMax(children, leaves, s, all, false)
    case Split(Row, children) =>
      if DemandMax(children, leaves, s, all, true) <= 1.0 then 0.0
      else DemandSum(children, leaves, s, all) + Gaps(|children|)
  }

  /** The largest demand of the branches, or of those with source text. */
  function DemandMax(children: seq<Branch>, leaves: seq<Leaf>, s: Setup, all: bool, sources: bool): real
    decreases children, 0
  {
    if children == [] then 0.0
    else
      assert children[0].tree < children[0];
      var rest := DemandMax(children[1..], leaves, s, all, sources);
      if sources && !HasSource(children[0].tree, leaves) then rest
      else Max(Demand(children[0].tree, leaves, s, all), rest)
  }

  /** The demands of the branches with source text and the minimums of the others. */
  function DemandSum(children: seq<Branch>, leaves: seq<Leaf>, s: Setup, all: bool): real
    decreases children, 0
  {
    if children == [] then 0.0
    else
      assert children[0].tree < children[0];
      (if HasSource(children[0].tree, leaves) then Demand(children[0].tree, leaves, s, all)
       else MinimumWidth(children[0].tree, leaves, s)) +
      DemandSum(children[1..], leaves, s, all)
  }

  lemma {:induction false} DemandModest(tree: Tree, leaves: seq<Leaf>, s: Setup, all: bool)
    requires Sane(s) && MeasuresSane(leaves) && SourcesOpen(leaves)
    ensures 0.0 <= Demand(tree, leaves, s, all) <= MinimumWidth(tree, leaves, s)
    decreases tree, 1
  {
    hide HasSource;
    if tree.Split? {
      DemandsModest(tree.children, leaves, s, all);
    } else {
      MinimumNonNegative(tree, leaves, s);
    }
  }

  lemma {:induction false} DemandsModest(children: seq<Branch>, leaves: seq<Leaf>, s: Setup, all: bool)
    requires Sane(s) && MeasuresSane(leaves) && SourcesOpen(leaves)
    ensures 0.0 <= DemandMax(children, leaves, s, all, false) <= MinimumMax(children, leaves, s)
    ensures 0.0 <= DemandSum(children, leaves, s, all) <= MinimumSum(children, leaves, s)
    decreases children, 0
  {
    hide HasSource, Demand, MinimumWidth;
    if children != [] {
      assert children[0].tree < children[0];
      DemandModest(children[0].tree, leaves, s, all);
      DemandsModest(children[1..], leaves, s, all);
    }
  }

  lemma {:induction false} DemandInMax(
    children: seq<Branch>, leaves: seq<Leaf>, s: Setup, all: bool, sources: bool, d: real)
    ensures DemandMax(children, leaves, s, all, sources) <= d <==>
            && 0.0 <= d
            && forall i :: 0 <= i < |children| && (sources ==> HasSource(children[i].tree, leaves)) ==>
                 Demand(children[i].tree, leaves, s, all) <= d
  {
    hide Demand, HasSource;
    if children != [] {
      DemandInMax(children[1..], leaves, s, all, sources, d);
      assert forall i :: 0 < i < |children| ==> children[i] == children[1..][i - 1];
      assert forall i :: 0 <= i < |children[1..]| ==> children[1..][i] == children[i + 1];
    }
  }

  lemma {:induction false} TilesInside(children: seq<Branch>, i: nat)
    requires i < |children|
    ensures forall t :: t in Tiles(children[i].tree) ==> t in TilesOf(children)
  {
    hide Tiles;
    if i > 0 {
      TilesInside(children[1..], i - 1);
    }
  }

  lemma SourceInside(tree: Tree, leaves: seq<Leaf>, i: nat)
    requires tree.Split? && i < |tree.children| && HasSource(tree.children[i].tree, leaves)
    ensures HasSource(tree, leaves)
  {
    hide IsSourceAnchor;
    var child := tree.children[i].tree;
    TilesInside(tree.children, i);
    var k :| 0 <= k < |Tiles(child)| && IsSourceAnchor(leaves, Tiles(child)[k]);
    assert Tiles(child)[k] in Tiles(child);
    assert Tiles(child)[k] in Tiles(tree);
  }

  lemma StackWithSource(tree: Tree, leaves: seq<Leaf>)
    requires LeafOf(tree, leaves).Some? && LeafOf(tree, leaves).value.kind == Source
    ensures HasSource(tree, leaves)
  {
    var leaf := LeafOf(tree, leaves).value;
    var i :| 0 <= i < |leaves| && leaves[i] == leaf;
    assert IsSourceAnchor(leaves, Tiles(tree)[0]);
  }

  /** A tree without source text has no measure to keep. */
  lemma {:induction false} NoSourceKept(tree: Tree, leaves: seq<Leaf>, s: Setup, width: real)
    requires !HasSource(tree, leaves)
    ensures Kept(tree, leaves, s, false, width)
    decreases tree
  {
    hide HasSource, ChildWidths, LeafOf;
    if tree.Stack? {
      if LeafOf(tree, leaves).Some? && LeafOf(tree, leaves).value.kind == Source {
        StackWithSource(tree, leaves);
      }
    } else {
      forall i | 0 <= i < |tree.children|
        ensures Kept(tree.children[i].tree, leaves, s, false,
                     ChildWidths(tree.axis, tree.children, leaves, s, width)[i])
      {
        if HasSource(tree.children[i].tree, leaves) {
          SourceInside(tree, leaves, i);
        }
        NoSourceKept(tree.children[i].tree, leaves, s, ChildWidths(tree.axis, tree.children, leaves, s, width)[i]);
      }
    }
  }

  /** A branch of a row without source text always gets what it needs. */
  lemma SideKept(children: seq<Branch>, leaves: seq<Leaf>, s: Setup, all: bool, width: real, i: nat)
    requires Sane(s) && MeasuresSane(leaves) && i < |children| && !HasSource(children[i].tree, leaves)
    requires OneSourcePerRow(children[i].tree, leaves)
    ensures Kept(children[i].tree, leaves, s, all, ChildWidths(Row, children, leaves, s, width)[i])
  {
    hide HasSource, MinimumWidth, RowWidths, Kept;
    var w := ChildWidths(Row, children, leaves, s, width)[i];
    if all {
      KidsSensible(children, leaves, s);
      SideKeepsMinimum(Kids(children, leaves, s), s.rail, width, i);
      EveryStackFits(children[i].tree, leaves, s, w);
    } else {
      NoSourceKept(children[i].tree, leaves, s, w);
    }
  }

  /** In a row with the one source branch `j`, its demand and the minimums of the
      others are the row's. */
  lemma {:induction false} DemandOfRow(children: seq<Branch>, leaves: seq<Leaf>, s: Setup, all: bool, j: nat)
    requires j < |children| && HasSource(children[j].tree, leaves)
    requires forall i :: 0 <= i < |children| && HasSource(children[i].tree, leaves) ==> i == j
    ensures DemandSum(children, leaves, s, all) ==
            Demand(children[j].tree, leaves, s, all) + SideMinimums(Kids(children, leaves, s))
  {
    hide HasSource, Demand, MinimumWidth, IsRail, IsReading, LeafOf, Kids;
    KidsUnfold(children, leaves, s);
    assert forall i :: 0 < i < |children| ==> children[i] == children[1..][i - 1];
    assert forall i :: 0 <= i < |children[1..]| ==> children[1..][i] == children[i + 1];
    if j > 0 {
      DemandOfRow(children[1..], leaves, s, all, j - 1);
    } else {
      DemandOfSides(children[1..], leaves, s, all);
    }
  }

  lemma KidsUnfold(children: seq<Branch>, leaves: seq<Leaf>, s: Setup)
    requires children != []
    ensures Kids(children, leaves, s)[1..] == Kids(children[1..], leaves, s)
  {
    hide KidOf;
  }

  lemma {:induction false} DemandOfSides(children: seq<Branch>, leaves: seq<Leaf>, s: Setup, all: bool)
    requires forall i :: 0 <= i < |children| ==> !HasSource(children[i].tree, leaves)
    ensures DemandSum(children, leaves, s, all) == SideMinimums(Kids(children, leaves, s))
  {
    hide HasSource, Demand, MinimumWidth;
    if children != [] {
      assert forall i :: 0 <= i < |children[1..]| ==> children[1..][i] == children[i + 1];
      assert Kids(children, leaves, s)[1..] == Kids(children[1..], leaves, s);
      DemandOfSides(children[1..], leaves, s, all);
    }
  }

  lemma SourceDemand(children: seq<Branch>, leaves: seq<Leaf>, s: Setup, all: bool, j: nat)
    requires j < |children| && HasSource(children[j].tree, leaves) && Demand(children[j].tree, leaves, s, all) >= 0.0
    requires forall i :: 0 <= i < |children| && HasSource(children[i].tree, leaves) ==> i == j
    ensures DemandMax(children, leaves, s, all, true) == Demand(children[j].tree, leaves, s, all)
  {
    hide Demand, HasSource;
    DemandInMax(children, leaves, s, all, true, DemandMax(children, leaves, s, all, true));
    DemandInMax(children, leaves, s, all, true, Demand(children[j].tree, leaves, s, all));
  }

  /** The one source branch of a row gets its demand exactly when the row does. */
  lemma RowMeetsDemand(children: seq<Branch>, leaves: seq<Leaf>, s: Setup, all: bool, width: real, j: nat)
    requires Sane(s) && MeasuresSane(leaves) && SourcesOpen(leaves) && width >= 0.0
    requires j < |children| && HasSource(children[j].tree, leaves)
    requires forall i :: 0 <= i < |children| && HasSource(children[i].tree, leaves) ==> i == j
    ensures ChildWidths(Row, children, leaves, s, width)[j] >= Demand(children[j].tree, leaves, s, all) <==>
            Demand(Split(Row, children), leaves, s, all) <= width
  {
    hide HasSource, MinimumWidth, RowWidths, SideMinimums;
    var kids, d := Kids(children, leaves, s), Demand(children[j].tree, leaves, s, all);
    KidsSensible(children, leaves, s);
    DemandModest(children[j].tree, leaves, s, all);
    SourceDemand(children, leaves, s, all, j);
    assert kids[j].minimum == MinimumWidth(children[j].tree, leaves, s);
    if d <= 1.0 {
      SourceGetsExactly(kids, s.rail, width, j, d);
    } else {
      SourcesExactlyOne(kids, j);
      OneSourceGetsExactly(kids, s.rail, width, j, d);
      DemandOfRow(children, leaves, s, all, j);
      SidesPositive(kids, s.rail);
    }
  }

  lemma {:induction false} SidesPositive(kids: seq<Kid>, rail: real)
    requires Sensible(kids, rail)
    ensures SideMinimums(kids) >= 0.0
  {
    if kids != [] {
      var rest := kids[1..];
      assert forall i :: 0 <= i < |rest| ==> rest[i] == kids[i + 1];
      assert kids[0].minimum >= 0.0;
      SidesPositive(rest, rail);
    }
  }

  /** If no row has two branches with source text, a layout of the tree gives every
      stack its minimum, or every source stack its measure, at every depth, exactly
      when the frame is as wide as the tree's demand. */
  lemma {:induction false} KeptExactly(tree: Tree, leaves: seq<Leaf>, s: Setup, all: bool, width: real)
    requires Sane(s) && MeasuresSane(leaves) && SourcesOpen(leaves) && OneSourcePerRow(tree, leaves) && width >= 0.0
    ensures Kept(tree, leaves, s, all, width) <==> Demand(tree, leaves, s, all) <= width
    decreases tree, 1
  {
    hide HasSource, ChildWidths, LeafOf, MinimumWidth;
    match tree {
      case Stack(_) =>
      case Split(Column, children) => ColumnKeptExactly(children, leaves, s, all, width);
      case Split(Row, children) =>
        if j: nat :| j < |children| && HasSource(children[j].tree, leaves) {
          RowKeptExactly(children, leaves, s, all, width, j);
        } else {
          forall i | 0 <= i < |children|
            ensures Kept(children[i].tree, leaves, s, all, ChildWidths(Row, children, leaves, s, width)[i])
          {
            SideKept(children, leaves, s, all, width, i);
          }
          DemandInMax(children, leaves, s, all, true, 0.0);
        }
    }
  }

  lemma ColumnKeptExactly(children: seq<Branch>, leaves: seq<Leaf>, s: Setup, all: bool, width: real)
    requires Sane(s) && MeasuresSane(leaves) && SourcesOpen(leaves) && width >= 0.0
    requires OneSourcePerRow(Split(Column, children), leaves)
    ensures Kept(Split(Column, children), leaves, s, all, width) <==>
            Demand(Split(Column, children), leaves, s, all) <= width
    decreases Split(Column, children), 0
  {
    hide HasSource;
    var tree := Split(Column, children);
    forall i | 0 <= i < |children|
      ensures Kept(children[i].tree, leaves, s, all, width) <==> Demand(children[i].tree, leaves, s, all) <= width
    {
      assert tree.children[i].tree < tree;
      KeptExactly(children[i].tree, leaves, s, all, width);
    }
    DemandInMax(children, leaves, s, all, false, width);
  }

  lemma RowKeptExactly(children: seq<Branch>, leaves: seq<Leaf>, s: Setup, all: bool, width: real, j: nat)
    requires Sane(s) && MeasuresSane(leaves) && SourcesOpen(leaves) && width >= 0.0
    requires OneSourcePerRow(Split(Row, children), leaves)
    requires j < |children| && HasSource(children[j].tree, leaves)
    ensures Kept(Split(Row, children), leaves, s, all, width) <==>
            Demand(Split(Row, children), leaves, s, all) <= width
    decreases Split(Row, children), 0
  {
    hide HasSource, Demand;
    var tree, widths := Split(Row, children), ChildWidths(Row, children, leaves, s, width);
    forall i | 0 <= i < |children| && i != j ensures Kept(children[i].tree, leaves, s, all, widths[i]) {
      SideKept(children, leaves, s, all, width, i);
    }
    KidsSensible(children, leaves, s);
    RowNonNegative(Kids(children, leaves, s), s.rail, width);
    assert tree.children[j].tree < tree;
    KeptExactly(children[j].tree, leaves, s, all, widths[j]);
    RowMeetsDemand(children, leaves, s, all, width, j);
  }

  /** In a row with any number of source branches: one whose minimum exceeds a pixel
      gets it exactly when its share suffices. */
  lemma RowShareExact(children: seq<Branch>, leaves: seq<Leaf>, s: Setup, width: real, i: nat)
    requires Sane(s) && MeasuresSane(leaves)
    requires i < |children| && HasSource(children[i].tree, leaves)
    requires MinimumWidth(children[i].tree, leaves, s) > 1.0
    ensures
      var kids := Kids(children, leaves, s);
      var available := Available(width, |children|);
      var start := Initial(kids, available, FractionTotal(kids), s.rail);
      ChildWidths(Row, children, leaves, s, width)[i] >= MinimumWidth(children[i].tree, leaves, s) <==>
      ShareSuffices(start[i], SourceTotal(kids, start), SideMinimums(kids), available,
                    MinimumWidth(children[i].tree, leaves, s))
  {
    hide HasSource, MinimumWidth, RowWidths, ShareSuffices, Initial, SourceTotal, SideMinimums, FractionTotal, Available;
    var kids := Kids(children, leaves, s);
    KidsSensible(children, leaves, s);
    assert kids[i].minimum == MinimumWidth(children[i].tree, leaves, s);
    SourceGetsExactly(kids, s.rail, width, i, kids[i].minimum);
  }

  // ----- the presented splits -----

  /** Some emitted fraction differs visibly from the canonical one. */
  predicate Departs(children: seq<Branch>, fractions: seq<real>)
    requires |fractions| == |children|
  {
    exists i :: 0 <= i < |children| &&
                (fractions[i] - children[i].fraction > 0.0001 || children[i].fraction - fractions[i] > 0.0001)
  }

  /** What is presented for a split itself: new fractions for a row that departs
      from its canonical ones, nothing otherwise. */
  function Own(axis: Axis, children: seq<Branch>, leaves: seq<Leaf>, s: Setup, width: real): (r: Option<seq<real>>)
    ensures r.Some? ==> axis == Row && |r.value| == |children|
  {
    var fractions := Fractions(Kids(children, leaves, s), ChildWidths(axis, children, leaves, s, width));
    if axis == Row && Departs(children, fractions) then Some(fractions) else None
  }

  /** A row keeps its own fractions only while every solved one is within a ten
      thousandth of its own. */
  lemma UnemittedIsClose(children: seq<Branch>, leaves: seq<Leaf>, s: Setup, width: real)
    ensures
      var fractions := Fractions(Kids(children, leaves, s), ChildWidths(Row, children, leaves, s, width));
      var own := Own(Row, children, leaves, s, width);
      && (own.None? <==> forall i :: 0 <= i < |children| ==> -0.0001 <= fractions[i] - children[i].fraction <= 0.0001)
      && (own.Some? ==> own.value == fractions)
  {
    hide Fractions, ChildWidths, Kids;
  }

  function Splits(tree: Tree, leaves: seq<Leaf>, s: Setup, width: real, path: seq<nat>): seq<SplitPresentation>
    decreases tree, 1
  {
    match tree
    case Stack(_) => []
    case Split(axis, children) =>
      var own := Own(axis, children, leaves, s, width);
      (if own.Some? then [SplitPresentation(path, own.value)] else []) +
      SplitsIn(children, ChildWidths(axis, children, leaves, s, width), leaves, s, path, 0)
  }

  /** The splits presented below branches that start at index `first`. */
  function SplitsIn(
    children: seq<Branch>, widths: seq<real>, leaves: seq<Leaf>, s: Setup, path: seq<nat>, first: nat): seq<SplitPresentation>
    requires |widths| == |children|
    decreases children, 0
  {
    if children == [] then []
    else
      assert children[0].tree < children[0];
      Splits(children[0].tree, leaves, s, widths[0], path + [first]) +
      SplitsIn(children[1..], widths[1..], leaves, s, path, first + 1)
  }

  /** What is presented for the subtree at `path`. */
  function Presented(tree: Tree, leaves: seq<Leaf>, s: Setup, width: real, path: seq<nat>): Option<seq<real>>
    decreases |path|
  {
    if tree.Stack? then None
    else if path == [] then Own(tree.axis, tree.children, leaves, s, width)
    else if path[0] < |tree.children| then
      Presented(tree.children[path[0]].tree, leaves, s,
                ChildWidths(tree.axis, tree.children, leaves, s, width)[path[0]], path[1..])
    else None
  }

  /** A split presentation with a path below `path` is emitted exactly when it is
      what the row at that path gets. */
  lemma {:induction false} SplitsAreRows(
    tree: Tree, leaves: seq<Leaf>, s: Setup, width: real, path: seq<nat>, below: seq<nat>,
    fractions: seq<real>)
    ensures SplitPresentation(path + below, fractions) in Splits(tree, leaves, s, width, path) <==>
            Presented(tree, leaves, s, width, below) == Some(fractions)
    decreases tree, 1
  {
    hide Own, ChildWidths;
    if tree.Split? {
      var sp := SplitPresentation(path + below, fractions);
      var own := Own(tree.axis, tree.children, leaves, s, width);
      var widths := ChildWidths(tree.axis, tree.children, leaves, s, width);
      SplitsInAreRows(tree.children, widths, leaves, s, path, 0, below, fractions);
      var first := if own.Some? then [SplitPresentation(path, own.value)] else [];
      assert sp in Splits(tree, leaves, s, width, path) <==>
             sp in first || sp in SplitsIn(tree.children, widths, leaves, s, path, 0);
      if below == [] {
        assert path + below == path;
      } else {
        assert |path + below| != |path|;
      }
    }
  }

  lemma OtherBranch(path: seq<nat>, first: nat, below: seq<nat>)
    requires below == [] || below[0] != first
    ensures !(path + [first] <= path + below)
  {
    if below != [] {
      assert (path + below)[|path|] == below[0];
    }
  }

  lemma {:induction false} SplitsInAreRows(
    children: seq<Branch>, widths: seq<real>, leaves: seq<Leaf>, s: Setup, path: seq<nat>, first: nat,
    below: seq<nat>, fractions: seq<real>)
    requires |widths| == |children|
    ensures SplitPresentation(path + below, fractions) in SplitsIn(children, widths, leaves, s, path, first) <==>
            && below != [] && first <= below[0] < first + |children|
            && Presented(children[below[0] - first].tree, leaves, s, widths[below[0] - first], below[1..]) == Some(fractions)
    decreases children, 0
  {
    hide Presented, Splits;
    if children != [] {
      assert children[0].tree < children[0];
      var sp := SplitPresentation(path + below, fractions);
      var here := Splits(children[0].tree, leaves, s, widths[0], path + [first]);
      SplitsInAreRows(children[1..], widths[1..], leaves, s, path, first + 1, below, fractions);
      SplitPathsExtend(children[0].tree, leaves, s, widths[0], path + [first]);
      if below != [] && below[0] == first {
        assert path + below == path + [first] + below[1..];
        SplitsAreRows(children[0].tree, leaves, s, widths[0], path + [first], below[1..], fractions);
      } else {
        OtherBranch(path, first, below);
        assert sp !in here;
      }
    }
  }

  lemma {:induction false} SplitPathsExtend(tree: Tree, leaves: seq<Leaf>, s: Setup, width: real, path: seq<nat>)
    ensures forall sp :: sp in Splits(tree, leaves, s, width, path) ==> path <= sp.path
    decreases tree, 1
  {
    hide Own, ChildWidths;
    if tree.Split? {
      SplitPathsInExtend(tree.children, ChildWidths(tree.axis, tree.children, leaves, s, width), leaves, s, path, 0);
    }
  }

  lemma {:induction false} SplitPathsInExtend(
    children: seq<Branch>, widths: seq<real>, leaves: seq<Leaf>, s: Setup, path: seq<nat>, first: nat)
    requires |widths| == |children|
    ensures forall sp :: sp in SplitsIn(children, widths, leaves, s, path, first) ==> path <= sp.path
    decreases children, 0
  {
    hide Splits;
    if children != [] {
      assert children[0].tree < children[0];
      SplitPathsExtend(children[0].tree, leaves, s, widths[0], path + [first]);
      SplitPathsInExtend(children[1..], widths[1..], leaves, s, path, first + 1);
    }
  }

  /** Walks the tree, pushing and popping branch indices, and collects the splits. */
  method Constrain(tree: Tree, leaves: seq<Leaf>, s: Setup, width: real, path: seq<nat>, before: seq<SplitPresentation>)
    returns (splits: seq<SplitPresentation>)
    ensures splits == before + Splits(tree, leaves, s, width, path)
    decreases tree, 1
  {
    hide Own, ChildWidths, SplitsIn;
    splits := before;
    if tree.Stack? {
      return;
    }
    var widths := Widths(tree.axis, tree.children, leaves, s, width);
    var own := Own(tree.axis, tree.children, leaves, s, width);
    if own.Some? {
      splits := splits + [SplitPresentation(path, own.value)];
    }
    splits := ConstrainBranches(tree, widths, leaves, s, path, splits);
  }

  method Widths(axis: Axis, children: seq<Branch>, leaves: seq<Leaf>, s: Setup, width: real) returns (widths: seq<real>)
    ensures widths == ChildWidths(axis, children, leaves, s, width)
  {
    hide RowWidths;
    widths := seq(|children|, _ => width);
    if axis == Row {
      widths := AllocateRow(Kids(children, leaves, s), s.rail, width);
    }
  }

  method ConstrainBranches(
    tree: Tree, widths: seq<real>, leaves: seq<Leaf>, s: Setup, path: seq<nat>, before: seq<SplitPresentation>)
    returns (splits: seq<SplitPresentation>)
    requires tree.Split? && |widths| == |tree.children|
    ensures splits == before + SplitsIn(tree.children, widths, leaves, s, path, 0)
    decreases tree, 0
  {
    hide Splits;
    splits := before;
    var children := tree.children;
    var trail := path;
    for i := 0 to |children|
      invariant trail == path
      invariant splits + SplitsIn(children[i..], widths[i..], leaves, s, path, i) ==
                before + SplitsIn(children, widths, leaves, s, path, 0)
    {
      assert children[i..][1..] == children[i + 1..] && widths[i..][1..] == widths[i + 1..];
      assert children[i..][0] == children[i] && widths[i..][0] == widths[i];
      trail := trail + [i];
      splits := Constrain(children[i].tree, leaves, s, widths[i], trail, splits);
      trail := trail[..|trail| - 1];
    }
  }
}

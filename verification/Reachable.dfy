/** Which packages a package graph reaches from its root by normal dependencies,
    with a shortest explanation for each. */
module Reachable {
  import opened Wrappers

  type Id = string

  /** A dependency with its kinds; a normal one has no name. */
  datatype Dep = Dep(pkg: Id, kinds: seq<Option<string>>)

  type Graph = map<Id, seq<Dep>>

  predicate Linked(d: Dep) {
    exists k :: 0 <= k < |d.kinds| && d.kinds[k].None?
  }

  ghost predicate Edge(g: Graph, a: Id, b: Id) {
    a in g && exists i :: 0 <= i < |g[a]| && None in g[a][i].kinds && g[a][i].pkg == b
  }

  /** Every dependency is a node of the resolved graph. */
  ghost predicate Resolved(g: Graph) {
    forall a, i :: a in g && 0 <= i < |g[a]| ==> g[a][i].pkg in g
  }

  /** A walk along normal edges. */
  ghost predicate Walk(g: Graph, p: seq<Id>) {
    p != [] && forall k :: 0 <= k < |p| - 1 ==> Edge(g, p[k], p[k + 1])
  }

  ghost predicate WalkBetween(g: Graph, a: Id, b: Id, p: seq<Id>) {
    Walk(g, p) && p[0] == a && p[|p| - 1] == b
  }

  ghost predicate Reaches(g: Graph, a: Id, b: Id) {
    exists p :: WalkBetween(g, a, b, p)
  }

  // ----- the search -----

  type Parents = map<Id, Option<Id>>

  type Depths = map<Id, nat>

  /** Each package found has a parent one step nearer the root. */
  ghost predicate Tree(g: Graph, root: Id, parent: Parents, depth: Depths) {
    && parent.Keys == depth.Keys && parent.Keys <= g.Keys
    && root in parent && parent[root] == None && depth[root] == 0
    && forall x :: x in parent && x != root ==> Nearer(g, parent, depth, x)
  }

  ghost predicate Nearer(g: Graph, parent: Parents, depth: Depths, x: Id)
    requires x in parent
  {
    && parent[x].Some? && parent[x].value in depth && x in depth
    && Edge(g, parent[x].value, x) && depth[x] == depth[parent[x].value] + 1
  }

  /** The queue holds found packages in order of depth, none of them, nor any package
      found, more than one deeper than `level`. */
  ghost predicate Level(depth: Depths, queue: seq<Id>, level: nat) {
    && (forall i :: 0 <= i < |queue| ==> queue[i] in depth && level <= depth[queue[i]])
    && (forall i, j :: 0 <= i < j < |queue| ==>
          queue[i] in depth && queue[j] in depth && depth[queue[i]] <= depth[queue[j]])
    && (forall x :: x in depth ==> depth[x] <= level + 1)
  }

  /** The first `n` dependencies of `x` are found, at most one deeper. */
  ghost predicate Handled(g: Graph, depth: Depths, x: Id, n: nat)
    requires x in g && n <= |g[x]| && x in depth
  {
    forall i :: 0 <= i < n && Linked(g[x][i]) ==> g[x][i].pkg in depth && depth[g[x][i].pkg] <= depth[x] + 1
  }

  /** Whatever is found and not waiting has all its dependencies handled. */
  ghost predicate Settled(g: Graph, depth: Depths, waiting: seq<Id>) {
    forall x :: x in depth && x !in waiting ==> x in g && Handled(g, depth, x, |g[x]|)
  }

  ghost predicate Good(g: Graph, root: Id, parent: Parents, depth: Depths, queue: seq<Id>) {
    && Tree(g, root, parent, depth)
    && Settled(g, depth, queue)
    && (queue != [] ==> queue[0] in depth && Level(depth, queue, depth[queue[0]]))
  }

  /** The state while the dependencies of `current` are visited. */
  ghost predicate Visiting(g: Graph, root: Id, parent: Parents, depth: Depths, queue: seq<Id>, current: Id, n: nat) {
    && Tree(g, root, parent, depth)
    && current in depth && current in g && n <= |g[current]|
    && Settled(g, depth, [current] + queue)
    && Level(depth, queue, depth[current])
    && Handled(g, depth, current, n)
  }

  lemma PopStep(g: Graph, root: Id, parent: Parents, depth: Depths, queue: seq<Id>)
    requires Good(g, root, parent, depth, queue) && queue != []
    ensures Visiting(g, root, parent, depth, queue[1..], queue[0], 0)
  {
    hide Tree, Handled, Level, Settled;
    assert queue == [queue[0]] + queue[1..];
    TreeKeys(g, root, parent, depth);
    LevelRest(depth, queue, depth[queue[0]]);
    NothingHandled(g, depth, queue[0]);
  }

  lemma TreeKeys(g: Graph, root: Id, parent: Parents, depth: Depths)
    requires Tree(g, root, parent, depth)
    ensures parent.Keys == depth.Keys && depth.Keys <= g.Keys
  {
  }

  lemma LevelRest(depth: Depths, queue: seq<Id>, level: nat)
    requires queue != [] && Level(depth, queue, level)
    ensures Level(depth, queue[1..], level)
  {
    var rest := queue[1..];
    assert forall i :: 0 <= i < |rest| ==> rest[i] == queue[i + 1];
  }

  lemma NothingHandled(g: Graph, depth: Depths, x: Id)
    requires x in g && x in depth
    ensures Handled(g, depth, x, 0)
  {
  }

  lemma SkipStep(g: Graph, root: Id, parent: Parents, depth: Depths, queue: seq<Id>, current: Id, n: nat)
    requires Visiting(g, root, parent, depth, queue, current, n) && n < |g[current]|
    requires Linked(g[current][n]) ==> g[current][n].pkg in parent
    ensures Visiting(g, root, parent, depth, queue, current, n + 1)
  {
    hide Tree, Settled;
    TreeKeys(g, root, parent, depth);
  }

  lemma FoundTree(g: Graph, root: Id, parent: Parents, depth: Depths, current: Id, x: Id)
    requires Tree(g, root, parent, depth) && current in depth && x !in parent && x in g && Edge(g, current, x)
    ensures Tree(g, root, parent[x := Some(current)], depth[x := depth[current] + 1])
  {
    hide Edge;
    var p, d := parent[x := Some(current)], depth[x := depth[current] + 1];
    forall y | y in p && y != root ensures Nearer(g, p, d, y) {
      if y != x {
        assert Nearer(g, parent, depth, y);
      }
    }
  }

  lemma FoundLevel(depth: Depths, queue: seq<Id>, current: Id, x: Id)
    requires current in depth && Level(depth, queue, depth[current]) && x !in depth
    ensures Level(depth[x := depth[current] + 1], queue + [x], depth[current])
  {
    var q, d := queue + [x], depth[x := depth[current] + 1];
    assert forall i :: 0 <= i < |queue| ==> q[i] == queue[i] && queue[i] != x;
  }

  lemma FoundHandled(g: Graph, depth: Depths, y: Id, n: nat, x: Id, deep: nat)
    requires y in g && n <= |g[y]| && y in depth && x !in depth && Handled(g, depth, y, n)
    ensures Handled(g, depth[x := deep], y, n)
  {
  }

  lemma FoundSettled(g: Graph, depth: Depths, waiting: seq<Id>, x: Id, deep: nat)
    requires Settled(g, depth, waiting) && x !in depth
    ensures Settled(g, depth[x := deep], waiting + [x])
  {
    hide Handled;
    forall y | y in depth[x := deep] && y !in waiting + [x]
      ensures y in g && Handled(g, depth[x := deep], y, |g[y]|)
    {
      assert y != x by { assert x in waiting + [x]; }
      FoundHandled(g, depth, y, |g[y]|, x, deep);
    }
  }

  lemma FoundStep(g: Graph, root: Id, parent: Parents, depth: Depths, queue: seq<Id>, current: Id, n: nat)
    requires Resolved(g) && Visiting(g, root, parent, depth, queue, current, n) && n < |g[current]|
    requires Linked(g[current][n]) && g[current][n].pkg !in parent
    ensures
      var x := g[current][n].pkg;
      Visiting(g, root, parent[x := Some(current)], depth[x := depth[current] + 1], queue + [x], current, n + 1)
  {
    hide Tree, Settled, Level;
    var x := g[current][n].pkg;
    TreeKeys(g, root, parent, depth);
    FoundTree(g, root, parent, depth, current, x);
    FoundLevel(depth, queue, current, x);
    FoundSettled(g, depth, [current] + queue, x, depth[current] + 1);
    assert [current] + queue + [x] == [current] + (queue + [x]);
    FoundHandled(g, depth, current, n, x, depth[current] + 1);
  }

  lemma DoneStep(g: Graph, root: Id, parent: Parents, depth: Depths, queue: seq<Id>, current: Id)
    requires current in g && Visiting(g, root, parent, depth, queue, current, |g[current]|)
    ensures Good(g, root, parent, depth, queue)
  {
    hide Tree, Handled;
    assert forall x :: x in [current] + queue <==> x == current || x in queue;
  }

  /** The search visits packages breadth first. It ends because each turn takes one
      package off the queue and only packages not found before are put on it. */
  method Search(g: Graph, root: Id) returns (parent: Parents, ghost depth: Depths)
    requires root in g && Resolved(g)
    ensures Good(g, root, parent, depth, [])
    ensures forall x :: x in parent <==> Reaches(g, root, x)
  {
    hide Good, Visiting, Resolved, Reaches, WalkBetween;
    parent, depth := map[root := None], map[root := 0];
    var queue := [root];
    Started(g, root);
    while queue != []
      invariant Good(g, root, parent, depth, queue)
      invariant parent.Keys <= g.Keys
      decreases |g.Keys| - |parent.Keys| + |queue|
    {
      var current := queue[0];
      ghost var budget := |g.Keys| - |parent.Keys| + |queue|;
      PopStep(g, root, parent, depth, queue);
      queue := queue[1..];
      CurrentKnown(g, root, parent, depth, queue, current, 0);
      var deps := g[current];
      for n := 0 to |deps|
        invariant Visiting(g, root, parent, depth, queue, current, n)
        invariant parent.Keys <= g.Keys
        invariant |g.Keys| - |parent.Keys| + |queue| < budget
      {
        CurrentKnown(g, root, parent, depth, queue, current, n);
        if Linked(deps[n]) && deps[n].pkg !in parent {
          FoundStep(g, root, parent, depth, queue, current, n);
          assert parent[deps[n].pkg := Some(current)].Keys == parent.Keys + {deps[n].pkg};
          InGraph(g, current, n);
          parent := parent[deps[n].pkg := Some(current)];
          depth := depth[deps[n].pkg := depth[current] + 1];
          queue := queue + [deps[n].pkg];
        } else {
          SkipStep(g, root, parent, depth, queue, current, n);
        }
      }
      DoneStep(g, root, parent, depth, queue, current);
      Smaller(parent.Keys, g.Keys);
    }
    forall x ensures x in parent <==> Reaches(g, root, x) {
      FoundExactly(g, root, parent, depth, x);
    }
  }

  lemma Started(g: Graph, root: Id)
    requires root in g
    ensures Good(g, root, map[root := None], map[root := 0], [root])
  {
  }

  lemma CurrentKnown(g: Graph, root: Id, parent: Parents, depth: Depths, queue: seq<Id>, current: Id, n: nat)
    requires Visiting(g, root, parent, depth, queue, current, n)
    ensures current in g && current in depth && n <= |g[current]|
  {
  }

  lemma InGraph(g: Graph, x: Id, i: nat)
    requires Resolved(g) && x in g && i < |g[x]|
    ensures g[x][i].pkg in g
  {
  }

  lemma Smaller(a: set<Id>, b: set<Id>)
    requires a <= b
    ensures |a| <= |b|
  {
    assert b == a + (b - a);
  }

  // ----- what is found -----

  lemma {:induction false} WalkIsFound(g: Graph, root: Id, parent: Parents, depth: Depths, p: seq<Id>)
    requires Good(g, root, parent, depth, []) && Walk(g, p) && p[0] == root
    ensures p[|p| - 1] in depth && depth[p[|p| - 1]] <= |p| - 1
    decreases |p|
  {
    if |p| > 1 {
      var q := p[..|p| - 1];
      assert Walk(g, q) by {
        forall k | 0 <= k < |q| - 1 ensures Edge(g, q[k], q[k + 1]) {
          assert Edge(g, p[k], p[k + 1]);
        }
      }
      WalkIsFound(g, root, parent, depth, q);
      assert Edge(g, p[|p| - 2], p[|p| - 2 + 1]);
      EdgeFound(g, depth, p[|p| - 2], p[|p| - 1]);
    }
  }

  lemma EdgeFound(g: Graph, depth: Depths, a: Id, b: Id)
    requires Settled(g, depth, []) && a in depth && Edge(g, a, b)
    ensures b in depth && depth[b] <= depth[a] + 1
  {
  }

  /** The explanation of a package: from it, parent by parent, to the root. */
  function Chain(g: Graph, root: Id, parent: Parents, depth: Depths, x: Id): (chain: seq<Id>)
    requires Tree(g, root, parent, depth) && x in parent
    ensures chain != [] && chain[0] == x
    decreases depth[x]
  {
    if x == root then [x]
    else
      assert Nearer(g, parent, depth, x);
      [x] + Chain(g, root, parent, depth, parent[x].value)
  }

  method PathTo(g: Graph, root: Id, parent: Parents, ghost depth: Depths, x: Id) returns (chain: seq<Id>)
    requires Tree(g, root, parent, depth) && x in parent
    ensures chain == Chain(g, root, parent, depth, x)
  {
    hide Edge;
    chain := [];
    var at := Some(x);
    while at.Some?
      invariant at.Some? ==> at.value in parent
      invariant at.Some? ==> chain + Chain(g, root, parent, depth, at.value) == Chain(g, root, parent, depth, x)
      invariant at.None? ==> chain == Chain(g, root, parent, depth, x)
      decreases if at.Some? then depth[at.value] + 1 else 0
    {
      if at.value != root {
        assert Nearer(g, parent, depth, at.value);
      }
      chain := chain + [at.value];
      at := parent[at.value];
    }
  }

  function Reversed(s: seq<Id>): (r: seq<Id>)
    ensures |r| == |s| && forall i :: 0 <= i < |s| ==> r[i] == s[|s| - 1 - i]
  {
    if s == [] then [] else Reversed(s[1..]) + [s[0]]
  }

  lemma {:induction false} ChainWalks(g: Graph, root: Id, parent: Parents, depth: Depths, x: Id)
    requires Tree(g, root, parent, depth) && x in parent
    ensures WalkBetween(g, root, x, Reversed(Chain(g, root, parent, depth, x)))
    ensures |Chain(g, root, parent, depth, x)| == depth[x] + 1
    decreases depth[x]
  {
    hide Edge;
    var walk := Reversed(Chain(g, root, parent, depth, x));
    if x != root {
      assert Nearer(g, parent, depth, x);
      var y := parent[x].value;
      ChainWalks(g, root, parent, depth, y);
      var shorter := Reversed(Chain(g, root, parent, depth, y));
      assert Chain(g, root, parent, depth, x)[1..] == Chain(g, root, parent, depth, y);
      assert walk == shorter + [x];
      forall k | 0 <= k < |walk| - 1 ensures Edge(g, walk[k], walk[k + 1]) {
        if k < |shorter| - 1 {
          assert Edge(g, shorter[k], shorter[k + 1]);
        }
      }
    }
  }

  /** The search finds exactly the packages that normal dependencies reach, and the
      explanation of each, read from the root, is a shortest walk to it. */
  lemma FoundExactly(g: Graph, root: Id, parent: Parents, depth: Depths, x: Id)
    requires Good(g, root, parent, depth, [])
    ensures x in parent <==> Reaches(g, root, x)
    ensures x in parent ==> WalkBetween(g, root, x, Reversed(Chain(g, root, parent, depth, x)))
    ensures x in parent ==> forall p :: WalkBetween(g, root, x, p) ==> |Chain(g, root, parent, depth, x)| <= |p|
  {
    hide Settled, Level, Nearer, Walk;
    if x in parent {
      ChainWalks(g, root, parent, depth, x);
    }
    forall p | WalkBetween(g, root, x, p) ensures x in parent && depth[x] <= |p| - 1 {
      WalkIsFound(g, root, parent, depth, p);
    }
  }
}

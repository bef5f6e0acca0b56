/** The parent of each heading in an outline. */
module Outline {
  import opened Wrappers

  /** `p` is the nearest heading before `i` of a strictly smaller level. */
  ghost predicate NearestShallower(levels: seq<nat>, i: nat, p: nat)
    requires i < |levels|
  {
    p < i && levels[p] < levels[i] && forall k :: p < k < i ==> levels[k] >= levels[i]
  }

  ghost predicate NoShallower(levels: seq<nat>, i: nat)
    requires i < |levels|
  {
    forall k :: 0 <= k < i ==> levels[k] >= levels[i]
  }

  ghost predicate ParentOf(levels: seq<nat>, i: nat, parent: Option<nat>)
    requires i < |levels|
  {
    match parent
    case Some(p) => NearestShallower(levels, i, p)
    case None => NoShallower(levels, i)
  }

  ghost predicate Within(stack: seq<nat>, n: nat) {
    forall i :: 0 <= i < |stack| ==> stack[i] < n
  }

  /** Positions and levels rise from the bottom of the stack to its top. */
  ghost predicate Rising(levels: seq<nat>, stack: seq<nat>)
    requires Within(stack, |levels|)
  {
    forall i, j :: 0 <= i < j < |stack| ==> stack[i] < stack[j] && levels[stack[i]] < levels[stack[j]]
  }

  /** The heading is on the stack, or before one there that is no deeper. */
  ghost predicate CoveredBy(levels: seq<nat>, stack: seq<nat>, k: nat)
    requires Within(stack, |levels|) && k < |levels|
  {
    exists j :: 0 <= j < |stack| && k <= stack[j] && levels[k] >= levels[stack[j]]
  }

  /** The stack of open headings before `n`. */
  ghost predicate Open(levels: seq<nat>, n: nat, stack: seq<nat>)
    requires n <= |levels|
  {
    && Within(stack, n)
    && Rising(levels, stack)
    && forall k :: 0 <= k < n ==> CoveredBy(levels, stack, k)
  }

  /** Every heading gets the nearest preceding strictly shallower one, or none when
      there is none. */
  method HeadingParents(levels: seq<nat>) returns (parents: seq<Option<nat>>)
    ensures |parents| == |levels|
    ensures forall i :: 0 <= i < |levels| ==> ParentOf(levels, i, parents[i])
  {
    hide ParentOf, Rising, CoveredBy;
    parents := [];
    var ancestors: seq<nat> := [];
    NoneOpen(levels);
    for index := 0 to |levels|
      invariant |parents| == index
      invariant forall i :: 0 <= i < index ==> ParentOf(levels, i, parents[i])
      invariant Open(levels, index, ancestors)
    {
      ghost var before := ancestors;
      ancestors := PopDeeper(levels, index, ancestors);
      assert before[..|ancestors|] == ancestors;
      TopIsParent(levels, index, before, |ancestors|);
      PushKeepsOpen(levels, index, before, |ancestors|);
      parents := parents + [if ancestors == [] then None else Some(ancestors[|ancestors| - 1])];
      ancestors := ancestors + [index];
    }
  }

  /** Pops every heading at least as deep as heading `index` off the stack. */
  method PopDeeper(levels: seq<nat>, index: nat, ancestors: seq<nat>) returns (left: seq<nat>)
    requires index < |levels| && Within(ancestors, index)
    ensures left <= ancestors
    ensures forall i :: |left| <= i < |ancestors| ==> levels[ancestors[i]] >= levels[index]
    ensures left != [] ==> levels[left[|left| - 1]] < levels[index]
  {
    left := ancestors;
    while left != [] && levels[left[|left| - 1]] >= levels[index]
      invariant left <= ancestors
      invariant forall i :: |left| <= i < |ancestors| ==> levels[ancestors[i]] >= levels[index]
      decreases |left|
    {
      left := left[..|left| - 1];
    }
  }

  lemma NoneOpen(levels: seq<nat>)
    ensures Open(levels, 0, [])
  {
  }

  /** The top that stays after popping is the parent of heading `n`. */
  lemma TopIsParent(levels: seq<nat>, n: nat, stack: seq<nat>, top: nat)
    requires n < |levels| && top <= |stack| && Open(levels, n, stack)
    requires forall i :: top <= i < |stack| ==> levels[stack[i]] >= levels[n]
    requires top > 0 ==> levels[stack[top - 1]] < levels[n]
    ensures ParentOf(levels, n, if top == 0 then None else Some(stack[top - 1]))
  {
    hide CoveredBy;
    forall k | 0 <= k < n && (top > 0 ==> stack[top - 1] < k) ensures levels[k] >= levels[n] {
      AboveTop(levels, n, stack, top, k);
    }
  }

  lemma AboveTop(levels: seq<nat>, n: nat, stack: seq<nat>, top: nat, k: nat)
    requires n < |levels| && top <= |stack| && Within(stack, n) && Rising(levels, stack)
    requires forall i :: top <= i < |stack| ==> levels[stack[i]] >= levels[n]
    requires k < n && CoveredBy(levels, stack, k) && (top > 0 ==> stack[top - 1] < k)
    ensures levels[k] >= levels[n]
  {
    var j :| 0 <= j < |stack| && k <= stack[j] && levels[k] >= levels[stack[j]];
    assert forall i :: 0 <= i < top - 1 ==> stack[i] < stack[top - 1];
  }

  /** After popping and pushing, the stack is that of the next heading. */
  lemma PushKeepsOpen(levels: seq<nat>, n: nat, stack: seq<nat>, top: nat)
    requires n < |levels| && top <= |stack| && Open(levels, n, stack)
    requires forall i :: top <= i < |stack| ==> levels[stack[i]] >= levels[n]
    requires top > 0 ==> levels[stack[top - 1]] < levels[n]
    ensures Open(levels, n + 1, stack[..top] + [n])
  {
    hide CoveredBy, Rising;
    PushRises(levels, n, stack, top);
    forall k | 0 <= k < n + 1 ensures CoveredBy(levels, stack[..top] + [n], k) {
      PushCovers(levels, n, stack, top, k);
    }
  }

  lemma PushRises(levels: seq<nat>, n: nat, stack: seq<nat>, top: nat)
    requires n < |levels| && top <= |stack| && Within(stack, n) && Rising(levels, stack)
    requires top > 0 ==> levels[stack[top - 1]] < levels[n]
    ensures Rising(levels, stack[..top] + [n])
  {
    var next := stack[..top] + [n];
    forall i, j | 0 <= i < j < |next| ensures next[i] < next[j] && levels[next[i]] < levels[next[j]] {
      if j == top && i < top - 1 {
        assert stack[i] < stack[top - 1] && levels[stack[i]] < levels[stack[top - 1]];
      }
    }
  }

  lemma PushCovers(levels: seq<nat>, n: nat, stack: seq<nat>, top: nat, k: nat)
    requires n < |levels| && top <= |stack| && Within(stack, n) && k <= n
    requires k < n ==> CoveredBy(levels, stack, k)
    requires forall i :: top <= i < |stack| ==> levels[stack[i]] >= levels[n]
    ensures CoveredBy(levels, stack[..top] + [n], k)
  {
    var next := stack[..top] + [n];
    assert next[top] == n;
    if k < n {
      var j :| 0 <= j < |stack| && k <= stack[j] && levels[k] >= levels[stack[j]];
      if j < top {
        assert next[j] == stack[j];
      }
    }
  }

  /** Parents are determined: no other choice meets the contract. */
  lemma ParentIsUnique(levels: seq<nat>, i: nat, a: Option<nat>, b: Option<nat>)
    requires i < |levels| && ParentOf(levels, i, a) && ParentOf(levels, i, b)
    ensures a == b
  {
  }

  // ----- the forest -----

  ghost predicate AllParents(levels: seq<nat>, parents: seq<Option<nat>>) {
    |parents| == |levels| && forall i :: 0 <= i < |levels| ==> ParentOf(levels, i, parents[i])
  }

  /** The chain of parents from `i` up. */
  function Up(levels: seq<nat>, parents: seq<Option<nat>>, i: nat): (chain: seq<nat>)
    requires AllParents(levels, parents) && i < |levels|
    ensures chain != [] && chain[0] == i && forall k :: 0 <= k < |chain| ==> chain[k] < |levels|
    decreases i
  {
    if parents[i].None? then [i] else [i] + Up(levels, parents, parents[i].value)
  }

  /** Positions and levels strictly fall on each step up, so the chain ends, at a
      heading with none shallower before it. */
  lemma {:induction false} ChainFalls(levels: seq<nat>, parents: seq<Option<nat>>, i: nat)
    requires AllParents(levels, parents) && i < |levels|
    ensures
      var chain := Up(levels, parents, i);
      && (forall a, b :: 0 <= a < b < |chain| ==> chain[b] < chain[a] && levels[chain[b]] < levels[chain[a]])
      && NoShallower(levels, chain[|chain| - 1])
    decreases i
  {
    assert ParentOf(levels, i, parents[i]);
    if parents[i].Some? {
      var rest := Up(levels, parents, parents[i].value);
      ChainFalls(levels, parents, parents[i].value);
      var chain := Up(levels, parents, i);
      assert chain[1..] == rest && chain[|chain| - 1] == rest[|rest| - 1];
      forall a, b | 0 <= a < b < |chain| ensures chain[b] < chain[a] && levels[chain[b]] < levels[chain[a]] {
        if a == 0 && b > 1 {
          assert rest[b - 1] < rest[0] && levels[rest[b - 1]] < levels[rest[0]];
        } else if a > 0 {
          assert rest[b - 1] < rest[a - 1] && levels[rest[b - 1]] < levels[rest[a - 1]];
        }
      }
    }
  }

  /** Headings nest: a heading between a heading and its parent is, going up, below
      that same parent. */
  lemma SpansNest(levels: seq<nat>, parents: seq<Option<nat>>, i: nat, k: nat)
    requires AllParents(levels, parents) && i < |levels|
    requires parents[i].Some? && parents[i].value < k < i
    ensures parents[k].Some? && parents[k].value >= parents[i].value
  {
    assert ParentOf(levels, i, parents[i]) && ParentOf(levels, k, parents[k]);
  }
}

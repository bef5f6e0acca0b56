/** Projecting arbitrary fold ranges onto a source: a laminar family of folds,
    the byte ranges hidden when some are collapsed, and what stays collapsed
    across an edit. */
module Folding {
  import opened Wrappers

  type Byte = x: int | 0 <= x < 256

  const NEWLINE: Byte := 10
  const CARRIAGE_RETURN: Byte := 13

  datatype FoldKind = Section | List | Blockquote | CodeBlock | Div

  datatype Item = Item(kind: FoldKind, start: nat, end: nat)

  datatype Snapshot = Snapshot(source: seq<Byte>, items: seq<Item>)

  datatype Fold = Fold(index: nat, kind: FoldKind, start: nat, end: nat)

  /** Section 3 of RFC 3629: a continuation octet has the form 10xxxxxx. */
  predicate Continuation(b: Byte) {
    128 <= b < 192
  }

  predicate Boundary(source: seq<Byte>, i: nat) {
    i == 0 || i == |source| || (i < |source| && !Continuation(source[i]))
  }

  predicate Usable(source: seq<Byte>, item: Item) {
    && item.start < item.end <= |source|
    && Boundary(source, item.start) && Boundary(source, item.end)
    && NEWLINE in source[item.start..item.end]
  }

  function FoldOf(items: seq<Item>, i: nat): Fold
    requires i < |items|
  {
    Fold(i, items[i].kind, items[i].start, items[i].end)
  }

  function Candidates(snap: Snapshot, i: nat): seq<Fold>
    requires i <= |snap.items|
    decreases |snap.items| - i
  {
    if i == |snap.items| then []
    else (if Usable(snap.source, snap.items[i]) then [FoldOf(snap.items, i)] else []) + Candidates(snap, i + 1)
  }

  /** The sort key: start ascending, then end descending. */
  predicate KeyAtMost(a: Fold, b: Fold) {
    a.start < b.start || (a.start == b.start && a.end >= b.end)
  }

  function Insert(x: Fold, s: seq<Fold>): seq<Fold> {
    if s == [] then [x]
    else if KeyAtMost(x, s[0]) then [x] + s
    else [s[0]] + Insert(x, s[1..])
  }

  /** A stable sort by the key. */
  function Sort(s: seq<Fold>): seq<Fold> {
    if s == [] then [] else Insert(s[0], Sort(s[1..]))
  }

  predicate SameSpan(a: Fold, b: Fold) {
    a.start == b.start && a.end == b.end
  }

  /** `c` starts inside `f` and ends beyond it. */
  predicate Crosses(f: Fold, c: Fold) {
    c.start < f.end && c.end > f.end
  }

  predicate Conflicts(f: Fold, c: Fold) {
    SameSpan(f, c) || Crosses(f, c)
  }

  predicate Refused(accepted: seq<Fold>, c: Fold) {
    exists i :: 0 <= i < |accepted| && Conflicts(accepted[i], c)
  }

  function Accept(accepted: seq<Fold>, candidates: seq<Fold>): seq<Fold>
    decreases |candidates|
  {
    if candidates == [] then accepted
    else if Refused(accepted, candidates[0]) then Accept(accepted, candidates[1..])
    else Accept(accepted + [candidates[0]], candidates[1..])
  }

  /** The folds a snapshot offers. */
  function Normalized(snap: Snapshot): seq<Fold> {
    Accept([], Sort(Candidates(snap, 0)))
  }

  method NormalizedFolds(snap: Snapshot) returns (accepted: seq<Fold>)
    ensures accepted == Normalized(snap)
  {
    var candidates := [];
    for i := 0 to |snap.items|
      invariant candidates + Candidates(snap, i) == Candidates(snap, 0)
    {
      if Usable(snap.source, snap.items[i]) {
        candidates := candidates + [FoldOf(snap.items, i)];
      }
    }
    assert candidates + [] == candidates;
    candidates := Sort(candidates);
    accepted := [];
    assert candidates[0..] == candidates;
    for i := 0 to |candidates|
      invariant Accept(accepted, candidates[i..]) == Accept([], candidates)
    {
      assert candidates[i..][0] == candidates[i] && candidates[i..][1..] == candidates[i + 1..];
      var duplicate := exists k :: 0 <= k < |accepted| && SameSpan(accepted[k], candidates[i]);
      var crossing := exists k :: 0 <= k < |accepted| && Crosses(accepted[k], candidates[i]);
      if !duplicate && !crossing {
        accepted := accepted + [candidates[i]];
      }
    }
    assert candidates[|candidates|..] == [];
  }

  // ----- the candidates in order -----

  /** Strictly before in the sort order, the item index breaking ties. */
  predicate Before(a: Fold, b: Fold) {
    || a.start < b.start
    || (a.start == b.start && a.end > b.end)
    || (a.start == b.start && a.end == b.end && a.index < b.index)
  }

  ghost predicate Ordered(s: seq<Fold>) {
    forall i, j :: 0 <= i < j < |s| ==> Before(s[i], s[j])
  }

  /** `f` is an item of the snapshot with a line break inside, from one character of
      the source to another. */
  ghost predicate Candidate(snap: Snapshot, f: Fold) {
    && f.index < |snap.items| && snap.items[f.index] == Item(f.kind, f.start, f.end)
    && f.start < f.end <= |snap.source|
    && (f.start > 0 ==> !(128 <= snap.source[f.start] < 192))
    && (f.end < |snap.source| ==> !(128 <= snap.source[f.end] < 192))
    && exists i :: f.start <= i < f.end && snap.source[i] == NEWLINE
  }

  lemma {:induction false} CandidatesExactly(snap: Snapshot, i: nat, f: Fold)
    requires i <= |snap.items|
    ensures f in Candidates(snap, i) <==> Candidate(snap, f) && f.index >= i
    decreases |snap.items| - i
  {
    if i < |snap.items| {
      CandidatesExactly(snap, i + 1, f);
    }
  }

  lemma {:induction false} InsertExactly(x: Fold, s: seq<Fold>, f: Fold)
    ensures f in Insert(x, s) <==> f == x || f in s
  {
    if s != [] && !KeyAtMost(x, s[0]) {
      InsertExactly(x, s[1..], f);
      assert s == [s[0]] + s[1..];
    }
  }

  lemma {:induction false} SortExactly(s: seq<Fold>, f: Fold)
    ensures f in Sort(s) <==> f in s
  {
    if s != [] {
      SortExactly(s[1..], f);
      InsertExactly(s[0], Sort(s[1..]), f);
      assert s == [s[0]] + s[1..];
    }
  }

  lemma {:induction false} InsertOrdered(x: Fold, s: seq<Fold>)
    requires Ordered(s) && forall f :: f in s ==> x.index < f.index
    ensures Ordered(Insert(x, s))
  {
    if s != [] {
      if KeyAtMost(x, s[0]) {
        assert forall i :: 0 <= i < |s| ==> s[i] in s && Before(x, s[i]);
      } else {
        var rest := s[1..];
        assert forall i :: 0 <= i < |rest| ==> rest[i] == s[i + 1];
        InsertOrdered(x, rest);
        var r := Insert(x, rest);
        forall i | 0 <= i < |r| ensures Before(s[0], r[i]) {
          InsertExactly(x, rest, r[i]);
          if r[i] in rest {
            var k :| 0 <= k < |rest| && rest[k] == r[i];
            assert Before(s[0], s[k + 1]);
          }
        }
      }
    }
  }

  lemma {:induction false} SortCandidates(snap: Snapshot, i: nat)
    requires i <= |snap.items|
    ensures Ordered(Sort(Candidates(snap, i)))
    decreases |snap.items| - i
  {
    if i < |snap.items| {
      SortCandidates(snap, i + 1);
      var rest := Candidates(snap, i + 1);
      if Usable(snap.source, snap.items[i]) {
        var x := FoldOf(snap.items, i);
        assert Candidates(snap, i) == [x] + rest && ([x] + rest)[1..] == rest;
        forall f | f in Sort(rest) ensures x.index < f.index {
          SortExactly(rest, f);
          CandidatesExactly(snap, i + 1, f);
        }
        InsertOrdered(x, Sort(rest));
      } else {
        assert Candidates(snap, i) == rest;
      }
    }
  }

  // ----- greedy acceptance -----

  /** The folds accepted so far are exactly those of `seen` that do not conflict
      with an accepted fold before them. */
  ghost predicate Greedy(accepted: seq<Fold>, seen: seq<Fold>) {
    && Ordered(accepted)
    && (forall f :: f in accepted ==> f in seen)
    && (forall a, b :: a in accepted && b in accepted && Before(a, b) ==> !Conflicts(a, b))
    && (forall f :: f in seen && f !in accepted ==> exists a :: a in accepted && Before(a, f) && Conflicts(a, f))
  }

  lemma OneWay(a: Fold, b: Fold)
    requires Before(a, b) || a == b
    ensures !Before(b, a)
  {
  }

  lemma GreedyStep(accepted: seq<Fold>, seen: seq<Fold>, c: Fold)
    requires Greedy(accepted, seen)
    requires forall f :: f in seen ==> Before(f, c)
    ensures Greedy(if Refused(accepted, c) then accepted else accepted + [c], seen + [c])
  {
    hide Before, Conflicts;
    if Refused(accepted, c) {
      var i :| 0 <= i < |accepted| && Conflicts(accepted[i], c);
      assert accepted[i] in accepted && accepted[i] in seen;
    } else {
      var more := accepted + [c];
      assert forall f :: f in accepted ==> f in more;
      forall i | 0 <= i < |accepted| ensures Before(more[i], c) {
        assert accepted[i] in accepted;
      }
      forall b | b in more ensures !Before(c, b) {
        OneWay(b, c);
      }
      forall a, b | a in more && b in more && Before(a, b) ensures !Conflicts(a, b) {
        assert a in accepted;
        if b == c {
          var k :| 0 <= k < |accepted| && accepted[k] == a;
        }
      }
    }
  }

  lemma {:induction false} AcceptGreedy(accepted: seq<Fold>, seen: seq<Fold>, candidates: seq<Fold>)
    requires Greedy(accepted, seen) && Ordered(seen + candidates)
    ensures Greedy(Accept(accepted, candidates), seen + candidates)
    decreases |candidates|
  {
    hide Before, Conflicts, Refused, Greedy;
    if candidates == [] {
      assert seen + candidates == seen;
    } else {
      var c := candidates[0];
      forall f | f in seen ensures Before(f, c) {
        var i :| 0 <= i < |seen| && seen[i] == f;
        assert (seen + candidates)[i] == f && (seen + candidates)[|seen|] == c;
      }
      GreedyStep(accepted, seen, c);
      assert seen + candidates == seen + [c] + candidates[1..];
      AcceptGreedy(if Refused(accepted, c) then accepted else accepted + [c], seen + [c], candidates[1..]);
    }
  }

  /** What a snapshot offers is determined by this: the folds are usable items in
      strict order, and a usable item is among them exactly when no fold before it
      has its span or is crossed by it. */
  lemma NormalizedExactly(snap: Snapshot)
    ensures Ordered(Normalized(snap))
    ensures forall f :: f in Normalized(snap) <==>
              Candidate(snap, f) && forall a :: a in Normalized(snap) && Before(a, f) ==>
                !(a.start == f.start && a.end == f.end) && !(f.start < a.end < f.end)
  {
    hide Before, Conflicts, Accept, Sort, Candidates;
    var sorted := Sort(Candidates(snap, 0));
    SortCandidates(snap, 0);
    assert Greedy([], []);
    assert [] + sorted == sorted;
    AcceptGreedy([], [], sorted);
    var kept := Normalized(snap);
    ConflictsExactly();
    forall f ensures f in sorted <==> Candidate(snap, f) {
      SortExactly(Candidates(snap, 0), f);
      CandidatesExactly(snap, 0, f);
    }
  }

  /** Any two folds are nested or disjoint, and none has another's span. */
  ghost predicate Laminar(folds: seq<Fold>) {
    forall i, j :: 0 <= i < j < |folds| ==>
      && folds[i].start <= folds[j].start
      && (folds[j].end <= folds[i].end || folds[j].start >= folds[i].end)
      && !SameSpan(folds[i], folds[j])
  }

  lemma NormalizedLaminar(snap: Snapshot)
    ensures Laminar(Normalized(snap))
  {
    hide Normalized;
    NormalizedExactly(snap);
    var folds := Normalized(snap);
    forall i, j | 0 <= i < j < |folds|
      ensures folds[i].start <= folds[j].start
      ensures folds[j].end <= folds[i].end || folds[j].start >= folds[i].end
      ensures !SameSpan(folds[i], folds[j])
    {
      assert folds[i] in folds && folds[j] in folds;
      assert Before(folds[i], folds[j]);
    }
  }

  lemma ConflictsExactly()
    ensures forall a, f :: Conflicts(a, f) <==> (a.start == f.start && a.end == f.end) || f.start < a.end < f.end
  {
  }

  /** Of two items one is before the other. */
  lemma CandidatesCompare(snap: Snapshot, a: Fold, b: Fold)
    requires Candidate(snap, a) && Candidate(snap, b) && a != b
    ensures Before(a, b) || Before(b, a)
    ensures Before(a, b) ==> (Compatible(a, b) <==> !Conflicts(a, b))
    ensures Compatible(a, b) <==> Compatible(b, a)
  {
  }

  /** The spans differ and are nested or disjoint. */
  predicate Compatible(a: Fold, b: Fold) {
    && !(a.start == b.start && a.end == b.end)
    && (a.end <= b.start || b.end <= a.start || (a.start <= b.start && b.end <= a.end)
        || (b.start <= a.start && a.end <= b.end))
  }

  /** Every usable item is offered exactly when no two share a span or cross. */
  lemma LaminarInputIsKept(snap: Snapshot)
    ensures (forall f :: Candidate(snap, f) ==> f in Normalized(snap)) <==>
            (forall a, b :: Candidate(snap, a) && Candidate(snap, b) && a != b ==> Compatible(a, b))
  {
    hide Normalized, Before, Conflicts, Candidate, Compatible;
    NormalizedExactly(snap);
    ConflictsExactly();
    forall a, b | Candidate(snap, a) && Candidate(snap, b) && a != b
      ensures Before(a, b) || Before(b, a)
      ensures Before(a, b) ==> (Compatible(a, b) <==> !Conflicts(a, b))
      ensures Compatible(a, b) <==> Compatible(b, a)
    {
      CandidatesCompare(snap, a, b);
    }
    forall a | Candidate(snap, a) ensures !Before(a, a) {
      NotBeforeItself(a);
    }
  }

  lemma NotBeforeItself(a: Fold)
    ensures !Before(a, a)
  {
  }

  // ----- concealed ranges -----

  datatype Range = Range(start: nat, end: nat)

  /** Position of the first line break in `source[from..to]`, or `to`. */
  function FirstBreak(source: seq<Byte>, from: nat, to: nat): (p: nat)
    requires from <= to <= |source|
    ensures from <= p <= to
    ensures forall i :: from <= i < p ==> source[i] != NEWLINE
    ensures p < to ==> source[p] == NEWLINE
    decreases |source| - from
  {
    if from == to || source[from] == NEWLINE then from else FirstBreak(source, from + 1, to)
  }

  /** A collapsed fold hides everything from its first break to its own last one. */
  function Body(source: seq<Byte>, f: Fold): Option<Range>
    requires f.start < f.end <= |source|
  {
    var open := FirstBreak(source, f.start, f.end);
    var close := if source[f.end - 1] == NEWLINE then f.end - 1 else f.end;
    if open < close then Some(Range(open, close)) else None
  }

  predicate InSpan(f: Fold, outer: Fold) {
    f.start >= outer.start && f.end <= outer.end
  }

  predicate Within(f: Fold, outer: seq<Fold>) {
    exists i :: 0 <= i < |outer| && InSpan(f, outer[i])
  }

  function Outermost(outer: seq<Fold>, folds: seq<Fold>, collapsed: set<nat>): seq<Fold>
    decreases |folds|
  {
    if folds == [] then outer
    else if folds[0].index !in collapsed || Within(folds[0], outer)
    then Outermost(outer, folds[1..], collapsed)
    else Outermost(outer + [folds[0]], folds[1..], collapsed)
  }

  ghost predicate InSource(source: seq<Byte>, folds: seq<Fold>) {
    forall i :: 0 <= i < |folds| ==> folds[i].start < folds[i].end <= |source|
  }

  function Bodies(source: seq<Byte>, folds: seq<Fold>): seq<Range>
    requires InSource(source, folds)
  {
    if folds == [] then []
    else
      var body := Body(source, folds[0]);
      (if body.Some? then [body.value] else []) + Bodies(source, folds[1..])
  }

  /** The byte is in the hidden body of the fold: at or after some line break of
      the fold, before its end, and not the break that ends it. */
  ghost predicate InBody(source: seq<Byte>, f: Fold, b: nat) {
    && f.start <= b < f.end <= |source|
    && (exists p :: f.start <= p <= b && source[p] == NEWLINE)
    && !(b == f.end - 1 && source[b] == NEWLINE)
  }

  lemma BodyExactly(source: seq<Byte>, f: Fold, b: nat)
    requires f.start < f.end <= |source|
    ensures InBody(source, f, b) <==>
            Body(source, f).Some? && Body(source, f).value.start <= b < Body(source, f).value.end
  {
    var open := FirstBreak(source, f.start, f.end);
    if f.start <= b < f.end && open <= b {
      assert source[open] == NEWLINE;
    }
  }

  lemma BodyNests(source: seq<Byte>, f: Fold, outer: Fold, b: nat)
    requires InSpan(f, outer) && InBody(source, f, b) && outer.end <= |source|
    ensures InBody(source, outer, b)
  {
    var p :| f.start <= p <= b && source[p] == NEWLINE;
    assert outer.start <= p;
  }

  ghost predicate Apart(folds: seq<Fold>) {
    forall i, j :: 0 <= i < j < |folds| ==> folds[i].end <= folds[j].start
  }

  /** `outer` holds collapsed folds of `seen`, apart from each other, and every
      collapsed fold of `seen` is inside one of them. */
  ghost predicate OutermostOf(outer: seq<Fold>, seen: seq<Fold>, collapsed: set<nat>) {
    && (forall f :: f in outer ==> f in seen && f.index in collapsed)
    && Apart(outer)
    && (forall f :: f in seen && f.index in collapsed ==> Within(f, outer))
  }

  lemma WithinMore(f: Fold, outer: seq<Fold>, c: Fold)
    ensures Within(f, outer + [c]) <==> Within(f, outer) || InSpan(f, c)
  {
    var more := outer + [c];
    hide InSpan;
    if Within(f, outer) {
      var i :| 0 <= i < |outer| && InSpan(f, outer[i]);
      assert InSpan(f, more[i]);
    }
    if InSpan(f, c) {
      assert InSpan(f, more[|outer|]);
    }
  }

  lemma ApartMore(outer: seq<Fold>, c: Fold)
    requires Apart(outer) && !Within(c, outer)
    requires forall i :: 0 <= i < |outer| ==>
               outer[i].start <= c.start && (c.end <= outer[i].end || c.start >= outer[i].end)
    ensures Apart(outer + [c])
  {
    assert forall i :: 0 <= i < |outer| ==> !InSpan(c, outer[i]);
  }

  lemma OutermostStep(outer: seq<Fold>, seen: seq<Fold>, c: Fold, collapsed: set<nat>)
    requires OutermostOf(outer, seen, collapsed) && c.index in collapsed && !Within(c, outer)
    requires forall f :: f in seen ==> f.start <= c.start && (c.end <= f.end || c.start >= f.end)
    ensures OutermostOf(outer + [c], seen + [c], collapsed)
  {
    hide Apart, Within;
    assert forall i :: 0 <= i < |outer| ==> outer[i] in outer;
    ApartMore(outer, c);
    forall f | f in seen + [c] && f.index in collapsed ensures Within(f, outer + [c]) {
      WithinMore(f, outer, c);
    }
  }

  lemma OutermostSame(outer: seq<Fold>, seen: seq<Fold>, c: Fold, collapsed: set<nat>)
    requires OutermostOf(outer, seen, collapsed) && (c.index in collapsed ==> Within(c, outer))
    ensures OutermostOf(outer, seen + [c], collapsed)
  {
    hide Apart, Within;
  }

  lemma {:induction false} OutermostInv(outer: seq<Fold>, seen: seq<Fold>, folds: seq<Fold>, collapsed: set<nat>)
    requires OutermostOf(outer, seen, collapsed) && Laminar(seen + folds)
    ensures OutermostOf(Outermost(outer, folds, collapsed), seen + folds, collapsed)
    decreases |folds|
  {
    hide Within, OutermostOf;
    if folds == [] {
      assert seen + folds == seen;
    } else {
      var c := folds[0];
      assert seen + folds == seen + [c] + folds[1..];
      forall f | f in seen ensures f.start <= c.start && (c.end <= f.end || c.start >= f.end) {
        var i :| 0 <= i < |seen| && seen[i] == f;
        assert (seen + folds)[i] == f && (seen + folds)[|seen|] == c;
      }
      if c.index !in collapsed || Within(c, outer) {
        OutermostSame(outer, seen, c, collapsed);
        OutermostInv(outer, seen + [c], folds[1..], collapsed);
      } else {
        OutermostStep(outer, seen, c, collapsed);
        OutermostInv(outer + [c], seen + [c], folds[1..], collapsed);
      }
    }
  }

  lemma KeptInSource(snap: Snapshot)
    ensures InSource(snap.source, Normalized(snap))
    ensures forall f :: f in Normalized(snap) ==>
              f.end <= |snap.source| && Boundary(snap.source, f.start) && Boundary(snap.source, f.end)
  {
    hide Normalized;
    NormalizedExactly(snap);
    assert forall i :: 0 <= i < |Normalized(snap)| ==> Normalized(snap)[i] in Normalized(snap);
  }

  lemma OutermostInSource(snap: Snapshot, collapsed: set<nat>)
    ensures OutermostOf(Outermost([], Normalized(snap), collapsed), Normalized(snap), collapsed)
    ensures InSource(snap.source, Outermost([], Normalized(snap), collapsed))
  {
    hide Normalized, Outermost;
    NormalizedLaminar(snap);
    var folds := Normalized(snap);
    assert [] + folds == folds;
    OutermostInv([], [], folds, collapsed);
    var outer := Outermost([], folds, collapsed);
    forall i | 0 <= i < |outer| ensures outer[i].start < outer[i].end <= |snap.source| {
      assert outer[i] in outer && outer[i] in folds;
      NormalizedExactly(snap);
    }
  }

  function Concealed(snap: Snapshot, collapsed: set<nat>): seq<Range> {
    OutermostInSource(snap, collapsed);
    Bodies(snap.source, Outermost([], Normalized(snap), collapsed))
  }

  method OutermostFolds(folds: seq<Fold>, collapsed: set<nat>) returns (outermost: seq<Fold>)
    ensures outermost == Outermost([], folds, collapsed)
  {
    hide Within;
    outermost := [];
    assert folds[0..] == folds;
    for i := 0 to |folds|
      invariant Outermost(outermost, folds[i..], collapsed) == Outermost([], folds, collapsed)
    {
      assert folds[i..][0] == folds[i] && folds[i..][1..] == folds[i + 1..];
      if folds[i].index in collapsed && !Within(folds[i], outermost) {
        outermost := outermost + [folds[i]];
      }
    }
    assert folds[|folds|..] == [];
  }

  method ConcealRanges(snap: Snapshot, collapsed: set<nat>) returns (ranges: seq<Range>)
    ensures ranges == Concealed(snap, collapsed)
  {
    hide Normalized, Outermost, Body, OutermostOf;
    var folds := NormalizedFolds(snap);
    var outermost := OutermostFolds(folds, collapsed);
    OutermostInSource(snap, collapsed);
    ranges := [];
    for i := 0 to |outermost|
      invariant InSource(snap.source, outermost[i..])
      invariant ranges + Bodies(snap.source, outermost[i..]) == Bodies(snap.source, outermost)
    {
      assert outermost[i..][0] == outermost[i] && outermost[i..][1..] == outermost[i + 1..];
      var body := Body(snap.source, outermost[i]);
      if body.Some? {
        ranges := ranges + [body.value];
      }
    }
  }

  ghost predicate Hides(ranges: seq<Range>, b: nat) {
    exists k :: 0 <= k < |ranges| && ranges[k].start <= b < ranges[k].end
  }

  /** The ranges are non-empty, in order, apart, and on character boundaries. */
  ghost predicate WellPlaced(source: seq<Byte>, ranges: seq<Range>) {
    && (forall k :: 0 <= k < |ranges| ==>
          && ranges[k].start < ranges[k].end <= |source|
          && Boundary(source, ranges[k].start) && Boundary(source, ranges[k].end))
    && (forall j, k :: 0 <= j < k < |ranges| ==> ranges[j].end <= ranges[k].start)
  }

  /** Some fold has the byte in its body. */
  ghost predicate SomeBody(source: seq<Byte>, folds: seq<Fold>, b: nat)
    requires InSource(source, folds)
  {
    exists i :: 0 <= i < |folds| && InBody(source, folds[i], b)
  }

  lemma SomeBodyStep(source: seq<Byte>, folds: seq<Fold>, b: nat)
    requires folds != [] && InSource(source, folds) && InSource(source, folds[1..])
    ensures SomeBody(source, folds, b) <==> InBody(source, folds[0], b) || SomeBody(source, folds[1..], b)
  {
    hide InBody;
    var rest := folds[1..];
    if SomeBody(source, rest, b) {
      var i :| 0 <= i < |rest| && InBody(source, rest[i], b);
      assert InBody(source, folds[i + 1], b);
    }
    if SomeBody(source, folds, b) {
      var i :| 0 <= i < |folds| && InBody(source, folds[i], b);
      assert i > 0 ==> InBody(source, rest[i - 1], b);
    }
  }

  lemma NothingHides(source: seq<Byte>, b: nat)
    ensures !Hides(Bodies(source, []), b) && !SomeBody(source, [], b)
  {
  }

  lemma HidesOne(body: Option<Range>, b: nat)
    ensures Hides(if body.Some? then [body.value] else [], b) <==> body.Some? && body.value.start <= b < body.value.end
  {
    if body.Some? {
      assert [body.value][0] == body.value;
    }
  }

  lemma {:induction false} BodiesHide(source: seq<Byte>, folds: seq<Fold>, b: nat)
    requires InSource(source, folds)
    ensures Hides(Bodies(source, folds), b) <==> SomeBody(source, folds, b)
  {
    hide InBody, Body, SomeBody, Hides;
    if folds == [] {
      NothingHides(source, b);
    } else {
      var rest, body := folds[1..], Body(source, folds[0]);
      BodiesHide(source, rest, b);
      BodyExactly(source, folds[0], b);
      var here := if body.Some? then [body.value] else [];
      HidesOne(body, b);
      HidesEither(here, Bodies(source, rest), b);
      SomeBodyStep(source, folds, b);
    }
  }

  lemma HidesEither(a: seq<Range>, c: seq<Range>, b: nat)
    ensures Hides(a + c, b) <==> Hides(a, b) || Hides(c, b)
  {
    var all := a + c;
    if Hides(a, b) {
      var k :| 0 <= k < |a| && a[k].start <= b < a[k].end;
      assert all[k] == a[k];
    }
    if Hides(c, b) {
      var k :| 0 <= k < |c| && c[k].start <= b < c[k].end;
      assert all[|a| + k] == c[k];
    }
  }

  lemma BodyPlaced(source: seq<Byte>, f: Fold)
    requires f.start < f.end <= |source| && Boundary(source, f.end)
    ensures Body(source, f).Some? ==>
              && f.start <= Body(source, f).value.start < Body(source, f).value.end <= f.end
              && Boundary(source, Body(source, f).value.start) && Boundary(source, Body(source, f).value.end)
  {
  }

  lemma NonePlaced(source: seq<Byte>)
    ensures WellPlaced(source, [])
  {
  }

  lemma OnePlaced(source: seq<Byte>, r: Range, rest: seq<Range>, from: nat)
    requires r.start < r.end <= from && r.end <= |source|
    requires Boundary(source, r.start) && Boundary(source, r.end)
    requires WellPlaced(source, rest) && forall k :: 0 <= k < |rest| ==> from <= rest[k].start
    ensures WellPlaced(source, [r] + rest)
  {
    hide Boundary;
  }

  lemma {:induction false} BodiesPlaced(source: seq<Byte>, folds: seq<Fold>, from: nat)
    requires InSource(source, folds)
    requires forall i :: 0 <= i < |folds| ==> from <= folds[i].start && Boundary(source, folds[i].end)
    requires forall i, j :: 0 <= i < j < |folds| ==> folds[i].end <= folds[j].start
    ensures WellPlaced(source, Bodies(source, folds))
    ensures forall k :: 0 <= k < |Bodies(source, folds)| ==> from <= Bodies(source, folds)[k].start
  {
    hide Body, Boundary, WellPlaced;
    if folds != [] {
      var rest, body := folds[1..], Body(source, folds[0]);
      BodyPlaced(source, folds[0]);
      assert forall i :: 0 <= i < |rest| ==> rest[i] == folds[i + 1];
      BodiesPlaced(source, rest, folds[0].end);
      if body.Some? {
        OnePlaced(source, body.value, Bodies(source, rest), folds[0].end);
      } else {
        assert Bodies(source, folds) == Bodies(source, rest);
      }
    } else {
      NonePlaced(source);
    }
  }

  lemma ConcealedWellPlaced(snap: Snapshot, collapsed: set<nat>)
    ensures WellPlaced(snap.source, Concealed(snap, collapsed))
  {
    hide Normalized, Outermost, Boundary;
    var outer := Outermost([], Normalized(snap), collapsed);
    OutermostInSource(snap, collapsed);
    KeptInSource(snap);
    forall i | 0 <= i < |outer| ensures Boundary(snap.source, outer[i].end) {
      assert outer[i] in outer;
    }
    BodiesPlaced(snap.source, outer, 0);
  }

  /** Although only outermost folds are visited, a byte is hidden exactly when it
      lies in the body of some collapsed fold on offer. */
  lemma ConcealedExactly(snap: Snapshot, collapsed: set<nat>, b: nat)
    ensures Hides(Concealed(snap, collapsed), b) <==>
            exists f :: f in Normalized(snap) && f.index in collapsed && InBody(snap.source, f, b)
  {
    hide Normalized, Outermost, InBody, Within, Hides, Apart, Bodies;
    var folds := Normalized(snap);
    var outer := Outermost([], folds, collapsed);
    OutermostInSource(snap, collapsed);
    BodiesHide(snap.source, outer, b);
    if Hides(Concealed(snap, collapsed), b) {
      var i :| 0 <= i < |outer| && InBody(snap.source, outer[i], b);
      assert outer[i] in outer;
    }
    forall f | f in folds && f.index in collapsed && InBody(snap.source, f, b)
      ensures Hides(Concealed(snap, collapsed), b)
    {
      BodyWithin(snap.source, f, outer, b);
    }
  }

  lemma BodyWithin(source: seq<Byte>, f: Fold, outer: seq<Fold>, b: nat)
    requires Within(f, outer) && InSource(source, outer) && InBody(source, f, b)
    ensures exists i :: 0 <= i < |outer| && InBody(source, outer[i], b)
  {
    hide InBody, InSpan;
    var i :| 0 <= i < |outer| && InSpan(f, outer[i]);
    BodyNests(source, f, outer[i], b);
  }

  // ----- carrying folds across an edit -----

  /** What a fold is called in the identity of a reader: kind and opening line. */
  datatype Key = Key(kind: FoldKind, opener: seq<Byte>)

  /** `occurrence` counts the folds before this one with the same key. */
  datatype Identity = Identity(key: Key, occurrence: nat)

  /** The first line of a fold, without its line ending, as `trim` leaves it. */
  function Opener(source: seq<Byte>, f: Fold, trim: seq<Byte> -> seq<Byte>): seq<Byte>
    requires f.start < f.end <= |source|
  {
    var p := FirstBreak(source, f.start, f.end);
    var end := if f.start < p < f.end && source[p - 1] == CARRIAGE_RETURN then p - 1 else p;
    trim(source[f.start..end])
  }

  /** The text has a line break at `p`: a line feed, or a carriage return and one. */
  predicate BreaksAt(source: seq<Byte>, p: nat, end: nat)
    requires end <= |source|
  {
    || (p < end && source[p] == NEWLINE)
    || (p + 1 < end && source[p] == CARRIAGE_RETURN && source[p + 1] == NEWLINE)
  }

  /** A fold that opens with a line, however that ends, is known by that line. */
  lemma OpenerIsLine(source: seq<Byte>, f: Fold, trim: seq<Byte> -> seq<Byte>, line: seq<Byte>)
    requires f.start + |line| < f.end <= |source| && source[f.start..f.start + |line|] == line
    requires NEWLINE !in line && (line == [] || line[|line| - 1] != CARRIAGE_RETURN)
    requires BreaksAt(source, f.start + |line|, f.end)
    ensures Opener(source, f, trim) == trim(line)
  {
    var p := f.start + |line|;
    forall i | f.start <= i < p ensures source[i] != NEWLINE {
      assert line[i - f.start] == source[i] && line[i - f.start] in line;
    }
    assert line != [] ==> source[p - 1] == line[|line| - 1];
  }

  function KeyOf(source: seq<Byte>, f: Fold, trim: seq<Byte> -> seq<Byte>): Key
    requires f.start < f.end <= |source|
  {
    Key(f.kind, Opener(source, f, trim))
  }

  function Keys(source: seq<Byte>, folds: seq<Fold>, trim: seq<Byte> -> seq<Byte>): (keys: seq<Key>)
    requires InSource(source, folds)
    ensures |keys| == |folds|
    ensures forall i :: 0 <= i < |folds| ==> keys[i] == KeyOf(source, folds[i], trim)
  {
    seq(|folds|, i requires 0 <= i < |folds| => KeyOf(source, folds[i], trim))
  }

  function Count(keys: seq<Key>, key: Key): nat {
    if keys == [] then 0
    else Count(keys[..|keys| - 1], key) + (if keys[|keys| - 1] == key then 1 else 0)
  }

  /** The identity of the fold at position `i`. */
  function IdentityAt(keys: seq<Key>, i: nat): Identity
    requires i < |keys|
  {
    Identity(keys[i], Count(keys[..i], keys[i]))
  }

  function KeysOf(snap: Snapshot, trim: seq<Byte> -> seq<Byte>): (keys: seq<Key>)
    ensures |keys| == |Normalized(snap)|
  {
    KeptInSource(snap);
    Keys(snap.source, Normalized(snap), trim)
  }

  /** The running counts are those of the keys so far. */
  ghost predicate Counted(seen: map<Key, nat>, keys: seq<Key>) {
    forall key :: Count(keys, key) == if key in seen then seen[key] else 0
  }

  lemma CountedNone()
    ensures Counted(map[], [])
  {
  }

  lemma CountedMore(seen: map<Key, nat>, keys: seq<Key>, key: Key)
    requires Counted(seen, keys)
    ensures Counted(seen[key := (if key in seen then seen[key] else 0) + 1], keys + [key])
    ensures Count(keys, key) == if key in seen then seen[key] else 0
  {
    assert (keys + [key])[..|keys|] == keys;
  }

  method Identities(snap: Snapshot, trim: seq<Byte> -> seq<Byte>) returns (ids: seq<(nat, Identity)>)
    ensures |ids| == |Normalized(snap)|
    ensures forall i :: 0 <= i < |ids| ==> ids[i] == (Normalized(snap)[i].index, IdentityAt(KeysOf(snap, trim), i))
  {
    hide Normalized, KeyOf, Count, Counted;
    var folds := NormalizedFolds(snap);
    KeptInSource(snap);
    ghost var keys := KeysOf(snap, trim);
    var seen: map<Key, nat> := map[];
    ids := [];
    CountedNone();
    for i := 0 to |folds|
      invariant |ids| == i
      invariant forall k :: 0 <= k < i ==> ids[k] == (folds[k].index, IdentityAt(keys, k))
      invariant Counted(seen, keys[..i])
    {
      var key := KeyOf(snap.source, folds[i], trim);
      var occurrence := if key in seen then seen[key] else 0;
      ids := ids + [(folds[i].index, Identity(key, occurrence))];
      CountedMore(seen, keys[..i], key);
      assert keys[..i + 1] == keys[..i] + [key];
      seen := seen[key := occurrence + 1];
    }
  }

  lemma {:induction false} CountGrows(keys: seq<Key>, i: nat, j: nat, key: Key)
    requires i <= j <= |keys|
    ensures Count(keys[..i], key) <= Count(keys[..j], key)
    ensures i < j && keys[i] == key ==> Count(keys[..i], key) < Count(keys[..j], key)
  {
    if i < j {
      CountGrows(keys, i, j - 1, key);
      assert keys[..j][..j - 1] == keys[..j - 1];
    }
  }

  /** No two folds of a snapshot share an identity. */
  lemma IdentitiesUnique(keys: seq<Key>, i: nat, j: nat)
    requires i < |keys| && j < |keys| && IdentityAt(keys, i) == IdentityAt(keys, j)
    ensures i == j
  {
    if i < j {
      CountGrows(keys, i, j, keys[i]);
    } else if j < i {
      CountGrows(keys, j, i, keys[j]);
    }
  }

  /** A fold's index determines its position. */
  lemma IndicesUnique(snap: Snapshot, i: nat, j: nat)
    requires i < |Normalized(snap)| && j < |Normalized(snap)|
    requires Normalized(snap)[i].index == Normalized(snap)[j].index
    ensures i == j
  {
    hide Normalized;
    NormalizedExactly(snap);
    var folds := Normalized(snap);
    assert folds[i] in folds && folds[j] in folds;
    assert folds[i] == folds[j];
    if i != j {
      Distinctly(folds, i, j);
    }
  }

  lemma Distinctly(folds: seq<Fold>, i: nat, j: nat)
    requires Ordered(folds) && i < |folds| && j < |folds| && i != j
    ensures folds[i] != folds[j]
  {
  }

  /** The identities of the collapsed folds. */
  function KeptIdentities(snap: Snapshot, collapsed: set<nat>, trim: seq<Byte> -> seq<Byte>): set<Identity> {
    set i | 0 <= i < |Normalized(snap)| && Normalized(snap)[i].index in collapsed :: IdentityAt(KeysOf(snap, trim), i)
  }

  function AllIdentities(snap: Snapshot, trim: seq<Byte> -> seq<Byte>): set<Identity> {
    set i | 0 <= i < |Normalized(snap)| :: IdentityAt(KeysOf(snap, trim), i)
  }

  function Holders(snap: Snapshot, ids: set<Identity>, trim: seq<Byte> -> seq<Byte>): set<nat> {
    set i | 0 <= i < |Normalized(snap)| && IdentityAt(KeysOf(snap, trim), i) in ids :: Normalized(snap)[i].index
  }

  /** The folds of `after` that stay collapsed when it replaces `before`. */
  function Remap(before: Snapshot, collapsed: set<nat>, after: Snapshot, trim: seq<Byte> -> seq<Byte>): set<nat> {
    Holders(after, KeptIdentities(before, collapsed, trim), trim)
  }

  method RemapCollapsed(before: Snapshot, collapsed: set<nat>, after: Snapshot, trim: seq<Byte> -> seq<Byte>)
    returns (result: set<nat>)
    ensures result == Remap(before, collapsed, after, trim)
  {
    hide Normalized, IdentityAt, KeysOf;
    var earlier := Identities(before, trim);
    var kept := set i | 0 <= i < |earlier| && earlier[i].0 in collapsed :: earlier[i].1;
    assert kept == KeptIdentities(before, collapsed, trim);
    var later := Identities(after, trim);
    result := set i | 0 <= i < |later| && later[i].1 in kept :: later[i].0;
  }

  /** Remapping to the same snapshot keeps exactly the collapsed folds on offer. */
  lemma RemapToSelf(snap: Snapshot, collapsed: set<nat>, trim: seq<Byte> -> seq<Byte>)
    ensures Remap(snap, collapsed, snap, trim) ==
            set i | 0 <= i < |Normalized(snap)| && Normalized(snap)[i].index in collapsed :: Normalized(snap)[i].index
  {
    hide Normalized, IdentityAt, KeysOf;
    var folds, keys := Normalized(snap), KeysOf(snap, trim);
    forall i, j | 0 <= i < |folds| && 0 <= j < |folds| && IdentityAt(keys, i) == IdentityAt(keys, j) ensures i == j {
      IdentitiesUnique(keys, i, j);
    }
    var kept := KeptIdentities(snap, collapsed, trim);
    forall i | 0 <= i < |folds| ensures IdentityAt(keys, i) in kept <==> folds[i].index in collapsed {
    }
  }

  /** What is still collapsed has the identities kept and still there. */
  lemma KeptThrough(before: Snapshot, collapsed: set<nat>, mid: Snapshot, trim: seq<Byte> -> seq<Byte>)
    ensures KeptIdentities(mid, Remap(before, collapsed, mid, trim), trim) ==
            KeptIdentities(before, collapsed, trim) * AllIdentities(mid, trim)
  {
    hide Normalized, IdentityAt, KeysOf, KeptIdentities;
    var folds, keys := Normalized(mid), KeysOf(mid, trim);
    var kept := KeptIdentities(before, collapsed, trim);
    var carried := Remap(before, collapsed, mid, trim);
    forall i | 0 <= i < |folds| ensures folds[i].index in carried <==> IdentityAt(keys, i) in kept {
      if folds[i].index in carried {
        var j :| 0 <= j < |folds| && IdentityAt(keys, j) in kept && folds[j].index == folds[i].index;
        IndicesUnique(mid, i, j);
      }
    }
    KeptAre(mid, carried, trim, kept);
  }

  lemma KeptAre(snap: Snapshot, collapsed: set<nat>, trim: seq<Byte> -> seq<Byte>, kept: set<Identity>)
    requires forall i :: 0 <= i < |Normalized(snap)| ==>
               (Normalized(snap)[i].index in collapsed <==> IdentityAt(KeysOf(snap, trim), i) in kept)
    ensures KeptIdentities(snap, collapsed, trim) == kept * AllIdentities(snap, trim)
  {
    hide Normalized, IdentityAt, KeysOf;
  }

  /** Remapping through a snapshot in between never keeps more collapsed than
      remapping directly, and keeps the same exactly when that snapshot has every
      kept identity that the last one has. */
  lemma RemapThrough(before: Snapshot, collapsed: set<nat>, mid: Snapshot, after: Snapshot, trim: seq<Byte> -> seq<Byte>)
    ensures
      var direct := Remap(before, collapsed, after, trim);
      var through := Remap(mid, Remap(before, collapsed, mid, trim), after, trim);
      && through <= direct
      && (through == direct <==>
            KeptIdentities(before, collapsed, trim) * AllIdentities(after, trim) <= AllIdentities(mid, trim))
  {
    hide Normalized, IdentityAt, KeysOf, KeptIdentities, AllIdentities;
    var kept := KeptIdentities(before, collapsed, trim);
    KeptThrough(before, collapsed, mid, trim);
    HoldersOf(after, kept, AllIdentities(mid, trim), trim);
  }

  lemma HoldersOf(snap: Snapshot, kept: set<Identity>, others: set<Identity>, trim: seq<Byte> -> seq<Byte>)
    ensures Holders(snap, kept * others, trim) <= Holders(snap, kept, trim)
    ensures Holders(snap, kept * others, trim) == Holders(snap, kept, trim) <==>
            kept * AllIdentities(snap, trim) <= others
  {
    hide Normalized, IdentityAt, KeysOf;
    var folds, keys := Normalized(snap), KeysOf(snap, trim);
    if Holders(snap, kept * others, trim) == Holders(snap, kept, trim) {
      forall i | 0 <= i < |folds| && IdentityAt(keys, i) in kept ensures IdentityAt(keys, i) in others {
        assert folds[i].index in Holders(snap, kept * others, trim);
        var j :| 0 <= j < |folds| && IdentityAt(keys, j) in kept * others && folds[j].index == folds[i].index;
        IndicesUnique(snap, i, j);
      }
    }
  }

  /** A fold that a source in between does not have is forgotten, though it is there
      again afterwards. */
  lemma ForgottenBetween(trim: seq<Byte> -> seq<Byte>)
    ensures
      var snap, mid := Snapshot([65, NEWLINE, 66], [Item(Section, 0, 3)]), Snapshot([], []);
      && Remap(snap, {0}, snap, trim) == {0}
      && Remap(mid, Remap(snap, {0}, mid, trim), snap, trim) == {}
  {
    hide IdentityAt, KeysOf;
    var snap, mid := Snapshot([65, NEWLINE, 66], [Item(Section, 0, 3)]), Snapshot([], []);
    assert Normalized(mid) == [];
    assert snap.source[0..3][1] == NEWLINE;
    OneFold(snap);
    RemapToSelf(snap, {0}, trim);
    assert KeptIdentities(mid, Remap(snap, {0}, mid, trim), trim) == {};
  }

  lemma OneFold(snap: Snapshot)
    requires |snap.items| == 1 && Usable(snap.source, snap.items[0])
    ensures Normalized(snap) == [FoldOf(snap.items, 0)]
  {
    var f := FoldOf(snap.items, 0);
    assert Candidates(snap, 1) == [] && Candidates(snap, 0) == [f];
    assert [f][1..] == [] && Sort([f]) == [f];
    assert Accept([], [f]) == Accept([] + [f], [f][1..]) && Accept([f], []) == [f];
  }
}

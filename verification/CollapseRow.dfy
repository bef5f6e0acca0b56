/** Sharing out the width of one row between its branches. */
module CollapseRow {

  /** The single-precision machine epsilon. */
  const EPSILON: real := 1.0 / 8388608.0

  /** What the row solver knows of one branch: whether it bears source text, is
      shown as a fixed rail, or is an expanded reading. */
  datatype Kid = Kid(fraction: real, minimum: real, source: bool, fixed: bool, reading: bool)

  function Max(a: real, b: real): real { if a >= b then a else b }

  function Min(a: real, b: real): real { if a <= b then a else b }

  function Sum(xs: seq<real>): real {
    if xs == [] then 0.0 else xs[0] + Sum(xs[1..])
  }

  function Gaps(n: nat): real {
    if n == 0 then 0.0 else (n - 1) as real
  }

  /** The width left for branches beside one-pixel dividers. */
  function Available(width: real, n: nat): real {
    Max(width - Gaps(n), 1.0)
  }

  function FractionTotal(kids: seq<Kid>): real {
    if kids == [] then 0.0 else Max(kids[0].fraction, 0.0) + FractionTotal(kids[1..])
  }

  function Canonical(kid: Kid, available: real, total: real): real {
    available * Max(kid.fraction, 0.0) / Max(total, EPSILON)
  }

  function Start(kid: Kid, available: real, total: real, rail: real): real {
    if kid.fixed then rail else Max(Canonical(kid, available, total), kid.minimum)
  }

  function Initial(kids: seq<Kid>, available: real, total: real, rail: real): (ws: seq<real>)
    ensures |ws| == |kids|
  {
    if kids == [] then [] else [Start(kids[0], available, total, rail)] + Initial(kids[1..], available, total, rail)
  }

  /** How far a branch without source text gives way to an excess. */
  function Reduction(kid: Kid, w: real, excess: real): real {
    if kid.source then 0.0 else Min(Max(excess, 0.0), Max(w - kid.minimum, 0.0))
  }

  function Narrow(kids: seq<Kid>, ws: seq<real>, excess: real): (r: seq<real>)
    requires |ws| == |kids|
    ensures |r| == |kids|
  {
    if kids == [] then []
    else
      var cut := Reduction(kids[0], ws[0], excess);
      [ws[0] - cut] + Narrow(kids[1..], ws[1..], excess - cut)
  }

  function Leftover(kids: seq<Kid>, ws: seq<real>, excess: real): real
    requires |ws| == |kids|
  {
    if kids == [] then excess
    else Leftover(kids[1..], ws[1..], excess - Reduction(kids[0], ws[0], excess))
  }

  function SourceTotal(kids: seq<Kid>, ws: seq<real>): real
    requires |ws| == |kids|
  {
    if kids == [] then 0.0 else (if kids[0].source then ws[0] else 0.0) + SourceTotal(kids[1..], ws[1..])
  }

  function CutOne(w: real, excess: real, total: real): real {
    Max(w - excess * w / Max(total, 1.0), 1.0)
  }

  function Cut(kids: seq<Kid>, ws: seq<real>, excess: real, total: real): (r: seq<real>)
    requires |ws| == |kids|
    ensures |r| == |kids|
  {
    if kids == [] then []
    else [if kids[0].source then CutOne(ws[0], excess, total) else ws[0]] + Cut(kids[1..], ws[1..], excess, total)
  }

  function Sources(kids: seq<Kid>): nat {
    if kids == [] then 0 else (if kids[0].source then 1 else 0) + Sources(kids[1..])
  }

  function Readings(kids: seq<Kid>): nat {
    if kids == [] then 0 else (if kids[0].reading then 1 else 0) + Readings(kids[1..])
  }

  /** Expanded readings take spare width first, source branches otherwise. */
  predicate Receives(kid: Kid, toReadings: bool) {
    if toReadings then kid.reading else kid.source
  }

  function Share(kids: seq<Kid>, ws: seq<real>, toReadings: bool, part: real): (r: seq<real>)
    requires |ws| == |kids|
    ensures |r| == |kids|
  {
    if kids == [] then []
    else [if Receives(kids[0], toReadings) then ws[0] + part else ws[0]] + Share(kids[1..], ws[1..], toReadings, part)
  }

  function Recipients(kids: seq<Kid>): nat {
    if Readings(kids) > 0 then Readings(kids) else Sources(kids)
  }

  function Shared(kids: seq<Kid>, ws: seq<real>, available: real): (r: seq<real>)
    requires |ws| == |kids|
    ensures |r| == |kids|
  {
    var spare := available - Sum(ws);
    if spare > 0.0 && Recipients(kids) > 0
    then Share(kids, ws, Readings(kids) > 0, spare / Recipients(kids) as real)
    else ws
  }

  /** Widths and remaining excess once the branches without source have given way. */
  function Narrowed(kids: seq<Kid>, rail: real, width: real): (r: (seq<real>, real))
    ensures |r.0| == |kids|
  {
    var available := Available(width, |kids|);
    var ws := Initial(kids, available, FractionTotal(kids), rail);
    (Narrow(kids, ws, Sum(ws) - available), Leftover(kids, ws, Sum(ws) - available))
  }

  /** The widths of a row's branches. */
  function RowWidths(kids: seq<Kid>, rail: real, width: real): (r: seq<real>)
    ensures |r| == |kids|
  {
    var (ws, excess) := Narrowed(kids, rail, width);
    var cut := if excess > 0.0 then Cut(kids, ws, excess, SourceTotal(kids, ws)) else ws;
    Shared(kids, cut, Available(width, |kids|))
  }

  // ----- no branch falls below its minimum -----

  ghost predicate Above(kids: seq<Kid>, ws: seq<real>)
    requires |ws| == |kids|
  {
    forall i :: 0 <= i < |kids| ==> ws[i] >= kids[i].minimum
  }

  /** Rails are as wide as their minimum and no minimum is negative. */
  ghost predicate Sensible(kids: seq<Kid>, rail: real) {
    forall i :: 0 <= i < |kids| ==> kids[i].minimum >= 0.0 && (kids[i].fixed ==> kids[i].minimum == rail)
  }

  function Minimums(kids: seq<Kid>): real {
    if kids == [] then 0.0 else kids[0].minimum + Minimums(kids[1..])
  }

  /** The minimums of the branches without source text. */
  function SideMinimums(kids: seq<Kid>): real {
    if kids == [] then 0.0 else (if kids[0].source then 0.0 else kids[0].minimum) + SideMinimums(kids[1..])
  }

  lemma {:induction false} InitialAbove(kids: seq<Kid>, available: real, total: real, rail: real)
    requires Sensible(kids, rail)
    ensures Above(kids, Initial(kids, available, total, rail))
  {
    if kids != [] {
      assert forall i :: 0 <= i < |kids[1..]| ==> kids[1..][i] == kids[i + 1];
      InitialAbove(kids[1..], available, total, rail);
      assert kids[0].fixed ==> kids[0].minimum == rail;
    }
  }

  lemma {:induction false} NarrowFacts(kids: seq<Kid>, ws: seq<real>, excess: real)
    requires |ws| == |kids| && Above(kids, ws)
    ensures Above(kids, Narrow(kids, ws, excess))
    ensures Sum(Narrow(kids, ws, excess)) - Leftover(kids, ws, excess) == Sum(ws) - excess
    ensures Leftover(kids, ws, excess) <= excess
    ensures SourceTotal(kids, Narrow(kids, ws, excess)) == SourceTotal(kids, ws)
    ensures Leftover(kids, ws, excess) > 0.0 ==>
              Sum(Narrow(kids, ws, excess)) == SourceTotal(kids, ws) + SideMinimums(kids)
  {
    if kids != [] {
      var cut := Reduction(kids[0], ws[0], excess);
      assert ws[0] >= kids[0].minimum;
      NarrowFacts(kids[1..], ws[1..], excess - cut);
      var tail := Narrow(kids[1..], ws[1..], excess - cut);
      assert Narrow(kids, ws, excess)[1..] == tail;
    }
  }

  lemma {:induction false} SourcesAndSides(kids: seq<Kid>)
    ensures Sources(kids) == 0 ==> Minimums(kids) == SideMinimums(kids)
    ensures Sources(kids) == 0 ==> forall i :: 0 <= i < |kids| ==> !kids[i].source
  {
    if kids != [] {
      SourcesAndSides(kids[1..]);
      assert forall i :: 0 < i < |kids| ==> kids[i] == kids[1..][i - 1];
    }
  }

  /** The one source-bearing branch carries all the source width. */
  lemma {:induction false} OneSource(kids: seq<Kid>, ws: seq<real>) returns (j: nat)
    requires |ws| == |kids| && Sources(kids) == 1
    ensures j < |kids| && kids[j].source
    ensures forall i :: 0 <= i < |kids| && kids[i].source ==> i == j
    ensures SourceTotal(kids, ws) == ws[j]
    ensures Minimums(kids) == SideMinimums(kids) + kids[j].minimum
  {
    assert forall i :: 0 < i < |kids| ==> kids[i] == kids[1..][i - 1];
    if kids[0].source {
      j := 0;
      SourcesAndSides(kids[1..]);
      NoSource(kids[1..], ws[1..]);
    } else {
      var k := OneSource(kids[1..], ws[1..]);
      j := k + 1;
    }
  }

  lemma {:induction false} NoSource(kids: seq<Kid>, ws: seq<real>)
    requires |ws| == |kids| && Sources(kids) == 0
    ensures SourceTotal(kids, ws) == 0.0
  {
    if kids != [] {
      NoSource(kids[1..], ws[1..]);
    }
  }

  lemma DivSelf(e: real, w: real)
    requires w > 0.0
    ensures e * w / w == e
  {
  }

  lemma CutOneKeeps(w: real, excess: real, minimum: real)
    requires w >= minimum && w - excess >= minimum
    ensures CutOne(w, excess, w) >= minimum
  {
    if w >= 1.0 {
      DivSelf(excess, w);
    }
  }

  lemma {:induction false} CutAt(kids: seq<Kid>, ws: seq<real>, excess: real, total: real, i: nat)
    requires |ws| == |kids| && i < |kids|
    ensures Cut(kids, ws, excess, total)[i] == if kids[i].source then CutOne(ws[i], excess, total) else ws[i]
  {
    if i > 0 {
      CutAt(kids[1..], ws[1..], excess, total, i - 1);
    }
  }

  lemma {:induction false} ShareAt(kids: seq<Kid>, ws: seq<real>, toReadings: bool, part: real, i: nat)
    requires |ws| == |kids| && i < |kids|
    ensures Share(kids, ws, toReadings, part)[i] == if Receives(kids[i], toReadings) then ws[i] + part else ws[i]
  {
    if i > 0 {
      ShareAt(kids[1..], ws[1..], toReadings, part, i - 1);
    }
  }

  lemma SharedNotLess(kids: seq<Kid>, ws: seq<real>, available: real, i: nat)
    requires |ws| == |kids| && i < |kids|
    ensures Shared(kids, ws, available)[i] >= ws[i]
  {
    var spare := available - Sum(ws);
    if spare > 0.0 && Recipients(kids) > 0 {
      ShareAt(kids, ws, Readings(kids) > 0, spare / Recipients(kids) as real, i);
    }
  }

  /** When the minimums fit and at most one branch bears source text, every
      branch of the row gets at least its minimum. */
  lemma RowKeepsMinimums(kids: seq<Kid>, rail: real, width: real)
    requires Sensible(kids, rail) && Sources(kids) <= 1
    requires Minimums(kids) <= Available(width, |kids|)
    ensures Above(kids, RowWidths(kids, rail, width))
  {
    hide CutOne, Shared, Sum, SourceTotal, Initial, Narrow, Leftover, Cut;
    hide Minimums, SideMinimums, Sources, FractionTotal, Available;
    var available := Available(width, |kids|);
    var start := Initial(kids, available, FractionTotal(kids), rail);
    InitialAbove(kids, available, FractionTotal(kids), rail);
    NarrowFacts(kids, start, Sum(start) - available);
    var (ws, excess) := Narrowed(kids, rail, width);
    var cut := if excess > 0.0 then Cut(kids, ws, excess, SourceTotal(kids, ws)) else ws;
    forall i | 0 <= i < |kids| ensures cut[i] >= kids[i].minimum {
      if excess > 0.0 {
        CutAt(kids, ws, excess, SourceTotal(kids, ws), i);
        if kids[i].source {
          SourcesAndSides(kids);
          var j := OneSource(kids, ws);
          CutOneKeeps(ws[j], excess, kids[j].minimum);
        }
      }
    }
    forall i | 0 <= i < |kids| ensures RowWidths(kids, rail, width)[i] >= kids[i].minimum {
      SharedNotLess(kids, cut, available, i);
    }
  }

  lemma PairUnfolds(kids: seq<Kid>, ws: seq<real>, excess: real, total: real)
    requires |kids| == |ws| == 2 && kids[0].source && kids[1].source
    ensures Narrow(kids, ws, excess) == ws && Leftover(kids, ws, excess) == excess
    ensures Sum(ws) == SourceTotal(kids, ws) == ws[0] + ws[1]
    ensures Cut(kids, ws, excess, total) == [CutOne(ws[0], excess, total), CutOne(ws[1], excess, total)]
    ensures Readings(kids) == (if kids[0].reading then 1 else 0) + (if kids[1].reading then 1 else 0)
  {
    var k, w := kids[1..], ws[1..];
    assert k == [kids[1]] && w == [ws[1]] && k[1..] == [] && w[1..] == [];
    assert Narrow(k, w, excess) == [ws[1] - 0.0] && Leftover(k, w, excess) == excess;
    assert Cut(k, w, excess, total) == [CutOne(ws[1], excess, total)];
    assert Sum(w) == ws[1] && SourceTotal(k, w) == ws[1];
    assert Readings(k) == if kids[1].reading then 1 else 0;
  }

  /** With two source-bearing branches the proportional cut can take one below
      its minimum although all minimums fit. */
  lemma TwoSourcesCanLose()
    ensures
      var kids := [Kid(0.9, 100.0, true, false, false), Kid(0.1, 500.0, true, false, false)];
      && Minimums(kids) <= Available(601.0, 2)
      && RowWidths(kids, 28.0, 601.0)[1] < kids[1].minimum
  {
    var a, b := Kid(0.9, 100.0, true, false, false), Kid(0.1, 500.0, true, false, false);
    var kids := [a, b];
    assert kids[1..] == [b] && [b][1..] == [];
    assert FractionTotal([b]) == 0.1 && FractionTotal(kids) == 1.0;
    assert Minimums([b]) == 500.0;
    assert Start(a, 600.0, 1.0, 28.0) == 540.0 && Start(b, 600.0, 1.0, 28.0) == 500.0;
    var start := Initial(kids, 600.0, 1.0, 28.0);
    assert Initial([b], 600.0, 1.0, 28.0) == [500.0];
    assert start == [540.0, 500.0];
    PairUnfolds(kids, start, 440.0, 1040.0);
    var cut := Cut(kids, start, 440.0, 1040.0);
    assert CutOne(540.0, 440.0, 1040.0) + CutOne(500.0, 440.0, 1040.0) == 600.0;
    PairUnfolds(kids, cut, 0.0, 1.0);
    assert RowWidths(kids, 28.0, 601.0) == cut;
  }

  // ----- the widths use up the row -----

  ghost predicate NonNegative(ws: seq<real>) {
    forall i :: 0 <= i < |ws| ==> ws[i] >= 0.0
  }

  /** The one-pixel floor is not needed by any source-bearing branch. */
  ghost predicate FloorFree(kids: seq<Kid>, ws: seq<real>, excess: real, total: real)
    requires |ws| == |kids|
  {
    forall i :: 0 <= i < |kids| && kids[i].source ==> StaysAboveFloor(ws[i], excess, total)
  }

  predicate StaysAboveFloor(w: real, excess: real, total: real) {
    w - excess * w / Max(total, 1.0) >= 1.0
  }

  /** What the floor gives back beyond a proportional cut at rate `k`. */
  function Excused(w: real, k: real): real {
    Max(1.0 - (w - w * k), 0.0)
  }

  function FloorGift(kids: seq<Kid>, ws: seq<real>, k: real): (gift: real)
    requires |ws| == |kids|
    ensures gift >= 0.0
  {
    if kids == [] then 0.0
    else (if kids[0].source then Excused(ws[0], k) else 0.0) + FloorGift(kids[1..], ws[1..], k)
  }

  lemma DivAsRate(e: real, w: real, t: real)
    requires t > 0.0
    ensures e * w / t == w * (e / t)
  {
  }

  /** The cut takes the excess in proportion, except for what the floor gives back. */
  lemma {:induction false} CutSum(kids: seq<Kid>, ws: seq<real>, excess: real, total: real, k: real)
    requires |ws| == |kids| && k == excess / Max(total, 1.0)
    ensures Sum(Cut(kids, ws, excess, total)) == Sum(ws) - SourceTotal(kids, ws) * k + FloorGift(kids, ws, k)
  {
    hide Cut, Sum, CutOne, Excused, Max, SourceTotal, FloorGift;
    if kids != [] {
      CutSum(kids[1..], ws[1..], excess, total, k);
      CutAtRate(ws[0], excess, total, k);
      CutUnfolds(kids, ws, excess, total, k);
      if kids[0].source {
        Spread(ws[0], SourceTotal(kids[1..], ws[1..]), k);
      }
    } else {
      NoCutSum(excess, total, k);
    }
  }

  lemma CutAtRate(w: real, excess: real, total: real, k: real)
    requires k == excess / Max(total, 1.0)
    ensures CutOne(w, excess, total) == w - w * k + Excused(w, k)
  {
    DivAsRate(excess, w, Max(total, 1.0));
  }

  lemma CutUnfolds(kids: seq<Kid>, ws: seq<real>, excess: real, total: real, k: real)
    requires |ws| == |kids| && kids != []
    ensures Sum(ws) == ws[0] + Sum(ws[1..])
    ensures Sum(Cut(kids, ws, excess, total)) ==
            (if kids[0].source then CutOne(ws[0], excess, total) else ws[0]) + Sum(Cut(kids[1..], ws[1..], excess, total))
    ensures SourceTotal(kids, ws) == (if kids[0].source then ws[0] else 0.0) + SourceTotal(kids[1..], ws[1..])
    ensures FloorGift(kids, ws, k) == (if kids[0].source then Excused(ws[0], k) else 0.0) + FloorGift(kids[1..], ws[1..], k)
  {
    hide CutOne, Excused;
    assert Cut(kids, ws, excess, total)[1..] == Cut(kids[1..], ws[1..], excess, total);
  }

  lemma NoCutSum(excess: real, total: real, k: real)
    ensures Sum(Cut([], [], excess, total)) == Sum([]) - SourceTotal([], []) * k + FloorGift([], [], k)
  {
  }

  lemma Spread(a: real, b: real, k: real)
    ensures (a + b) * k == a * k + b * k
  {
  }

  lemma ExcusedZero(w: real, excess: real, total: real, k: real)
    requires k == excess / Max(total, 1.0)
    ensures Excused(w, k) >= 0.0
    ensures Excused(w, k) == 0.0 <==> StaysAboveFloor(w, excess, total)
  {
    DivAsRate(excess, w, Max(total, 1.0));
  }

  lemma NothingFloored(excess: real, total: real)
    ensures FloorFree([], [], excess, total)
  {
  }

  lemma {:induction false} FloorGiftZero(kids: seq<Kid>, ws: seq<real>, excess: real, total: real, k: real)
    requires |ws| == |kids| && k == excess / Max(total, 1.0)
    ensures FloorGift(kids, ws, k) == 0.0 <==> FloorFree(kids, ws, excess, total)
  {
    hide StaysAboveFloor, Excused, FloorFree, Max;
    if kids != [] {
      FloorGiftZero(kids[1..], ws[1..], excess, total, k);
      FloorFreeStep(kids, ws, excess, total);
      ExcusedZero(ws[0], excess, total, k);
    } else {
      NothingFloored(excess, total);
    }
  }

  lemma FloorFreeStep(kids: seq<Kid>, ws: seq<real>, excess: real, total: real)
    requires |ws| == |kids| && kids != []
    ensures FloorFree(kids, ws, excess, total) <==>
            && (kids[0].source ==> StaysAboveFloor(ws[0], excess, total))
            && FloorFree(kids[1..], ws[1..], excess, total)
  {
    hide StaysAboveFloor;
    if FloorFree(kids[1..], ws[1..], excess, total) {
      forall i | 0 < i < |kids| && kids[i].source ensures StaysAboveFloor(ws[i], excess, total) {
        assert kids[1..][i - 1].source;
      }
    }
  }

  lemma {:induction false} ShareSum(kids: seq<Kid>, ws: seq<real>, toReadings: bool, part: real)
    requires |ws| == |kids|
    ensures Sum(Share(kids, ws, toReadings, part)) ==
            Sum(ws) + (if toReadings then Readings(kids) else Sources(kids)) as real * part
  {
    if kids != [] {
      ShareSum(kids[1..], ws[1..], toReadings, part);
      var tail := Share(kids[1..], ws[1..], toReadings, part);
      assert Share(kids, ws, toReadings, part)[1..] == tail;
      var n := if toReadings then Readings(kids[1..]) else Sources(kids[1..]);
      assert (n + 1) as real * part == n as real * part + part;
    }
  }

  lemma PartsMakeWhole(spare: real, n: real)
    requires n > 0.0
    ensures n * (spare / n) == spare
  {
  }

  lemma HasRecipients(kids: seq<Kid>)
    requires Sources(kids) > 0
    ensures Recipients(kids) > 0
  {
  }

  lemma SharedSum(kids: seq<Kid>, ws: seq<real>, available: real)
    requires |ws| == |kids| && Recipients(kids) > 0
    ensures Sum(Shared(kids, ws, available)) == Max(Sum(ws), available)
  {
    hide Sum, Share, Readings, Sources;
    var spare := available - Sum(ws);
    if spare > 0.0 {
      var part := spare / Recipients(kids) as real;
      PartsMakeWhole(spare, Recipients(kids) as real);
      ShareSum(kids, ws, Readings(kids) > 0, part);
    }
  }

  lemma {:induction false} FloorNeedsRoom(kids: seq<Kid>, ws: seq<real>, excess: real, total: real)
    requires |ws| == |kids| && NonNegative(ws) && excess >= 0.0 && Sources(kids) > 0
    requires FloorFree(kids, ws, excess, total)
    ensures SourceTotal(kids, ws) >= 1.0
  {
    assert forall i :: 0 <= i < |kids[1..]| ==> kids[1..][i] == kids[i + 1] && ws[1..][i] == ws[i + 1];
    SourceTotalPositive(kids[1..], ws[1..]);
    if kids[0].source {
      assert ws[0] >= 0.0;
      assert excess * ws[0] >= 0.0;
      assert excess * ws[0] / Max(total, 1.0) >= 0.0;
    } else {
      FloorFreeStep(kids, ws, excess, total);
      FloorNeedsRoom(kids[1..], ws[1..], excess, total);
    }
  }

  lemma {:induction false} SourceTotalPositive(kids: seq<Kid>, ws: seq<real>)
    requires |ws| == |kids| && NonNegative(ws)
    ensures SourceTotal(kids, ws) >= 0.0
  {
    if kids != [] {
      assert ws[0] >= 0.0;
      SourceTotalPositive(kids[1..], ws[1..]);
    }
  }

  /** Some excess is left and a source-bearing branch would be cut below the
      one-pixel floor. */
  ghost predicate FloorApplies(kids: seq<Kid>, rail: real, width: real) {
    var (ws, excess) := Narrowed(kids, rail, width);
    excess > 0.0 && !FloorFree(kids, ws, excess, SourceTotal(kids, ws))
  }

  /** Only the floor makes a cut row wider than what is available. */
  lemma CutRow(kids: seq<Kid>, ws: seq<real>, excess: real, available: real)
    requires |ws| == |kids| && NonNegative(ws) && Sources(kids) > 0
    requires excess > 0.0 && Sum(ws) == available + excess
    ensures
      var total := SourceTotal(kids, ws);
      var width := Max(Sum(Cut(kids, ws, excess, total)), available);
      width == available <==> FloorFree(kids, ws, excess, total)
  {
    hide Cut, FloorFree, FloorGift, SourceTotal, Sum, NonNegative, Sources;
    var total := SourceTotal(kids, ws);
    var k := excess / Max(total, 1.0);
    CutSum(kids, ws, excess, total, k);
    FloorGiftZero(kids, ws, excess, total, k);
    SourceTotalPositive(kids, ws);
    ShareOfTotal(excess, total, k);
    if FloorFree(kids, ws, excess, total) {
      FloorNeedsRoom(kids, ws, excess, total);
    }
  }

  /** In a row with a source-bearing branch the widths add up to the available
      width exactly when the one-pixel floor does not apply; otherwise they
      exceed it. */
  lemma RowSumExact(kids: seq<Kid>, rail: real, width: real)
    requires Sensible(kids, rail) && Sources(kids) > 0
    ensures Sum(RowWidths(kids, rail, width)) >= Available(width, |kids|)
    ensures Sum(RowWidths(kids, rail, width)) == Available(width, |kids|) <==> !FloorApplies(kids, rail, width)
  {
    hide Sum, Initial, Narrow, Leftover, Cut, FloorFree, Shared, SourceTotal, Sources, FractionTotal, Available;
    var available := Available(width, |kids|);
    var start := Initial(kids, available, FractionTotal(kids), rail);
    InitialAbove(kids, available, FractionTotal(kids), rail);
    NarrowFacts(kids, start, Sum(start) - available);
    var (ws, excess) := Narrowed(kids, rail, width);
    var total := SourceTotal(kids, ws);
    HasRecipients(kids);
    assert NonNegative(ws) by {
      forall i | 0 <= i < |ws| ensures ws[i] >= 0.0 { assert ws[i] >= kids[i].minimum; }
    }
    if excess > 0.0 {
      SharedSum(kids, Cut(kids, ws, excess, total), available);
      CutRow(kids, ws, excess, available);
    } else {
      SharedSum(kids, ws, available);
    }
  }

  lemma ShareOfTotal(excess: real, total: real, k: real)
    requires excess >= 0.0 && total >= 0.0 && k == excess / Max(total, 1.0)
    ensures total * k <= excess
    ensures total >= 1.0 ==> total * k == excess
  {
    if total >= 1.0 {
      PartsMakeWhole(excess, total);
    } else {
      assert k == excess;
      assert (1.0 - total) * excess >= 0.0;
    }
  }

  // ----- who gives way, and who gains -----

  lemma {:induction false} NarrowAt(kids: seq<Kid>, ws: seq<real>, excess: real, j: nat)
    requires |ws| == |kids| && Above(kids, ws) && j < |kids|
    ensures kids[j].source ==> Narrow(kids, ws, excess)[j] == ws[j]
    ensures Leftover(kids, ws, excess) > 0.0 && !kids[j].source ==> Narrow(kids, ws, excess)[j] == kids[j].minimum
    ensures Narrow(kids, ws, excess)[j] <= ws[j]
  {
    var cut := Reduction(kids[0], ws[0], excess);
    assert ws[0] >= kids[0].minimum;
    assert Above(kids[1..], ws[1..]) by {
      assert forall i :: 0 <= i < |ws[1..]| ==> ws[1..][i] == ws[i + 1] && kids[1..][i] == kids[i + 1];
    }
    if j > 0 {
      NarrowAt(kids[1..], ws[1..], excess - cut, j - 1);
    } else {
      NarrowFacts(kids[1..], ws[1..], excess - cut);
    }
  }

  lemma CutCovers(kids: seq<Kid>, ws: seq<real>, excess: real, available: real)
    requires |ws| == |kids| && NonNegative(ws) && excess > 0.0 && Sum(ws) == available + excess
    ensures Sum(Cut(kids, ws, excess, SourceTotal(kids, ws))) >= available
  {
    hide Cut, FloorGift, SourceTotal, Sum, NonNegative;
    var total := SourceTotal(kids, ws);
    var k := excess / Max(total, 1.0);
    CutSum(kids, ws, excess, total, k);
    SourceTotalPositive(kids, ws);
    ShareOfTotal(excess, total, k);
  }

  /** Side branches narrow before source measure is lost: when a source-bearing
      branch gets less than it started with, every branch without source text is
      down to its minimum. */
  lemma SourcesYieldLast(kids: seq<Kid>, rail: real, width: real, i: nat, j: nat)
    requires Sensible(kids, rail) && i < |kids| && j < |kids| && kids[i].source && !kids[j].source
    requires RowWidths(kids, rail, width)[i] <
             Initial(kids, Available(width, |kids|), FractionTotal(kids), rail)[i]
    ensures RowWidths(kids, rail, width)[j] == kids[j].minimum
  {
    hide Sum, Initial, Narrow, Leftover, Cut, CutOne, SourceTotal, FractionTotal, Available, Share;
    var available := Available(width, |kids|);
    var start := Initial(kids, available, FractionTotal(kids), rail);
    InitialAbove(kids, available, FractionTotal(kids), rail);
    NarrowFacts(kids, start, Sum(start) - available);
    NarrowAt(kids, start, Sum(start) - available, i);
    NarrowAt(kids, start, Sum(start) - available, j);
    var (ws, excess) := Narrowed(kids, rail, width);
    if excess > 0.0 {
      assert NonNegative(ws) by {
        forall n | 0 <= n < |ws| ensures ws[n] >= 0.0 { assert ws[n] >= kids[n].minimum; }
      }
      CutCovers(kids, ws, excess, available);
      CutAt(kids, ws, excess, SourceTotal(kids, ws), j);
    } else {
      SharedNotLess(kids, ws, available, i);
    }
  }

  lemma CutOneAtMost(w: real, excess: real, total: real)
    requires w >= 0.0 && excess >= 0.0
    ensures CutOne(w, excess, total) <= Max(w, 1.0)
  {
    assert excess * w >= 0.0;
    assert excess * w / Max(total, 1.0) >= 0.0;
  }

  /** Spare width goes to open readings: while the row has one, no other branch
      gets more than it started with, the one-pixel floor aside. */
  lemma ReadingsTakeSpare(kids: seq<Kid>, rail: real, width: real, i: nat)
    requires Sensible(kids, rail) && Readings(kids) > 0 && i < |kids| && !kids[i].reading
    ensures RowWidths(kids, rail, width)[i] <=
            Max(Initial(kids, Available(width, |kids|), FractionTotal(kids), rail)[i], 1.0)
  {
    hide Sum, Initial, Narrow, Leftover, Cut, CutOne, SourceTotal, FractionTotal, Available, Share, Readings, Sources;
    var available := Available(width, |kids|);
    var start := Initial(kids, available, FractionTotal(kids), rail);
    InitialAbove(kids, available, FractionTotal(kids), rail);
    NarrowFacts(kids, start, Sum(start) - available);
    NarrowAt(kids, start, Sum(start) - available, i);
    var (ws, excess) := Narrowed(kids, rail, width);
    assert ws[i] >= kids[i].minimum;
    var cut := if excess > 0.0 then Cut(kids, ws, excess, SourceTotal(kids, ws)) else ws;
    if excess > 0.0 {
      CutAt(kids, ws, excess, SourceTotal(kids, ws), i);
      CutOneAtMost(ws[i], excess, SourceTotal(kids, ws));
    }
    var spare := available - Sum(cut);
    if spare > 0.0 {
      ShareAt(kids, cut, true, spare / Recipients(kids) as real, i);
    }
  }

  // ----- what each source-bearing branch gets, exactly -----

  lemma {:induction false} SourceTotalAtLeast(kids: seq<Kid>, ws: seq<real>, i: nat)
    requires |ws| == |kids| && NonNegative(ws) && i < |kids| && kids[i].source
    ensures SourceTotal(kids, ws) >= ws[i]
  {
    assert ws[0] >= 0.0;
    assert forall n :: 0 <= n < |ws[1..]| ==> ws[1..][n] == ws[n + 1];
    if i > 0 {
      SourceTotalAtLeast(kids[1..], ws[1..], i - 1);
    } else {
      SourceTotalPositive(kids[1..], ws[1..]);
    }
  }

  lemma {:induction false} SidesAndSources(kids: seq<Kid>, ws: seq<real>)
    requires |ws| == |kids| && Above(kids, ws)
    ensures Sum(ws) >= SourceTotal(kids, ws) + SideMinimums(kids)
  {
    if kids != [] {
      assert ws[0] >= kids[0].minimum;
      assert Above(kids[1..], ws[1..]) by {
        assert forall i :: 0 <= i < |ws[1..]| ==> ws[1..][i] == ws[i + 1] && kids[1..][i] == kids[i + 1];
      }
      SidesAndSources(kids[1..], ws[1..]);
    }
  }

  lemma Scaling(x: real, d: real, t: real)
    requires t > 0.0
    ensures x >= d <==> x * t >= d * t
  {
  }

  lemma Proportion(w: real, e: real, t: real)
    requires t > 0.0
    ensures (w - e * w / t) * t == w * (t - e)
  {
    var q := e * w / t;
    assert q * t == e * w;
  }

  lemma CutMeets(w: real, e: real, t: real, d: real)
    requires t >= w >= d > 1.0
    ensures CutOne(w, e, t) >= d <==> w * (t - e) >= d * t
  {
    Proportion(w, e, t);
    Scaling(w - e * w / t, d, t);
  }

  /** With `total` the starting width of all source-bearing branches and `sides` the
      minimums of the others: a branch that starts at `start` can have `d` pixels
      when nothing has to be cut, or when its share of what the sides leave is
      enough. */
  predicate ShareSuffices(start: real, total: real, sides: real, available: real, d: real) {
    total + sides <= available || start * (available - sides) >= d * total
  }

  /** Where a row stands before source measure is touched: what is over is what the
      starting source widths and the minimums of the sides exceed the row by. */
  lemma ExcessLeft(kids: seq<Kid>, rail: real, width: real)
    requires Sensible(kids, rail)
    ensures
      var available := Available(width, |kids|);
      var total := SourceTotal(kids, Initial(kids, available, FractionTotal(kids), rail));
      var (ws, excess) := Narrowed(kids, rail, width);
      && Above(kids, ws) && SourceTotal(kids, ws) == total && Sum(ws) == available + excess
      && (excess > 0.0 <==> total + SideMinimums(kids) > available)
      && (excess > 0.0 ==> excess == total + SideMinimums(kids) - available)
  {
    hide Sum, Initial, Narrow, Leftover, SourceTotal, FractionTotal, Available, SideMinimums;
    var available := Available(width, |kids|);
    var start := Initial(kids, available, FractionTotal(kids), rail);
    InitialAbove(kids, available, FractionTotal(kids), rail);
    NarrowFacts(kids, start, Sum(start) - available);
    SidesAndSources(kids, Narrowed(kids, rail, width).0);
  }

  /** Any number of source-bearing branches: one of them gets `d` pixels, up to its
      minimum, always when `d` is within the one-pixel floor, and otherwise exactly
      when its share suffices. */
  lemma SourceGetsExactly(kids: seq<Kid>, rail: real, width: real, i: nat, d: real)
    requires Sensible(kids, rail) && i < |kids| && kids[i].source && d <= kids[i].minimum
    ensures d <= 1.0 ==> RowWidths(kids, rail, width)[i] >= d
    ensures d > 1.0 ==>
              var available := Available(width, |kids|);
              var start := Initial(kids, available, FractionTotal(kids), rail);
              RowWidths(kids, rail, width)[i] >= d <==>
              ShareSuffices(start[i], SourceTotal(kids, start), SideMinimums(kids), available, d)
  {
    hide Sum, Initial, Narrow, Leftover, Cut, CutOne, Shared, SourceTotal, FractionTotal, Available, SideMinimums;
    hide ShareSuffices;
    var available := Available(width, |kids|);
    var start := Initial(kids, available, FractionTotal(kids), rail);
    InitialAbove(kids, available, FractionTotal(kids), rail);
    ExcessLeft(kids, rail, width);
    NarrowAt(kids, start, Sum(start) - available, i);
    var (ws, excess) := Narrowed(kids, rail, width);
    var total := SourceTotal(kids, ws);
    assert NonNegative(ws) by {
      forall n | 0 <= n < |ws| ensures ws[n] >= 0.0 { assert ws[n] >= kids[n].minimum; }
    }
    if excess > 0.0 {
      var cut := Cut(kids, ws, excess, total);
      CutCovers(kids, ws, excess, available);
      NothingSpare(kids, cut, available);
      CutAt(kids, ws, excess, total, i);
      SourceTotalAtLeast(kids, ws, i);
      CutDecides(ws[i], total, SideMinimums(kids), available, d);
    } else {
      SharedNotLess(kids, ws, available, i);
      assert ws[i] >= kids[i].minimum;
      Uncut(start[i], total, SideMinimums(kids), available, d);
    }
  }

  lemma NothingSpare(kids: seq<Kid>, ws: seq<real>, available: real)
    requires |ws| == |kids| && Sum(ws) >= available
    ensures Shared(kids, ws, available) == ws
  {
  }

  lemma CutDecides(w: real, total: real, sides: real, available: real, d: real)
    requires total + sides > available && total >= w >= d
    ensures d <= 1.0 ==> CutOne(w, total + sides - available, total) >= d
    ensures d > 1.0 ==>
              (CutOne(w, total + sides - available, total) >= d <==> ShareSuffices(w, total, sides, available, d))
  {
    if d > 1.0 {
      CutMeets(w, total + sides - available, total, d);
      assert total - (total + sides - available) == available - sides;
    }
  }

  lemma Uncut(start: real, total: real, sides: real, available: real, d: real)
    requires total + sides <= available
    ensures ShareSuffices(start, total, sides, available, d)
  {
  }

  /** With a single source-bearing branch the share is all that the sides leave. */
  lemma OneSourceGetsExactly(kids: seq<Kid>, rail: real, width: real, j: nat, d: real)
    requires Sensible(kids, rail) && Sources(kids) == 1 && j < |kids| && kids[j].source
    requires 1.0 < d <= kids[j].minimum
    ensures RowWidths(kids, rail, width)[j] >= d <==> d + SideMinimums(kids) <= Available(width, |kids|)
  {
    hide RowWidths, Initial, FractionTotal, Available, SideMinimums, SourceTotal, ShareSuffices;
    var available := Available(width, |kids|);
    var start := Initial(kids, available, FractionTotal(kids), rail);
    InitialAbove(kids, available, FractionTotal(kids), rail);
    assert start[j] >= kids[j].minimum;
    var j' := OneSource(kids, start);
    SourceGetsExactly(kids, rail, width, j, d);
    WholeShareSuffices(start[j], SideMinimums(kids), available, d);
  }

  /** For a row with exactly one source-bearing branch, whose minimum exceeds the
      one-pixel floor: that branch keeps its minimum exactly when the minimums of
      the whole row fit. */
  lemma OneSourceRowExact(kids: seq<Kid>, rail: real, width: real, j: nat)
    requires Sensible(kids, rail) && Sources(kids) == 1
    requires j < |kids| && kids[j].source && kids[j].minimum > 1.0
    ensures RowWidths(kids, rail, width)[j] >= kids[j].minimum <==> Minimums(kids) <= Available(width, |kids|)
  {
    hide RowWidths, Available, Minimums, SideMinimums, Sources;
    OneSourceGetsExactly(kids, rail, width, j, kids[j].minimum);
    var j' := OneSource(kids, RowWidths(kids, rail, width));
  }

  lemma SideKeepsMinimum(kids: seq<Kid>, rail: real, width: real, i: nat)
    requires Sensible(kids, rail) && i < |kids| && !kids[i].source
    ensures RowWidths(kids, rail, width)[i] >= kids[i].minimum
  {
    hide Sum, Initial, Narrow, Leftover, Cut, Shared, SourceTotal, FractionTotal, Available, SideMinimums;
    ExcessLeft(kids, rail, width);
    var available := Available(width, |kids|);
    var (ws, excess) := Narrowed(kids, rail, width);
    var total := SourceTotal(kids, ws);
    var cut := if excess > 0.0 then Cut(kids, ws, excess, total) else ws;
    if excess > 0.0 {
      CutAt(kids, ws, excess, total, i);
    }
    SharedNotLess(kids, cut, available, i);
    assert ws[i] >= kids[i].minimum;
  }

  /** A row keeps all its minimums exactly when the share of every source-bearing
      branch suffices whose minimum exceeds the one-pixel floor. */
  lemma RowKeepsMinimumsExactly(kids: seq<Kid>, rail: real, width: real)
    requires Sensible(kids, rail)
    ensures
      var available := Available(width, |kids|);
      var start := Initial(kids, available, FractionTotal(kids), rail);
      Above(kids, RowWidths(kids, rail, width)) <==>
      forall i :: 0 <= i < |kids| && kids[i].source && kids[i].minimum > 1.0 ==>
        ShareSuffices(start[i], SourceTotal(kids, start), SideMinimums(kids), available, kids[i].minimum)
  {
    hide RowWidths, Initial, FractionTotal, Available, SideMinimums, SourceTotal, ShareSuffices;
    forall i | 0 <= i < |kids| && kids[i].source {
      SourceGetsExactly(kids, rail, width, i, kids[i].minimum);
    }
    forall i | 0 <= i < |kids| && !kids[i].source ensures RowWidths(kids, rail, width)[i] >= kids[i].minimum {
      SideKeepsMinimum(kids, rail, width, i);
    }
  }

  lemma WholeShareSuffices(start: real, sides: real, available: real, d: real)
    requires start >= d > 1.0
    ensures ShareSuffices(start, start, sides, available, d) <==> d + sides <= available
  {
    Scaling(available - sides, d, start);
  }

  // ----- emitted fractions -----

  function Expanded(kids: seq<Kid>, ws: seq<real>): real
    requires |ws| == |kids|
  {
    if kids == [] then 0.0 else (if kids[0].fixed then 0.0 else ws[0]) + Expanded(kids[1..], ws[1..])
  }

  function Rails(kids: seq<Kid>): nat {
    if kids == [] then 0 else (if kids[0].fixed then 1 else 0) + Rails(kids[1..])
  }

  function Scale(kids: seq<Kid>, ws: seq<real>, sum: real): (r: seq<real>)
    requires |ws| == |kids| && sum > 0.0
    ensures |r| == |kids|
  {
    if kids == [] then [] else [if kids[0].fixed then 0.0 else ws[0] / sum] + Scale(kids[1..], ws[1..], sum)
  }

  function Fractions(kids: seq<Kid>, ws: seq<real>): (r: seq<real>)
    requires |ws| == |kids|
    ensures |r| == |kids|
  {
    Scale(kids, ws, Max(Expanded(kids, ws), 1.0))
  }

  /** No rail bears source text or counts as an expanded reading. */
  ghost predicate RailsAreSides(kids: seq<Kid>) {
    forall i :: 0 <= i < |kids| && kids[i].fixed ==> !kids[i].source && !kids[i].reading
  }

  ghost predicate RailsHold(kids: seq<Kid>, ws: seq<real>, rail: real)
    requires |ws| == |kids|
  {
    forall i :: 0 <= i < |kids| && kids[i].fixed ==> ws[i] == rail
  }

  lemma {:induction false} InitialRails(kids: seq<Kid>, available: real, total: real, rail: real)
    ensures RailsHold(kids, Initial(kids, available, total, rail), rail)
  {
    if kids != [] {
      InitialRails(kids[1..], available, total, rail);
      assert forall i :: 0 < i < |kids| ==> kids[i] == kids[1..][i - 1];
    }
  }

  lemma RailKept(kid: Kid, w: real, excess: real)
    requires w == kid.minimum
    ensures Reduction(kid, w, excess) == 0.0
  {
  }

  lemma {:induction false} NarrowRails(kids: seq<Kid>, ws: seq<real>, excess: real, rail: real)
    requires |ws| == |kids| && Sensible(kids, rail) && RailsHold(kids, ws, rail)
    ensures RailsHold(kids, Narrow(kids, ws, excess), rail)
  {
    hide Reduction;
    if kids != [] {
      assert forall i :: 0 < i < |kids| ==> kids[i] == kids[1..][i - 1] && ws[i] == ws[1..][i - 1];
      assert forall i :: 0 <= i < |kids[1..]| ==> kids[1..][i] == kids[i + 1] && ws[1..][i] == ws[i + 1];
      if kids[0].fixed {
        RailKept(kids[0], ws[0], excess);
      }
      NarrowRails(kids[1..], ws[1..], excess - Reduction(kids[0], ws[0], excess), rail);
    }
  }

  /** A rail is exactly as wide as the preferences say. */
  lemma RailsKeepTheirWidth(kids: seq<Kid>, rail: real, width: real)
    requires Sensible(kids, rail) && RailsAreSides(kids)
    ensures RailsHold(kids, RowWidths(kids, rail, width), rail)
  {
    var available := Available(width, |kids|);
    var start := Initial(kids, available, FractionTotal(kids), rail);
    InitialRails(kids, available, FractionTotal(kids), rail);
    NarrowRails(kids, start, Sum(start) - available, rail);
    var (ws, excess) := Narrowed(kids, rail, width);
    var cut := if excess > 0.0 then Cut(kids, ws, excess, SourceTotal(kids, ws)) else ws;
    forall i | 0 <= i < |kids| && kids[i].fixed ensures RowWidths(kids, rail, width)[i] == rail {
      if excess > 0.0 {
        CutAt(kids, ws, excess, SourceTotal(kids, ws), i);
      }
      var spare := available - Sum(cut);
      if spare > 0.0 && Recipients(kids) > 0 {
        ShareAt(kids, cut, Readings(kids) > 0, spare / Recipients(kids) as real, i);
      }
    }
  }

  lemma {:induction false} ExpandedBeside(kids: seq<Kid>, ws: seq<real>, rail: real)
    requires |ws| == |kids| && RailsHold(kids, ws, rail)
    ensures Sum(ws) == Expanded(kids, ws) + Rails(kids) as real * rail
  {
    if kids != [] {
      assert forall i :: 0 <= i < |kids[1..]| ==> kids[1..][i] == kids[i + 1] && ws[1..][i] == ws[i + 1];
      ExpandedBeside(kids[1..], ws[1..], rail);
      var n := Rails(kids[1..]);
      assert (n + 1) as real * rail == n as real * rail + rail;
    }
  }

  lemma {:induction false} ScaleAt(kids: seq<Kid>, ws: seq<real>, sum: real, i: nat)
    requires |ws| == |kids| && sum > 0.0 && i < |kids|
    ensures Scale(kids, ws, sum)[i] == if kids[i].fixed then 0.0 else ws[i] / sum
  {
    if i > 0 {
      ScaleAt(kids[1..], ws[1..], sum, i - 1);
    }
  }

  lemma {:induction false} ScaleSum(kids: seq<Kid>, ws: seq<real>, sum: real)
    requires |ws| == |kids| && sum > 0.0
    ensures Sum(Scale(kids, ws, sum)) == Expanded(kids, ws) / sum
  {
    if kids != [] {
      ScaleSum(kids[1..], ws[1..], sum);
      assert Scale(kids, ws, sum)[1..] == Scale(kids[1..], ws[1..], sum);
    }
  }

  lemma {:induction false} ExpandedPositive(kids: seq<Kid>, ws: seq<real>)
    requires |ws| == |kids| && NonNegative(ws)
    ensures Expanded(kids, ws) >= 0.0
  {
    if kids != [] {
      assert ws[0] >= 0.0;
      assert forall i :: 0 <= i < |ws[1..]| ==> ws[1..][i] == ws[i + 1];
      ExpandedPositive(kids[1..], ws[1..]);
    }
  }

  lemma Divides(w: real, sum: real)
    requires sum > 0.0 && w >= 0.0
    ensures w / sum >= 0.0
    ensures w / sum * sum == w
  {
  }

  lemma WholeShare(expanded: real)
    requires expanded >= 0.0
    ensures expanded / Max(expanded, 1.0) == 1.0 <==> expanded >= 1.0
  {
  }

  lemma ScaledOne(kids: seq<Kid>, ws: seq<real>, sum: real, i: nat)
    requires |ws| == |kids| && i < |kids| && ws[i] >= 0.0 && sum >= 1.0
    ensures Scale(kids, ws, sum)[i] >= 0.0
    ensures kids[i].fixed ==> Scale(kids, ws, sum)[i] == 0.0
    ensures !kids[i].fixed ==> Scale(kids, ws, sum)[i] * sum == ws[i]
  {
    hide Scale;
    ScaleAt(kids, ws, sum, i);
    Divides(ws[i], sum);
  }

  lemma ScaledTotal(kids: seq<Kid>, ws: seq<real>, sum: real)
    requires |ws| == |kids| && NonNegative(ws) && sum == Max(Expanded(kids, ws), 1.0)
    ensures Sum(Scale(kids, ws, sum)) == 1.0 <==> Expanded(kids, ws) >= 1.0
  {
    hide Scale, Sum, Expanded;
    ExpandedPositive(kids, ws);
    ScaleSum(kids, ws, sum);
    WholeShare(Expanded(kids, ws));
  }

  lemma RowNonNegative(kids: seq<Kid>, rail: real, width: real)
    requires Sensible(kids, rail)
    ensures NonNegative(RowWidths(kids, rail, width))
  {
    var available := Available(width, |kids|);
    var start := Initial(kids, available, FractionTotal(kids), rail);
    InitialAbove(kids, available, FractionTotal(kids), rail);
    NarrowFacts(kids, start, Sum(start) - available);
    var (ws, excess) := Narrowed(kids, rail, width);
    var cut := if excess > 0.0 then Cut(kids, ws, excess, SourceTotal(kids, ws)) else ws;
    forall i | 0 <= i < |kids| ensures RowWidths(kids, rail, width)[i] >= 0.0 {
      assert ws[i] >= kids[i].minimum;
      if excess > 0.0 {
        CutAt(kids, ws, excess, SourceTotal(kids, ws), i);
      }
      SharedNotLess(kids, cut, available, i);
    }
  }

  /** What the rails of a row leave of the available width. */
  function Room(kids: seq<Kid>, rail: real, width: real): real {
    Available(width, |kids|) - Rails(kids) as real * rail
  }

  lemma FractionsScale(kids: seq<Kid>, ws: seq<real>, sum: real)
    requires |ws| == |kids| && sum == Max(Expanded(kids, ws), 1.0)
    ensures Fractions(kids, ws) == Scale(kids, ws, sum)
  {
    hide Scale;
  }

  lemma {:induction false} OneExpanded(kids: seq<Kid>, ws: seq<real>, i: nat)
    requires |ws| == |kids| && NonNegative(ws) && i < |kids| && !kids[i].fixed
    ensures Expanded(kids, ws) >= ws[i]
  {
    assert ws[0] >= 0.0;
    assert forall n :: 0 <= n < |ws[1..]| ==> ws[1..][n] == ws[n + 1];
    if i > 0 {
      OneExpanded(kids[1..], ws[1..], i - 1);
    } else {
      ExpandedPositive(kids[1..], ws[1..]);
    }
  }

  lemma {:induction false} SomeExpanded(kids: seq<Kid>, ws: seq<real>)
    requires |ws| == |kids| && NonNegative(ws) && Expanded(kids, ws) > 0.0
    ensures exists i :: 0 <= i < |kids| && !kids[i].fixed && ws[i] > 0.0
  {
    assert forall n :: 0 <= n < |ws[1..]| ==> ws[1..][n] == ws[n + 1] && kids[1..][n] == kids[n + 1];
    if kids[0].fixed || ws[0] <= 0.0 {
      assert ws[0] >= 0.0;
      SomeExpanded(kids[1..], ws[1..]);
      var i :| 0 <= i < |kids[1..]| && !kids[1..][i].fixed && ws[1..][i] > 0.0;
      assert !kids[i + 1].fixed && ws[i + 1] > 0.0;
    }
  }

  /** Where the floor applies some source-bearing branch is at least a pixel wide. */
  lemma FlooredIsExpanded(kids: seq<Kid>, rail: real, width: real)
    requires Sensible(kids, rail) && RailsAreSides(kids) && FloorApplies(kids, rail, width)
    ensures Expanded(kids, RowWidths(kids, rail, width)) >= 1.0
  {
    hide Sum, Initial, Narrow, Leftover, Cut, CutOne, Shared, SourceTotal, StaysAboveFloor, Expanded, Available;
    var (ws, excess) := Narrowed(kids, rail, width);
    var total := SourceTotal(kids, ws);
    var i :| 0 <= i < |kids| && kids[i].source && !StaysAboveFloor(ws[i], excess, total);
    CutAt(kids, ws, excess, total, i);
    FloorHolds(ws[i], excess, total);
    SharedNotLess(kids, Cut(kids, ws, excess, total), Available(width, |kids|), i);
    RowNonNegative(kids, rail, width);
    OneExpanded(kids, RowWidths(kids, rail, width), i);
  }

  lemma FloorHolds(w: real, excess: real, total: real)
    ensures CutOne(w, excess, total) >= 1.0
  {
  }

  /** Applied to `room` the fractions give back the widths of all expanded branches. */
  ghost predicate GivesBack(kids: seq<Kid>, ws: seq<real>, fs: seq<real>, room: real)
    requires |ws| == |fs| == |kids|
  {
    forall i :: 0 <= i < |kids| && !kids[i].fixed ==> fs[i] * room == ws[i]
  }

  lemma SameRoom(f: real, w: real, sum: real, room: real)
    requires f * sum == w && w > 0.0
    ensures f * room == w <==> room == sum
  {
    if f * room == w {
      assert f * (room - sum) == 0.0;
    }
  }

  /** Nothing but the whole of what the expanded branches take gives them back. */
  lemma GivesBackExactly(kids: seq<Kid>, ws: seq<real>, sum: real, room: real)
    requires |ws| == |kids| && NonNegative(ws) && sum == Max(Expanded(kids, ws), 1.0)
    ensures GivesBack(kids, ws, Scale(kids, ws, sum), room) <==> room == sum || Expanded(kids, ws) == 0.0
  {
    hide Scale, Expanded;
    var fs := Scale(kids, ws, sum);
    forall i | 0 <= i < |kids| ensures ws[i] >= 0.0 && (!kids[i].fixed ==> fs[i] * sum == ws[i]) {
      ScaledOne(kids, ws, sum, i);
    }
    ExpandedPositive(kids, ws);
    if Expanded(kids, ws) > 0.0 {
      SomeExpanded(kids, ws);
      var i :| 0 <= i < |kids| && !kids[i].fixed && ws[i] > 0.0;
      SameRoom(fs[i], ws[i], sum, room);
    } else {
      forall i | 0 <= i < |kids| && !kids[i].fixed ensures fs[i] * room == ws[i] {
        OneExpanded(kids, ws, i);
        NothingScaled(fs[i], ws[i], sum, room);
      }
    }
  }

  lemma NothingScaled(f: real, w: real, sum: real, room: real)
    requires f * sum == w && w == 0.0 && sum > 0.0
    ensures f * room == w
  {
    assert f == 0.0;
  }

  /** The emitted fractions of a row with a source-bearing branch: none is negative
      and rails get none. They add up to one exactly when the floor applies or the
      rails leave at least a pixel; applied to what the rails leave they give back
      the widths exactly when the floor does not apply and that is at least a pixel,
      or nothing at all. */
  lemma FractionsGiveBackWidths(kids: seq<Kid>, rail: real, width: real)
    requires Sensible(kids, rail) && RailsAreSides(kids) && Sources(kids) > 0
    ensures
      var ws := RowWidths(kids, rail, width);
      var fs := Fractions(kids, ws);
      var room := Room(kids, rail, width);
      && (forall i :: 0 <= i < |kids| ==> fs[i] >= 0.0)
      && (forall i :: 0 <= i < |kids| && kids[i].fixed ==> fs[i] == 0.0 && ws[i] == rail)
      && (Sum(fs) == 1.0 <==> FloorApplies(kids, rail, width) || room >= 1.0)
      && (GivesBack(kids, ws, fs, room) <==> !FloorApplies(kids, rail, width) && (room >= 1.0 || room == 0.0))
  {
    hide RowWidths, Fractions, Scale, Sum, Expanded, Rails, FloorApplies, Sources, GivesBack;
    var ws := RowWidths(kids, rail, width);
    RowNonNegative(kids, rail, width);
    RowSumExact(kids, rail, width);
    RailsKeepTheirWidth(kids, rail, width);
    ExpandedBeside(kids, ws, rail);
    ExpandedPositive(kids, ws);
    var sum := Max(Expanded(kids, ws), 1.0);
    FractionsScale(kids, ws, sum);
    ScaledTotal(kids, ws, sum);
    forall i | 0 <= i < |kids|
      ensures Scale(kids, ws, sum)[i] >= 0.0
      ensures kids[i].fixed ==> Scale(kids, ws, sum)[i] == 0.0
    {
      ScaledOne(kids, ws, sum, i);
    }
    GivesBackExactly(kids, ws, sum, Room(kids, rail, width));
    if FloorApplies(kids, rail, width) {
      FlooredIsExpanded(kids, rail, width);
    }
  }

  /** A rail beside a branch with source text. */
  function RailRow(side: real, share: real, minimum: real): seq<Kid> {
    [Kid(side, 28.0, false, true, false), Kid(share, minimum, true, false, false)]
  }

  lemma RailRowNarrowed(side: real, share: real, minimum: real, width: real)
    requires side > 0.0 && share > 0.0 && side + share == 1.0 && minimum >= 0.0 && width >= 29.0
    ensures
      var kids := RailRow(side, share, minimum);
      var room := width - 29.0;
      var start := Max((width - 1.0) * share, minimum);
      && Sensible(kids, 28.0) && RailsAreSides(kids) && Sources(kids) == 1 && Room(kids, 28.0, width) == room
      && Narrowed(kids, 28.0, width) == ([28.0, start], start - room)
      && SourceTotal(kids, [28.0, start]) == start
  {
    var kids := RailRow(side, share, minimum);
    var b := kids[1];
    assert kids[1..] == [b] && [b][1..] == [];
    assert FractionTotal([b]) == share && FractionTotal(kids) == side + FractionTotal([b]);
    assert Sources([b]) == 1 && Rails([b]) == 0;
    var available, start := width - 1.0, Max((width - 1.0) * share, minimum);
    var excess := start - (width - 29.0);
    assert Canonical(b, available, 1.0) == available * share;
    assert Start(b, available, 1.0, 28.0) == start && Initial([], available, 1.0, 28.0) == [];
    assert Initial([b], available, 1.0, 28.0) == [start];
    var ws := [28.0, start];
    assert Initial(kids, available, 1.0, 28.0) == ws;
    assert ws[1..] == [start] && [start][1..] == [] && Sum([start]) == start && Sum(ws) == 28.0 + start;
    assert Narrow([b], [start], excess) == [start] && Leftover([b], [start], excess) == excess;
    assert Narrow(kids, ws, excess) == ws && Leftover(kids, ws, excess) == excess;
    assert SourceTotal([b], [start]) == start;
  }

  /** Where the floor applies: 28 pixels for a rail of 28 and a branch that needs 786. */
  lemma FloorLosesWidths()
    ensures
      var kids := RailRow(0.5, 0.5, 786.0);
      var ws := RowWidths(kids, 28.0, 29.0);
      && Sensible(kids, 28.0) && RailsAreSides(kids) && FloorApplies(kids, 28.0, 29.0)
      && !GivesBack(kids, ws, Fractions(kids, ws), Room(kids, 28.0, 29.0))
  {
    hide RowWidths, Fractions, Sum, GivesBack, Sensible, RailsAreSides, Sources, Narrowed, SourceTotal;
    var kids := RailRow(0.5, 0.5, 786.0);
    RailRowNarrowed(0.5, 0.5, 786.0, 29.0);
    assert kids[1].source && !StaysAboveFloor(786.0, 786.0, 786.0);
    FractionsGiveBackWidths(kids, 28.0, 29.0);
  }

  /** Where the floor does not apply, and the rail leaves half a pixel. */
  lemma PartOfPixelLosesWidths()
    ensures
      var kids := RailRow(0.99, 0.01, 0.0);
      var ws := RowWidths(kids, 28.0, 29.5);
      && Sensible(kids, 28.0) && RailsAreSides(kids) && !FloorApplies(kids, 28.0, 29.5)
      && 0.0 < Room(kids, 28.0, 29.5) < 1.0
      && !GivesBack(kids, ws, Fractions(kids, ws), Room(kids, 28.0, 29.5))
  {
    hide RowWidths, Fractions, Sum, GivesBack, Sensible, RailsAreSides, Sources, Narrowed, SourceTotal, Room, Rails;
    var kids := RailRow(0.99, 0.01, 0.0);
    RailRowNarrowed(0.99, 0.01, 0.0, 29.5);
    FractionsGiveBackWidths(kids, 28.0, 29.5);
  }

  // ----- the loops -----

  /** Side branches narrow to their minimum before source measure is lost. */
  method NarrowSides(kids: seq<Kid>, start: seq<real>, toShed: real) returns (widths: seq<real>, excess: real)
    requires |start| == |kids|
    ensures widths == Narrow(kids, start, toShed) && excess == Leftover(kids, start, toShed)
  {
    hide Max, Min;
    widths, excess := start, toShed;
    for i := 0 to |kids|
      invariant |widths| == |kids|
      invariant widths[i..] == start[i..]
      invariant widths[..i] + Narrow(kids[i..], start[i..], excess) == Narrow(kids, start, toShed)
      invariant Leftover(kids[i..], start[i..], excess) == Leftover(kids, start, toShed)
    {
      assert kids[i..][1..] == kids[i + 1..] && start[i..][1..] == start[i + 1..];
      assert widths[i] == widths[i..][0] && start[i] == start[i..][0];
      ghost var done, rest := widths[..i], widths[i + 1..];
      assert rest == widths[i..][1..];
      if !kids[i].source {
        var reduction := Min(Max(excess, 0.0), Max(widths[i] - kids[i].minimum, 0.0));
        widths := widths[i := widths[i] - reduction];
        excess := excess - reduction;
      }
      assert widths[i + 1..] == rest;
      assert widths[..i + 1] == done + [widths[i]];
    }
  }

  /** Source-bearing branches give up the rest in proportion to their widths. */
  method CutSources(kids: seq<Kid>, start: seq<real>, excess: real) returns (widths: seq<real>)
    requires |start| == |kids|
    ensures widths == Cut(kids, start, excess, SourceTotal(kids, start))
  {
    hide CutOne;
    widths := start;
    var total := SourceTotal(kids, start);
    for i := 0 to |kids|
      invariant |widths| == |kids|
      invariant forall j :: 0 <= j < i ==> widths[j] == Cut(kids, start, excess, total)[j]
      invariant forall j :: i <= j < |kids| ==> widths[j] == start[j]
    {
      CutAt(kids, start, excess, total, i);
      if kids[i].source {
        widths := widths[i := CutOne(widths[i], excess, total)];
      }
    }
  }

  method GiveParts(kids: seq<Kid>, start: seq<real>, toReadings: bool, part: real) returns (widths: seq<real>)
    requires |start| == |kids|
    ensures widths == Share(kids, start, toReadings, part)
  {
    widths := start;
    for i := 0 to |kids|
      invariant |widths| == |kids|
      invariant forall j :: 0 <= j < i ==> widths[j] == Share(kids, start, toReadings, part)[j]
      invariant forall j :: i <= j < |kids| ==> widths[j] == start[j]
    {
      ShareAt(kids, start, toReadings, part, i);
      if Receives(kids[i], toReadings) {
        widths := widths[i := widths[i] + part];
      }
    }
  }

  /** Spare width goes in equal parts to its recipients. */
  method ShareSpare(kids: seq<Kid>, start: seq<real>, available: real) returns (widths: seq<real>)
    requires |start| == |kids|
    ensures widths == Shared(kids, start, available)
  {
    widths := start;
    var spare := available - Sum(widths);
    if spare > 0.0 && Recipients(kids) > 0 {
      var toReadings := Readings(kids) > 0;
      widths := GiveParts(kids, start, toReadings, spare / Recipients(kids) as real);
    }
  }

  method AllocateRow(kids: seq<Kid>, rail: real, width: real) returns (widths: seq<real>)
    ensures widths == RowWidths(kids, rail, width)
  {
    var available := Available(width, |kids|);
    widths := Initial(kids, available, FractionTotal(kids), rail);
    var excess;
    widths, excess := NarrowSides(kids, widths, Sum(widths) - available);
    if excess > 0.0 {
      widths := CutSources(kids, widths, excess);
    }
    widths := ShareSpare(kids, widths, available);
  }
}

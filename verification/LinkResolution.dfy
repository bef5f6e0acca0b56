/** Exactly which relative URLs resolve, and to which path: told by how high each
    segment leaves the path, not by the loops that build it. */
module LinkResolution {
  import opened Wrappers
  import opened Links

  /** What one segment or component does to a path. */
  datatype Move = Stay | Up | Down(name: Bytes)

  function Lift(m: Move): int {
    match m
    case Stay => 0
    case Up => -1
    case Down(_) => 1
  }

  /** How much higher a path is after the moves. */
  function Rise(moves: seq<Move>): int {
    if moves == [] then 0 else Lift(moves[0]) + Rise(moves[1..])
  }

  /** The height of a path that had `start` names after the first `k` moves. */
  function Height(start: nat, moves: seq<Move>, k: nat): int
    requires k <= |moves|
  {
    start + Rise(moves[..k])
  }

  predicate NeverBelow(start: nat, moves: seq<Move>) {
    forall k :: 0 <= k <= |moves| ==> Height(start, moves, k) >= 0
  }

  /** From after the first `from` moves on the path has more than `p` names. */
  predicate StaysAbove(start: nat, moves: seq<Move>, from: nat, p: nat) {
    forall k :: from <= k <= |moves| ==> Height(start, moves, k) > p
  }

  /** Move `k` puts in place the name that is at `p` in the end. */
  predicate Places(start: nat, moves: seq<Move>, k: nat, p: nat, name: Bytes) {
    k < |moves| && moves[k] == Down(name) && Height(start, moves, k) == p && StaysAbove(start, moves, k + 1, p)
  }

  /** `result` is where the moves lead from `names`: at each place is the last name put
      there, or the one that was there and never left. */
  ghost predicate Leads(names: seq<Bytes>, moves: seq<Move>, result: seq<Bytes>) {
    && |result| == Height(|names|, moves, |moves|)
    && forall p: nat :: p < |result| ==> AtPlace(names, moves, p, result[p])
  }

  ghost predicate AtPlace(names: seq<Bytes>, moves: seq<Move>, p: nat, name: Bytes) {
    if StaysAbove(|names|, moves, 0, p) then p < |names| && name == names[p]
    else exists k: nat :: Places(|names|, moves, k, p, name)
  }

  // ----- one place has one name -----

  lemma HigherAfter(start: nat, moves: seq<Move>, k: nat, p: nat, name: Bytes, later: nat)
    requires Places(start, moves, k, p, name) && k < later <= |moves|
    ensures Height(start, moves, later) > p
  {
  }

  /** At most one move places the name at `p`. */
  lemma PlacedOnce(start: nat, moves: seq<Move>, i: nat, x: Bytes, j: nat, y: Bytes, p: nat)
    requires Places(start, moves, i, p, x) && Places(start, moves, j, p, y)
    ensures i == j && x == y
  {
    if i < j {
      HigherAfter(start, moves, i, p, x, j);
    } else if j < i {
      HigherAfter(start, moves, j, p, y, i);
    }
  }

  /** So the moves lead to one path only. */
  lemma LeadsToOne(names: seq<Bytes>, moves: seq<Move>, a: seq<Bytes>, b: seq<Bytes>)
    requires Leads(names, moves, a) && Leads(names, moves, b)
    ensures a == b
  {
    hide StaysAbove, Height, Places;
    forall p: nat | p < |a| ensures a[p] == b[p] {
      assert AtPlace(names, moves, p, a[p]) && AtPlace(names, moves, p, b[p]);
      if !StaysAbove(|names|, moves, 0, p) {
        var i: nat :| Places(|names|, moves, i, p, a[p]);
        var j: nat :| Places(|names|, moves, j, p, b[p]);
        PlacedOnce(|names|, moves, i, a[p], j, b[p], p);
      }
    }
  }

  // ----- one move more in front -----

  /** The names after one move. */
  function Moved(names: seq<Bytes>, m: Move): Option<seq<Bytes>> {
    match m
    case Stay => Some(names)
    case Up => if names == [] then None else Some(names[..|names| - 1])
    case Down(name) => Some(names + [name])
  }

  lemma HeightStep(names: seq<Bytes>, moves: seq<Move>, k: nat)
    requires moves != [] && Moved(names, moves[0]).Some? && k < |moves|
    ensures Height(|names|, moves, k + 1) == Height(|Moved(names, moves[0]).value|, moves[1..], k)
  {
    assert moves[..k + 1][1..] == moves[1..][..k];
  }

  lemma StepNeverBelow(names: seq<Bytes>, moves: seq<Move>)
    requires moves != []
    ensures NeverBelow(|names|, moves) <==>
            Moved(names, moves[0]).Some? && NeverBelow(|Moved(names, moves[0]).value|, moves[1..])
  {
    assert Height(|names|, moves, 0) == |names|;
    assert moves[..1] == [moves[0]] && [moves[0]][1..] == [];
    assert Height(|names|, moves, 1) == |names| + Lift(moves[0]);
    if Moved(names, moves[0]).Some? {
      forall k | 0 <= k < |moves|
        ensures Height(|names|, moves, k + 1) == Height(|Moved(names, moves[0]).value|, moves[1..], k)
      {
        HeightStep(names, moves, k);
      }
      if NeverBelow(|Moved(names, moves[0]).value|, moves[1..]) {
        forall k | 0 <= k <= |moves| ensures Height(|names|, moves, k) >= 0 {
          if k > 0 {
            HeightStep(names, moves, k - 1);
          }
        }
      }
    }
  }

  lemma StepStaysAbove(names: seq<Bytes>, moves: seq<Move>, from: nat, p: nat)
    requires moves != [] && Moved(names, moves[0]).Some?
    ensures StaysAbove(|names|, moves, from + 1, p) <==>
            StaysAbove(|Moved(names, moves[0]).value|, moves[1..], from, p)
  {
    var start := |Moved(names, moves[0]).value|;
    if StaysAbove(|names|, moves, from + 1, p) {
      forall k | from <= k <= |moves[1..]| ensures Height(start, moves[1..], k) > p {
        HeightStep(names, moves, k);
      }
    }
    if StaysAbove(start, moves[1..], from, p) {
      forall k | from + 1 <= k <= |moves| ensures Height(|names|, moves, k) > p {
        HeightStep(names, moves, k - 1);
      }
    }
  }

  lemma StepPlaces(names: seq<Bytes>, moves: seq<Move>, k: nat, p: nat, name: Bytes)
    requires moves != [] && Moved(names, moves[0]).Some?
    ensures Places(|names|, moves, k + 1, p, name) <==> Places(|Moved(names, moves[0]).value|, moves[1..], k, p, name)
  {
    hide StaysAbove, Height;
    StepStaysAbove(names, moves, k + 1, p);
    if k + 1 < |moves| {
      HeightStep(names, moves, k);
    }
  }

  lemma FirstPlaces(names: seq<Bytes>, moves: seq<Move>, p: nat)
    requires moves != [] && Moved(names, moves[0]).Some? && |names| <= p
    requires StaysAbove(|Moved(names, moves[0]).value|, moves[1..], 0, p)
    ensures p == |names| && moves[0].Down? && Places(|names|, moves, 0, p, moves[0].name)
  {
    StepStaysAbove(names, moves, 0, p);
    assert Height(|names|, moves, 0) == |names|;
    assert Height(|Moved(names, moves[0]).value|, moves[1..], 0) == |Moved(names, moves[0]).value|;
  }

  lemma AboveFromStart(names: seq<Bytes>, moves: seq<Move>, p: nat)
    requires moves != []
    ensures StaysAbove(|names|, moves, 0, p) <==> |names| > p && StaysAbove(|names|, moves, 1, p)
  {
    assert Height(|names|, moves, 0) == |names|;
  }

  lemma StepAtPlace(names: seq<Bytes>, moves: seq<Move>, p: nat, name: Bytes)
    requires moves != [] && Moved(names, moves[0]).Some?
    requires AtPlace(Moved(names, moves[0]).value, moves[1..], p, name)
    ensures AtPlace(names, moves, p, name)
  {
    hide StaysAbove, Height, Places;
    var left := Moved(names, moves[0]).value;
    StepStaysAbove(names, moves, 0, p);
    AboveFromStart(names, moves, p);
    if StaysAbove(|left|, moves[1..], 0, p) {
      if p >= |names| {
        FirstPlaces(names, moves, p);
      }
    } else {
      var k: nat :| Places(|left|, moves[1..], k, p, name);
      StepPlaces(names, moves, k, p, name);
    }
  }

  lemma StepLeads(names: seq<Bytes>, moves: seq<Move>, result: seq<Bytes>)
    requires moves != [] && Moved(names, moves[0]).Some?
    requires Leads(Moved(names, moves[0]).value, moves[1..], result)
    ensures Leads(names, moves, result)
  {
    HeightStep(names, moves, |moves| - 1);
    hide Height, AtPlace;
    forall p: nat | p < |result| ensures AtPlace(names, moves, p, result[p]) {
      StepAtPlace(names, moves, p, result[p]);
    }
  }

  lemma LeadsNowhere(names: seq<Bytes>)
    ensures Leads(names, [], names) && NeverBelow(|names|, [])
  {
  }

  // ----- segments -----

  /** The segment is percent-encoded UTF-8 text without separators and controls. */
  predicate Legible(segment: Bytes) {
    && WellEncoded(segment) && IsText(Decode(segment)) && !HasControl(Decode(segment))
    && SLASH !in Decode(segment) && BACKSLASH !in Decode(segment)
  }

  function MoveOf(segment: Bytes): Move {
    var name := Decode(segment);
    if name == [] || name == [DOT] then Stay else if name == [DOT, DOT] then Up else Down(name)
  }

  function Moves(segments: seq<Bytes>): (moves: seq<Move>)
    ensures |moves| == |segments| && forall i :: 0 <= i < |segments| ==> moves[i] == MoveOf(segments[i])
  {
    seq(|segments|, i requires 0 <= i < |segments| => MoveOf(segments[i]))
  }

  lemma SegmentNameExactly(segment: Bytes)
    ensures SegmentName(segment).Some? <==> Legible(segment)
    ensures Legible(segment) ==> SegmentName(segment).value == Decode(segment)
  {
    hide WellEncoded, IsText, HasControl, Decode;
  }

  lemma {:induction false} FollowExactly(names: seq<Bytes>, segments: seq<Bytes>)
    ensures Follow(names, segments).Some? <==>
            (forall i :: 0 <= i < |segments| ==> Legible(segments[i])) && NeverBelow(|names|, Moves(segments))
    ensures Follow(names, segments).Some? ==> Leads(names, Moves(segments), Follow(names, segments).value)
    decreases |segments|
  {
    hide Legible, Decode, NeverBelow, Leads, SegmentName;
    if segments == [] {
      assert Moves(segments) == [];
      LeadsNowhere(names);
    } else {
      var moves, rest := Moves(segments), segments[1..];
      assert moves[1..] == Moves(rest) && moves[0] == MoveOf(segments[0]);
      SegmentNameExactly(segments[0]);
      StepNeverBelow(names, moves);
      assert (forall i :: 0 <= i < |segments| ==> Legible(segments[i])) <==>
             Legible(segments[0]) && forall i :: 0 <= i < |rest| ==> Legible(rest[i]) by {
        assert forall i :: 0 < i < |segments| ==> segments[i] == rest[i - 1];
        assert forall i :: 0 <= i < |rest| ==> rest[i] == segments[i + 1];
      }
      var next := Moved(names, moves[0]);
      if next.Some? {
        FollowExactly(next.value, rest);
        if Legible(segments[0]) {
          assert Follow(names, segments) == Follow(next.value, rest);
        }
        if Follow(names, segments).Some? {
          StepLeads(names, moves, Follow(names, segments).value);
        }
      }
    }
  }

  /** A URL is its path, segment by segment, and perhaps a query or fragment. Exactly
      when it resolves: the source is a file; the path is not empty, starts with no
      slash, holds no backslash and no control character, and has no colon in its first
      segment; every segment is legible; and none leads above the root. It resolves to
      where its segments lead from the source's directory. */
  lemma ResolvesExactly(source: Path, segments: seq<Bytes>, extras: Bytes)
    requires ValidPath(source) && segments != []
    requires forall i :: 0 <= i < |segments| ==> SLASH !in segments[i]
    requires HASH !in Join(segments) && QUESTION !in Join(segments)
    requires extras == [] || extras[0] == HASH || extras[0] == QUESTION
    ensures
      var raw := Join(segments);
      var resolved := Resolved(source, raw + extras);
      && (resolved.Some? <==>
            && Normalized(source).Ok? && Normalized(source).value != []
            && raw != [] && raw[0] != SLASH && BACKSLASH !in raw && !HasControl(raw) && COLON !in segments[0]
            && (forall i :: 0 <= i < |segments| ==> Legible(segments[i]))
            && NeverBelow(|Normalized(source).value| - 1, Moves(segments)))
      && (resolved.Some? ==>
            var file := Normalized(source).value;
            Leads(file[..|file| - 1], Moves(segments), resolved.value))
  {
    hide Normalized, Join, HasControl, Legible, NeverBelow, Leads, Follow, BeforeExtras, Split;
    ExtrasDropped(Join(segments), extras);
    SplitJoin(segments);
    if Normalized(source).Ok? && Normalized(source).value != [] {
      var dir := Normalized(source).value[..|Normalized(source).value| - 1];
      FollowExactly(dir, segments);
      NormalizedPortable(source);
      FollowPortable(dir, segments);
      if Follow(dir, segments).Some? {
        NormalizedPlain(Follow(dir, segments).value);
      }
    }
  }

  // ----- paths -----

  function MoveOfComponent(c: Component): Move {
    match c
    case Parent => Up
    case Normal(name) => Down(name)
  }

  function MovesOf(cs: seq<Component>): (moves: seq<Move>)
    ensures |moves| == |cs| && forall i :: 0 <= i < |cs| ==> moves[i] == MoveOfComponent(cs[i])
  {
    seq(|cs|, i requires 0 <= i < |cs| => MoveOfComponent(cs[i]))
  }

  lemma {:induction false} WalkExactly(names: seq<Bytes>, cs: seq<Component>)
    ensures Walk(names, cs).Ok? <==>
            (forall name :: Normal(name) in cs ==> BACKSLASH !in name) && NeverBelow(|names|, MovesOf(cs))
    ensures Walk(names, cs).Ok? ==> Leads(names, MovesOf(cs), Walk(names, cs).value)
    decreases |cs|
  {
    hide NeverBelow, Leads;
    if cs == [] {
      assert MovesOf(cs) == [];
      LeadsNowhere(names);
    } else {
      var moves, rest := MovesOf(cs), cs[1..];
      assert moves[1..] == MovesOf(rest) && moves[0] == MoveOfComponent(cs[0]);
      assert cs == [cs[0]] + rest;
      StepNeverBelow(names, moves);
      var next := Moved(names, moves[0]);
      if next.Some? {
        WalkExactly(next.value, rest);
        if Walk(names, cs).Ok? {
          StepLeads(names, moves, Walk(names, cs).value);
        }
      }
    }
  }

  /** Exactly when a path normalizes: it is absolute, all of it is text without control
      characters and backslashes, and no parent component leads above the root. It
      normalizes to where its components lead. */
  lemma NormalizesExactly(p: Path)
    ensures
      var r := Normalized(p);
      && (r.Ok? <==>
            && p.absolute && NeverBelow(0, MovesOf(p.components))
            && forall name :: Normal(name) in p.components ==>
                 IsText(name) && !HasControl(name) && BACKSLASH !in name)
      && (r.Ok? ==> Leads([], MovesOf(p.components), r.value))
  {
    hide NeverBelow, Leads, Walk, IsText, HasControl;
    WalkExactly([], p.components);
    assert forall i :: 0 <= i < |p.components| ==> p.components[i] in p.components;
    assert AllText(p.components) <==> forall name :: Normal(name) in p.components ==> IsText(name) by {
      assert AllText(p.components) ==> forall c :: c in p.components && c.Normal? ==> IsText(c.name);
    }
    assert SomeControl(p.components) <==> exists name :: Normal(name) in p.components && HasControl(name) by {
      if SomeControl(p.components) {
        var i :| 0 <= i < |p.components| && p.components[i].Normal? && HasControl(p.components[i].name);
        assert Normal(p.components[i].name) in p.components;
      }
    }
  }

  // ----- names with no prefix -----

  /** The segments are those of the names, with empty and dot segments among them. */
  predicate Spells(segments: seq<Bytes>, names: seq<Bytes>)
    decreases |segments|
  {
    if segments == [] then names == []
    else if segments[0] == [] || segments[0] == [DOT] then Spells(segments[1..], names)
    else names != [] && segments[0] == Encode(names[0]) && Spells(segments[1..], names[1..])
  }

  lemma {:induction false} FollowSpelled(dir: seq<Bytes>, segments: seq<Bytes>, names: seq<Bytes>)
    requires AllPortable(names) && Spells(segments, names)
    ensures Follow(dir, segments) == Some(dir + names)
    decreases |segments|
  {
    hide SegmentName, Encode, Portable;
    DotSegments();
    if segments == [] {
      assert dir + names == dir;
    } else if segments[0] == [] || segments[0] == [DOT] {
      FollowSpelled(dir, segments[1..], names);
    } else {
      NameSegment(names[0]);
      PortableIsName(names[0]);
      assert forall i :: 0 <= i < |names[1..]| ==> names[1..][i] == names[i + 1];
      FollowSpelled(dir + [names[0]], segments[1..], names[1..]);
      assert dir + [names[0]] + names[1..] == dir + names;
    }
  }

  lemma PortableIsName(name: Bytes)
    requires Portable(name)
    ensures name != [] && name != HERE && name != UP
  {
  }

  lemma {:induction false} SpelledSegments(segments: seq<Bytes>, names: seq<Bytes>)
    requires Spells(segments, names)
    ensures forall i :: 0 <= i < |segments| ==> SLASH !in segments[i] && COLON !in segments[i]
    ensures LinkText(Join(segments))
    decreases |segments|
  {
    hide Encode, LinkText, Join;
    forall i | 0 <= i < |segments| ensures Printed(segments[i]) && SLASH !in segments[i] && COLON !in segments[i] {
      SpelledOne(segments, names, i);
    }
    JoinIsLinkText(segments);
  }

  lemma {:induction false} SpelledOne(segments: seq<Bytes>, names: seq<Bytes>, i: nat)
    requires Spells(segments, names) && i < |segments|
    ensures Printed(segments[i]) && SLASH !in segments[i] && COLON !in segments[i]
    decreases |segments|
  {
    hide Encode;
    if i > 0 {
      if segments[0] == [] || segments[0] == [DOT] {
        SpelledOne(segments[1..], names, i - 1);
      } else {
        SpelledOne(segments[1..], names[1..], i - 1);
      }
    } else if segments[0] == [] {
      assert Encode([]) == [] by { EncodeNothing(); }
    } else if segments[0] != [DOT] {
      EncodeWellFormed(names[0]);
    }
  }

  lemma EncodeNothing()
    ensures Encode([]) == []
  {
  }

  /** Hand-written names resolve beside the source, without a dot prefix and with empty
      and dot segments anywhere behind the first. */
  lemma NamesResolve(source: Path, segments: seq<Bytes>, names: seq<Bytes>, extras: Bytes)
    requires ValidPath(source) && Normalized(source).Ok? && Normalized(source).value != []
    requires segments != [] && segments[0] != [] && AllPortable(names) && Spells(segments, names)
    requires extras == [] || extras[0] == HASH || extras[0] == QUESTION
    ensures
      var file := Normalized(source).value;
      Resolved(source, Join(segments) + extras) == Some(file[..|file| - 1] + names)
  {
    hide Normalized, Follow, Spells, Split, LinkText, HasControl, BeforeExtras, Portable;
    var raw, file := Join(segments), Normalized(source).value;
    var dir := file[..|file| - 1];
    SpelledSegments(segments, names);
    LinkTextBytes(raw);
    NoControl(raw);
    ExtrasDropped(raw, extras);
    SplitJoin(segments);
    FollowSpelled(dir, segments, names);
    JoinStarts(segments);
    NormalizedPortable(source);
    NormalizedPlain(dir + names);
  }

  lemma JoinStarts(segments: seq<Bytes>)
    requires segments != [] && segments[0] != []
    ensures Join(segments) != [] && Join(segments)[0] == segments[0][0] && segments[0][0] in segments[0]
  {
  }

  // ----- the alphabets -----

  const UPPER: string := "ABCDEFGHIJKLMNOPQRSTUVWXYZ"
  const LOWER: string := "abcdefghijklmnopqrstuvwxyz"
  const DIGITS: string := "0123456789"

  lemma LettersAndDigits(b: Byte)
    ensures b as char in UPPER <==> 65 <= b <= 90
    ensures b as char in LOWER <==> 97 <= b <= 122
    ensures b as char in DIGITS <==> 48 <= b <= 57
  {
  }

  lemma UnreservedExactly(b: Byte)
    ensures Unreserved(b) <==> b as char in UPPER + LOWER + DIGITS + "-._~"
  {
    LettersAndDigits(b);
  }

  /** Encoding leaves ASCII letters, digits and four marks as they are (section 2.3 of
      RFC 3986), and turns every other byte into a triplet that decodes to it. */
  lemma EncodesExactly(b: Byte)
    ensures Encode([b]) == [b] <==> b as char in UPPER + LOWER + DIGITS + "-._~"
    ensures Encode([b]) != [b] ==> |Encode([b])| == 3 && StartsTriplet(Encode([b]))
    ensures Decode(Encode([b])) == [b]
  {
    UnreservedExactly(b);
    hide Unreserved, IsHex, HexDigit, HexValue;
    assert Encode([b]) == EncodeByte(b) + Encode([]) && Encode([]) == [];
    DecodeEncode([b]);
    HexRoundTrip(b);
  }

  /** A triplet takes digits and letters of either case, each for its value (section
      2.1 of RFC 3986). */
  lemma HexExactly(b: Byte)
    ensures IsHex(b) <==> b as char in DIGITS + "ABCDEF" + "abcdef"
    ensures IsHex(b) ==> (DIGITS + "ABCDEF")[HexValue(b)] == b as char || (DIGITS + "abcdef")[HexValue(b)] == b as char
  {
  }

  /** What is escaped in a label is the punctuation of ASCII. */
  lemma PunctuationExactly(c: nat)
    ensures Punctuation(c) <==> c < 128 && c as char in "!\"#$%&'()*+,-./:;<=>?@[\\]^_`{|}~"
  {
  }
}

/** Relative URLs between saved documents: printing one from two paths, and
    resolving one against a path. Paths are those of a single-rooted system. */
module Links {
  import opened Wrappers

  type Byte = x: int | 0 <= x < 256

  type Bytes = seq<Byte>

  const PERCENT: Byte := 37
  const DOT: Byte := 46
  const SLASH: Byte := 47
  const COLON: Byte := 58
  const BACKSLASH: Byte := 92
  const HASH: Byte := 35
  const QUESTION: Byte := 63

  const UP: Bytes := [DOT, DOT]
  const HERE: Bytes := [DOT]

  datatype Component = Parent | Normal(name: Bytes)

  /** A path as its components below the root; `.` components are gone. */
  datatype Path = Path(absolute: bool, components: seq<Component>)

  datatype LinkError = NotText | NotSaved | EscapesRoot | NotPortable | NoSource | NoTarget

  // ----- text -----

  predicate Tail(b: Byte) {
    128 <= b < 192
  }

  /** Length of the well-formed UTF-8 sequence a text starts with, or 0
      (section 4 of RFC 3629). */
  function CharLength(s: Bytes): (n: nat)
    ensures n <= |s|
  {
    if s == [] then 0
    else if s[0] < 128 then 1
    else if |s| >= 2 && 0xC2 <= s[0] <= 0xDF && Tail(s[1]) then 2
    else if |s| >= 3 && Tail(s[2]) && (
              || (s[0] == 0xE0 && 0xA0 <= s[1] <= 0xBF)
              || ((0xE1 <= s[0] <= 0xEC || 0xEE <= s[0] <= 0xEF) && Tail(s[1]))
              || (s[0] == 0xED && 0x80 <= s[1] <= 0x9F)) then 3
    else if |s| >= 4 && Tail(s[2]) && Tail(s[3]) && (
              || (s[0] == 0xF0 && 0x90 <= s[1] <= 0xBF)
              || (0xF1 <= s[0] <= 0xF3 && Tail(s[1]))
              || (s[0] == 0xF4 && 0x80 <= s[1] <= 0x8F)) then 4
    else 0
  }

  predicate IsText(s: Bytes)
    decreases |s|
  {
    s == [] || (CharLength(s) > 0 && IsText(s[CharLength(s)..]))
  }

  /** The text contains U+0000 to U+001F or U+007F to U+009F. */
  predicate HasControl(s: Bytes)
    decreases |s|
  {
    s != [] && (
      || s[0] < 32 || s[0] == 127
      || (|s| >= 2 && s[0] == 0xC2 && 0x80 <= s[1] <= 0x9F)
      || HasControl(s[Step(s)..]))
  }

  function Step(s: Bytes): (n: nat)
    requires s != []
    ensures 1 <= n <= |s|
  {
    if CharLength(s) == 0 then 1 else CharLength(s)
  }

  /** A file name: not empty, not a dot segment, without a separator. */
  predicate IsName(s: Bytes) {
    s != [] && s != HERE && s != UP && SLASH !in s
  }

  ghost predicate ValidPath(p: Path) {
    forall i :: 0 <= i < |p.components| && p.components[i].Normal? ==> IsName(p.components[i].name)
  }

  // ----- normalized paths -----

  predicate AllText(cs: seq<Component>) {
    forall i :: 0 <= i < |cs| && cs[i].Normal? ==> IsText(cs[i].name)
  }

  predicate SomeControl(cs: seq<Component>) {
    exists i :: 0 <= i < |cs| && cs[i].Normal? && HasControl(cs[i].name)
  }

  function Walk(names: seq<Bytes>, cs: seq<Component>): Result<seq<Bytes>, LinkError>
    decreases |cs|
  {
    if cs == [] then Ok(names)
    else
      match cs[0]
      case Parent => if names == [] then Err(EscapesRoot) else Walk(names[..|names| - 1], cs[1..])
      case Normal(name) => if BACKSLASH in name then Err(NotPortable) else Walk(names + [name], cs[1..])
  }

  /** The names below the root that a path comes to. */
  function Normalized(p: Path): Result<seq<Bytes>, LinkError> {
    if !AllText(p.components) then Err(NotText)
    else if !p.absolute || SomeControl(p.components) then Err(NotSaved)
    else Walk([], p.components)
  }

  method NormalizedPath(p: Path) returns (r: Result<seq<Bytes>, LinkError>)
    ensures r == Normalized(p)
  {
    if !AllText(p.components) {
      return Err(NotText);
    }
    if !p.absolute || SomeControl(p.components) {
      return Err(NotSaved);
    }
    var names: seq<Bytes> := [];
    assert p.components[0..] == p.components;
    for i := 0 to |p.components|
      invariant Walk(names, p.components[i..]) == Walk([], p.components)
    {
      assert p.components[i..][0] == p.components[i] && p.components[i..][1..] == p.components[i + 1..];
      match p.components[i] {
        case Parent =>
          if names == [] {
            return Err(EscapesRoot);
          }
          names := names[..|names| - 1];
        case Normal(name) =>
          if BACKSLASH in name {
            return Err(NotPortable);
          }
          names := names + [name];
      }
    }
    assert p.components[|p.components|..] == [];
    return Ok(names);
  }

  /** A name that can be linked to on any system. */
  predicate Portable(name: Bytes) {
    IsName(name) && IsText(name) && !HasControl(name) && BACKSLASH !in name
  }

  ghost predicate AllPortable(names: seq<Bytes>) {
    forall i :: 0 <= i < |names| ==> Portable(names[i])
  }

  function Plain(names: seq<Bytes>): seq<Component> {
    seq(|names|, i requires 0 <= i < |names| => Normal(names[i]))
  }

  lemma {:induction false} WalkPortable(names: seq<Bytes>, cs: seq<Component>)
    requires AllPortable(names) && AllText(cs) && !SomeControl(cs)
    requires forall i :: 0 <= i < |cs| && cs[i].Normal? ==> IsName(cs[i].name)
    ensures Walk(names, cs).Ok? ==> AllPortable(Walk(names, cs).value)
    decreases |cs|
  {
    hide IsText, HasControl, IsName;
    if cs != [] {
      var rest := cs[1..];
      assert forall i :: 0 <= i < |rest| ==> rest[i] == cs[i + 1];
      match cs[0] {
        case Parent =>
          if names != [] {
            WalkPortable(names[..|names| - 1], rest);
          }
        case Normal(name) =>
          if BACKSLASH !in name {
            WalkPortable(names + [name], rest);
          }
      }
    }
  }

  /** Normalizing succeeds with portable names only. */
  lemma NormalizedPortable(p: Path)
    requires ValidPath(p)
    ensures Normalized(p).Ok? ==> AllPortable(Normalized(p).value)
  {
    hide IsText, HasControl, IsName;
    if AllText(p.components) && !SomeControl(p.components) {
      WalkPortable([], p.components);
    }
  }

  lemma {:induction false} WalkPlain(names: seq<Bytes>, more: seq<Bytes>)
    requires AllPortable(more)
    ensures Walk(names, Plain(more)) == Ok(names + more)
    decreases |more|
  {
    hide IsText, HasControl, IsName;
    if more == [] {
      assert names + more == names;
    } else {
      assert Portable(more[0]);
      assert Plain(more)[1..] == Plain(more[1..]);
      assert forall i :: 0 <= i < |more[1..]| ==> more[1..][i] == more[i + 1];
      WalkPlain(names + [more[0]], more[1..]);
      assert names + [more[0]] + more[1..] == names + more;
    }
  }

  /** Portable names already are a normalized path. */
  lemma NormalizedPlain(names: seq<Bytes>)
    requires AllPortable(names)
    ensures Normalized(Path(true, Plain(names))) == Ok(names)
  {
    hide IsText, HasControl, IsName;
    WalkPlain([], names);
    assert [] + names == names;
  }

  // ----- percent-encoding (sections 2.1 and 2.3 of RFC 3986) -----

  predicate Unreserved(b: Byte) {
    48 <= b <= 57 || 65 <= b <= 90 || 97 <= b <= 122 || b in {45, 46, 95, 126}
  }

  function HexDigit(n: nat): Byte
    requires n < 16
  {
    if n < 10 then 48 + n else 55 + n
  }

  predicate IsHex(b: Byte) {
    48 <= b <= 57 || 65 <= b <= 70 || 97 <= b <= 102
  }

  function HexValue(b: Byte): (n: nat)
    requires IsHex(b)
    ensures n < 16
  {
    if b <= 57 then b - 48 else if b <= 70 then b - 55 else b - 87
  }

  function EncodeByte(b: Byte): Bytes {
    if Unreserved(b) then [b] else [PERCENT, HexDigit(b / 16), HexDigit(b % 16)]
  }

  function Encode(s: Bytes): Bytes {
    if s == [] then [] else EncodeByte(s[0]) + Encode(s[1..])
  }

  predicate StartsTriplet(s: Bytes) {
    |s| >= 3 && s[0] == PERCENT && IsHex(s[1]) && IsHex(s[2])
  }

  function Decode(s: Bytes): Bytes
    decreases |s|
  {
    if s == [] then []
    else if StartsTriplet(s) then [16 * HexValue(s[1]) + HexValue(s[2])] + Decode(s[3..])
    else [s[0]] + Decode(s[1..])
  }

  /** Every percent sign starts a triplet. */
  predicate WellEncoded(s: Bytes) {
    forall i :: 0 <= i < |s| && s[i] == PERCENT ==> StartsTriplet(s[i..])
  }

  lemma {:induction false} DecodeEncode(s: Bytes)
    ensures Decode(Encode(s)) == s
  {
    if s != [] {
      DecodeEncode(s[1..]);
      var rest := Encode(s[1..]);
      if Unreserved(s[0]) {
        assert Encode(s)[1..] == rest;
      } else {
        HexRoundTrip(s[0]);
        assert Encode(s)[3..] == rest;
      }
    }
  }

  lemma HexRoundTrip(b: Byte)
    ensures IsHex(HexDigit(b / 16)) && IsHex(HexDigit(b % 16))
    ensures 16 * HexValue(HexDigit(b / 16)) + HexValue(HexDigit(b % 16)) == b
  {
  }

  lemma {:induction false} EncodeWellFormed(s: Bytes)
    ensures WellEncoded(Encode(s))
    ensures forall b :: b in Encode(s) ==> Unreserved(b) || b == PERCENT
  {
    hide StartsTriplet;
    if s != [] {
      EncodeWellFormed(s[1..]);
      var head, rest := EncodeByte(s[0]), Encode(s[1..]);
      TripletDigits(s[0]);
      forall i | 0 <= i < |head + rest| && (head + rest)[i] == PERCENT ensures StartsTriplet((head + rest)[i..]) {
        if i < |head| {
          TripletStarts(s[0], rest);
          assert i == 0 && (head + rest)[0..] == head + rest;
        } else {
          assert (head + rest)[i..] == rest[i - |head|..];
        }
      }
    }
  }

  lemma TripletDigits(b: Byte)
    ensures forall i :: 0 <= i < |EncodeByte(b)| && EncodeByte(b)[i] == PERCENT ==> i == 0
    ensures forall c :: c in EncodeByte(b) ==> Unreserved(c) || c == PERCENT
  {
  }

  lemma TripletStarts(b: Byte, rest: Bytes)
    ensures !Unreserved(b) ==> StartsTriplet(EncodeByte(b) + rest)
    ensures EncodeByte(b)[0] == PERCENT ==> !Unreserved(b)
  {
    HexRoundTrip(b);
  }

  // ----- joining and splitting segments -----

  function Join(parts: seq<Bytes>): Bytes {
    if parts == [] then [] else if |parts| == 1 then parts[0] else parts[0] + [SLASH] + Join(parts[1..])
  }

  function FirstSlash(s: Bytes): (i: nat)
    ensures i <= |s| && (forall k :: 0 <= k < i ==> s[k] != SLASH) && (i < |s| ==> s[i] == SLASH)
  {
    if s == [] || s[0] == SLASH then 0 else 1 + FirstSlash(s[1..])
  }

  function Split(s: Bytes): (parts: seq<Bytes>)
    ensures |parts| >= 1
    decreases |s|
  {
    var i := FirstSlash(s);
    if i == |s| then [s] else [s[..i]] + Split(s[i + 1..])
  }

  lemma SplitFirst(head: Bytes, rest: Bytes)
    requires SLASH !in head
    ensures Split(head + [SLASH] + rest) == [head] + Split(rest)
  {
    var s := head + [SLASH] + rest;
    assert s[|head|] == SLASH;
    assert forall k :: 0 <= k < |head| ==> s[k] == head[k] && head[k] in head;
    assert FirstSlash(s) == |head|;
    assert s[..|head|] == head && s[|head| + 1..] == rest;
  }

  lemma {:induction false} SplitJoin(parts: seq<Bytes>)
    requires parts != [] && forall i :: 0 <= i < |parts| ==> SLASH !in parts[i]
    ensures Split(Join(parts)) == parts
  {
    if |parts| == 1 {
      assert forall k :: 0 <= k < |parts[0]| ==> parts[0][k] in parts[0];
      assert parts == [parts[0]];
    } else {
      assert forall i :: 0 <= i < |parts[1..]| ==> parts[1..][i] == parts[i + 1];
      SplitJoin(parts[1..]);
      SplitFirst(parts[0], Join(parts[1..]));
    }
  }

  // ----- printing -----

  function Common(a: seq<Bytes>, b: seq<Bytes>): (n: nat)
    ensures n <= |a| && n <= |b| && a[..n] == b[..n]
    ensures n < |a| && n < |b| ==> a[n] != b[n]
  {
    if a == [] || b == [] || a[0] != b[0] then 0 else 1 + Common(a[1..], b[1..])
  }

  function Ups(n: nat): (parts: seq<Bytes>)
    ensures |parts| == n && forall i :: 0 <= i < n ==> parts[i] == UP
  {
    seq(n, _ => UP)
  }

  function EncodeAll(names: seq<Bytes>): (parts: seq<Bytes>)
    ensures |parts| == |names| && forall i :: 0 <= i < |names| ==> parts[i] == Encode(names[i])
  {
    seq(|names|, i requires 0 <= i < |names| => Encode(names[i]))
  }

  /** The segments from the directory `from` to the file `to`. */
  function Parts(from: seq<Bytes>, to: seq<Bytes>): seq<Bytes> {
    Ups(|from| - Common(from, to)) + EncodeAll(to[Common(from, to)..])
  }

  function Prefixed(url: Bytes): Bytes {
    if UP + [SLASH] <= url then url else HERE + [SLASH] + url
  }

  function Relative(source: Path, target: Path): Result<Bytes, LinkError> {
    match (Normalized(source), Normalized(target))
    case (Err(e), _) => Err(e)
    case (Ok(_), Err(e)) => Err(e)
    case (Ok(s), Ok(t)) =>
      if s == [] then Err(NoSource)
      else if t == [] then Err(NoTarget)
      else Ok(Prefixed(Join(Parts(s[..|s| - 1], t))))
  }

  method RelativeUrl(source: Path, target: Path) returns (r: Result<Bytes, LinkError>)
    ensures r == Relative(source, target)
  {
    hide Normalized, Encode, Join, Prefixed, Common;
    var s := NormalizedPath(source);
    if s.Err? {
      return Err(s.error);
    }
    var t := NormalizedPath(target);
    if t.Err? {
      return Err(t.error);
    }
    if s.value == [] {
      return Err(NoSource);
    }
    if t.value == [] {
      return Err(NoTarget);
    }
    var from, to := s.value[..|s.value| - 1], t.value;
    var common := CommonPrefix(from, to);
    var parts := Ups(|from| - common);
    for i := common to |to|
      invariant parts == Ups(|from| - common) + EncodeAll(to[common..i])
    {
      assert to[common..i + 1] == to[common..i] + [to[i]];
      assert EncodeAll(to[common..i + 1]) == EncodeAll(to[common..i]) + [Encode(to[i])];
      parts := parts + [Encode(to[i])];
    }
    assert to[common..|to|] == to[common..];
    return Ok(Prefixed(Join(parts)));
  }

  method CommonPrefix(a: seq<Bytes>, b: seq<Bytes>) returns (n: nat)
    ensures n == Common(a, b)
  {
    n := 0;
    while n < |a| && n < |b| && a[n] == b[n]
      invariant n <= |a| && n <= |b|
      invariant n + Common(a[n..], b[n..]) == Common(a, b)
    {
      assert a[n..][1..] == a[n + 1..] && b[n..][1..] == b[n + 1..];
      assert a[n..][0] == b[n..][0];
      n := n + 1;
    }
    if n < |a| && n < |b| {
      assert a[n..][0] == a[n] && b[n..][0] == b[n];
    }
  }

  // ----- resolving -----

  function BeforeExtras(s: Bytes): Bytes {
    if s == [] || s[0] == HASH || s[0] == QUESTION then [] else [s[0]] + BeforeExtras(s[1..])
  }

  predicate Refused(raw: Bytes) {
    || raw == []
    || raw[0] == SLASH
    || BACKSLASH in raw
    || HasControl(raw)
    || COLON in Split(raw)[0]
  }

  /** The name a segment decodes to, if it may stand in a path. */
  function SegmentName(segment: Bytes): Option<Bytes> {
    var name := Decode(segment);
    if !WellEncoded(segment) || !IsText(name) || SLASH in name || BACKSLASH in name || HasControl(name)
    then None
    else Some(name)
  }

  function Follow(names: seq<Bytes>, segments: seq<Bytes>): Option<seq<Bytes>>
    decreases |segments|
  {
    if segments == [] then Some(names)
    else
      var name := SegmentName(segments[0]);
      if name.None? then None
      else if name.value == [] || name.value == HERE then Follow(names, segments[1..])
      else if name.value == UP then
        if names == [] then None else Follow(names[..|names| - 1], segments[1..])
      else Follow(names + [name.value], segments[1..])
  }

  function Resolved(source: Path, target: Bytes): Option<seq<Bytes>> {
    var s := Normalized(source);
    var raw := BeforeExtras(target);
    if s.Err? || Refused(raw) || s.value == [] then None
    else
      var names := Follow(s.value[..|s.value| - 1], Split(raw));
      if names.None? then None
      else
        var whole := Normalized(Path(true, Plain(names.value)));
        if whole.Ok? then Some(whole.value) else None
  }

  method ResolveLocal(source: Path, target: Bytes) returns (r: Option<seq<Bytes>>)
    ensures r == Resolved(source, target)
  {
    hide Normalized, SegmentName, Refused, BeforeExtras, Split;
    var s := NormalizedPath(source);
    var raw := BeforeExtras(target);
    if s.Err? || Refused(raw) || s.value == [] {
      return None;
    }
    var names, segments := s.value[..|s.value| - 1], Split(raw);
    ghost var start := names;
    assert segments[0..] == segments;
    for i := 0 to |segments|
      invariant Follow(names, segments[i..]) == Follow(start, segments)
    {
      assert segments[i..][0] == segments[i] && segments[i..][1..] == segments[i + 1..];
      var name := SegmentName(segments[i]);
      if name.None? {
        return None;
      }
      if name.value == [] || name.value == HERE {
      } else if name.value == UP {
        if names == [] {
          return None;
        }
        names := names[..|names| - 1];
      } else {
        names := names + [name.value];
      }
    }
    assert segments[|segments|..] == [];
    var whole := NormalizedPath(Path(true, Plain(names)));
    if whole.Err? {
      return None;
    }
    return Some(whole.value);
  }

  // ----- what is printed -----

  /** A URL of unreserved characters, percent triplets and slashes. */
  predicate LinkText(s: Bytes)
    decreases |s|
  {
    || s == []
    || ((Unreserved(s[0]) || s[0] == SLASH) && LinkText(s[1..]))
    || (StartsTriplet(s) && LinkText(s[3..]))
  }

  lemma {:induction false} EncodeIsLinkText(s: Bytes, rest: Bytes)
    requires LinkText(rest)
    ensures LinkText(Encode(s) + rest)
  {
    if s == [] {
      assert Encode(s) + rest == rest;
    } else {
      EncodeIsLinkText(s[1..], rest);
      var more := Encode(s[1..]) + rest;
      assert Encode(s) + rest == EncodeByte(s[0]) + more;
      var all := EncodeByte(s[0]) + more;
      if Unreserved(s[0]) {
        assert all[1..] == more;
      } else {
        TripletStarts(s[0], more);
        assert all[3..] == more;
      }
    }
  }

  /** A segment printed by `Relative`. */
  ghost predicate Printed(part: Bytes) {
    part == UP || part == HERE || exists name :: part == Encode(name)
  }

  lemma PrintedIsLinkText(part: Bytes, rest: Bytes)
    requires Printed(part) && LinkText(rest)
    ensures LinkText(part + rest)
  {
    if part == UP {
      assert (part + rest)[1..] == [DOT] + rest && ([DOT] + rest)[1..] == rest;
    } else if part == HERE {
      assert (part + rest)[1..] == rest;
    } else {
      var name :| part == Encode(name);
      EncodeIsLinkText(name, rest);
    }
  }

  lemma {:induction false} JoinIsLinkText(parts: seq<Bytes>)
    requires forall i :: 0 <= i < |parts| ==> Printed(parts[i])
    ensures LinkText(Join(parts))
  {
    hide Printed;
    if parts != [] {
      var rest := Join(parts[1..]);
      JoinIsLinkText(parts[1..]);
      if |parts| == 1 {
        PrintedIsLinkText(parts[0], []);
        assert parts[0] + [] == parts[0];
      } else {
        assert ([SLASH] + rest)[1..] == rest;
        PrintedIsLinkText(parts[0], [SLASH] + rest);
        assert parts[0] + [SLASH] + rest == parts[0] + ([SLASH] + rest);
      }
    }
  }

  /** The segments of a printed URL: the explicit prefix, then the parts. */
  function Segments(parts: seq<Bytes>): seq<Bytes> {
    if |parts| >= 2 && parts[0] == UP then parts else [HERE] + (if parts == [] then [[]] else parts)
  }

  lemma PrefixedJoin(parts: seq<Bytes>)
    requires forall i :: 0 <= i < |parts| ==> SLASH !in parts[i]
    ensures Prefixed(Join(parts)) == Join(Segments(parts))
  {
    hide Join;
    JoinUnfolds(parts);
    var url := Join(parts);
    if |parts| >= 2 && parts[0] == UP {
      assert UP + [SLASH] <= url;
    } else {
      if |parts| >= 2 && UP + [SLASH] <= url {
        OnlyUp(parts[0], Join(parts[1..]));
      }
      NeedsSlash(url);
      var tail := if parts == [] then [[]] else parts;
      assert Segments(parts)[1..] == tail;
      JoinUnfolds(Segments(parts));
      JoinUnfolds(tail);
    }
  }

  lemma NeedsSlash(s: Bytes)
    ensures UP + [SLASH] <= s ==> SLASH in s
  {
    if UP + [SLASH] <= s {
      assert s[2] == SLASH;
    }
  }

  lemma JoinUnfolds(parts: seq<Bytes>)
    ensures parts == [] ==> Join(parts) == []
    ensures |parts| == 1 ==> Join(parts) == parts[0]
    ensures |parts| >= 2 ==> Join(parts) == parts[0] + [SLASH] + Join(parts[1..])
  {
  }

  lemma OnlyUp(head: Bytes, rest: Bytes)
    requires SLASH !in head && UP + [SLASH] <= head + [SLASH] + rest
    ensures head == UP
  {
    var url := head + [SLASH] + rest;
    assert url[0] == DOT && url[1] == DOT && url[2] == SLASH;
    assert url[|head|] == SLASH;
    assert forall k :: 0 <= k < |head| ==> url[k] == head[k] && head[k] in head;
  }

  lemma PartsPrinted(from: seq<Bytes>, to: seq<Bytes>)
    ensures forall i :: 0 <= i < |Parts(from, to)| ==> Printed(Parts(from, to)[i]) && SLASH !in Parts(from, to)[i]
  {
    forall name: Bytes ensures SLASH !in Encode(name) {
      EncodeWellFormed(name);
    }
  }

  /** The printed URL has only unreserved characters, percent triplets and slashes,
      and its first segment is a dot segment, so it is never read as a scheme or as
      a path from the root. */
  lemma RelativeIsSafe(source: Path, target: Path)
    requires Relative(source, target).Ok?
    ensures LinkText(Relative(source, target).value)
    ensures Split(Relative(source, target).value)[0] in {HERE, UP}
  {
    hide Normalized, Encode, LinkText, Join, Split, Prefixed;
    var s, t := Normalized(source).value, Normalized(target).value;
    var from := s[..|s| - 1];
    var parts := Parts(from, t);
    PartsPrinted(from, t);
    PrefixedJoin(parts);
    SegmentsPrinted(parts);
    JoinIsLinkText(Segments(parts));
    SplitJoin(Segments(parts));
  }

  lemma SegmentsPrinted(parts: seq<Bytes>)
    requires forall i :: 0 <= i < |parts| ==> Printed(parts[i]) && SLASH !in parts[i]
    ensures forall i :: 0 <= i < |Segments(parts)| ==> Printed(Segments(parts)[i]) && SLASH !in Segments(parts)[i]
  {
    assert Encode([]) == [];
    assert Printed(HERE) && Printed([]);
    hide Printed;
  }

  // ----- resolving what was printed -----

  lemma {:induction false} LinkTextBytes(s: Bytes)
    requires LinkText(s)
    ensures HASH !in s && QUESTION !in s && BACKSLASH !in s
    ensures forall b :: b in s ==> 32 < b < 127
    decreases |s|
  {
    if s != [] {
      if (Unreserved(s[0]) || s[0] == SLASH) && LinkText(s[1..]) {
        LinkTextBytes(s[1..]);
        assert s == [s[0]] + s[1..];
      } else {
        LinkTextBytes(s[3..]);
        assert s == [s[0], s[1], s[2]] + s[3..];
      }
    }
  }

  lemma {:induction false} NoControl(s: Bytes)
    requires forall b :: b in s ==> 32 < b < 127
    ensures !HasControl(s)
    decreases |s|
  {
    if s != [] {
      assert s[0] in s;
      var rest := s[Step(s)..];
      assert forall b :: b in rest ==> b in s;
      NoControl(rest);
    }
  }

  lemma {:induction false} ExtrasDropped(s: Bytes, extras: Bytes)
    requires HASH !in s && QUESTION !in s
    requires extras == [] || extras[0] == HASH || extras[0] == QUESTION
    ensures BeforeExtras(s + extras) == s
  {
    if s == [] {
      assert s + extras == extras;
    } else {
      ExtrasDropped(s[1..], extras);
      assert (s + extras)[1..] == s[1..] + extras;
    }
  }

  lemma NameSegment(name: Bytes)
    requires Portable(name)
    ensures SegmentName(Encode(name)) == Some(name)
  {
    DecodeEncode(name);
    EncodeWellFormed(name);
  }

  lemma DotSegments()
    ensures SegmentName(UP) == Some(UP) && SegmentName(HERE) == Some(HERE) && SegmentName([]) == Some([])
  {
    assert UP[1..] == HERE && HERE[1..] == [];
    assert Decode([]) == [] && [DOT] + [] == HERE && [DOT] + HERE == UP;
    assert Decode(HERE) == [DOT] + Decode(HERE[1..]);
    assert Decode(UP) == [DOT] + Decode(UP[1..]);
    assert CharLength(HERE) == 1 && CharLength(UP) == 1;
    assert IsText(HERE) && IsText(UP);
    NoControl(HERE);
    NoControl(UP);
  }

  lemma {:induction false} FollowUps(names: seq<Bytes>, n: nat, rest: seq<Bytes>)
    requires n <= |names|
    ensures Follow(names, Ups(n) + rest) == Follow(names[..|names| - n], rest)
    decreases n
  {
    hide SegmentName;
    DotSegments();
    if n == 0 {
      assert Ups(0) + rest == rest && names[..|names|] == names;
    } else {
      var segments := Ups(n) + rest;
      assert segments[0] == UP && segments[1..] == Ups(n - 1) + rest;
      var up := names[..|names| - 1];
      FollowUps(up, n - 1, rest);
      assert up[..|up| - (n - 1)] == names[..|names| - n];
    }
  }

  lemma {:induction false} FollowNames(names: seq<Bytes>, more: seq<Bytes>)
    requires AllPortable(more)
    ensures Follow(names, EncodeAll(more)) == Some(names + more)
    decreases |more|
  {
    hide SegmentName, IsText, HasControl, Encode;
    if more == [] {
      assert names + more == names;
    } else {
      assert Portable(more[0]);
      NameSegment(more[0]);
      assert EncodeAll(more)[1..] == EncodeAll(more[1..]);
      assert forall i :: 0 <= i < |more[1..]| ==> more[1..][i] == more[i + 1];
      FollowNames(names + [more[0]], more[1..]);
      assert names + [more[0]] + more[1..] == names + more;
    }
  }

  /** Following the parts from one directory arrives at the target. */
  lemma FollowParts(from: seq<Bytes>, to: seq<Bytes>)
    requires AllPortable(to)
    ensures Follow(from, Segments(Parts(from, to))) == Some(to)
  {
    hide SegmentName, Encode, Follow, Portable;
    var common := Common(from, to);
    var ups, names := Ups(|from| - common), EncodeAll(to[common..]);
    assert AllPortable(to[common..]) by {
      assert forall i :: 0 <= i < |to[common..]| ==> to[common..][i] == to[common + i];
    }
    FollowUps(from, |from| - common, names);
    FollowNames(from[..common], to[common..]);
    assert from[..common] + to[common..] == to;
    assert Follow(from, Parts(from, to)) == Some(to);
    FollowHere(from, Parts(from, to));
  }

  lemma FollowHere(names: seq<Bytes>, parts: seq<Bytes>)
    ensures Follow(names, Segments(parts)) == Follow(names, parts)
  {
    hide SegmentName;
    DotSegments();
    var segments := Segments(parts);
    if !(|parts| >= 2 && parts[0] == UP) {
      assert segments[0] == HERE;
      if parts == [] {
        assert segments[1..] == [[]] && [[]][1..] == parts;
      } else {
        assert segments[1..] == parts;
      }
    }
  }

  lemma PrintedNotRefused(url: Bytes)
    requires LinkText(url) && Split(url)[0] in {HERE, UP}
    ensures !Refused(url)
  {
    LinkTextBytes(url);
    NoControl(url);
    var i := FirstSlash(url);
    assert Split(url)[0] == url[..i];
  }

  /** Printing fails only when a path does not normalize or is the root itself. */
  lemma RelativeSucceeds(source: Path, target: Path)
    ensures Relative(source, target).Ok? <==>
            && Normalized(source).Ok? && Normalized(source).value != []
            && Normalized(target).Ok? && Normalized(target).value != []
  {
    hide Normalized;
  }

  /** Resolving a printed URL against the same source, with any query or fragment
      appended, gives the normalized target: for every pair of paths that can be
      linked, a target that is an ancestor of the source included. */
  lemma RoundTrip(source: Path, target: Path, extras: Bytes)
    requires ValidPath(source) && ValidPath(target) && Relative(source, target).Ok?
    requires extras == [] || extras[0] == HASH || extras[0] == QUESTION
    ensures Resolved(source, Relative(source, target).value + extras) == Some(Normalized(target).value)
  {
    hide Normalized, LinkText, Join, Refused, Split, Follow, Parts, Prefixed, Segments, BeforeExtras, Portable;
    var s, t := Normalized(source).value, Normalized(target).value;
    var from := s[..|s| - 1];
    var url := Relative(source, target).value;
    NormalizedPortable(target);
    RelativeIsSafe(source, target);
    LinkTextBytes(url);
    ExtrasDropped(url, extras);
    PrintedNotRefused(url);
    var parts := Parts(from, t);
    PartsPrinted(from, t);
    PrefixedJoin(parts);
    SegmentsPrinted(parts);
    SegmentsNotEmpty(parts);
    SplitJoin(Segments(parts));
    FollowParts(from, t);
    NormalizedPlain(t);
  }

  lemma SegmentsNotEmpty(parts: seq<Bytes>)
    ensures Segments(parts) != []
  {
  }

  // ----- whatever is resolved -----

  lemma {:induction false} FollowPortable(names: seq<Bytes>, segments: seq<Bytes>)
    requires AllPortable(names)
    ensures Follow(names, segments).Some? ==> AllPortable(Follow(names, segments).value)
    decreases |segments|
  {
    hide SegmentName, Portable;
    if segments != [] {
      var name := SegmentName(segments[0]);
      if name.Some? {
        if name.value == [] || name.value == HERE {
          FollowPortable(names, segments[1..]);
        } else if name.value == UP {
          if names != [] {
            FollowPortable(names[..|names| - 1], segments[1..]);
          }
        } else {
          SegmentPortable(segments[0]);
          FollowPortable(names + [name.value], segments[1..]);
        }
      }
    }
  }

  lemma SegmentPortable(segment: Bytes)
    requires SegmentName(segment).Some? && SegmentName(segment).value !in {[], HERE, UP}
    ensures Portable(SegmentName(segment).value)
  {
  }

  /** Whatever a URL resolves to is a path of portable names, and the URL was not
      absolute, not a network URL, and free of a scheme. */
  lemma ResolvedIsLocal(source: Path, target: Bytes)
    requires ValidPath(source) && Resolved(source, target).Some?
    ensures AllPortable(Resolved(source, target).value)
    ensures target != [] && target[0] != SLASH && COLON !in Split(BeforeExtras(target))[0]
  {
    hide Normalized, Follow, Split, Portable, HasControl;
    var s := Normalized(source).value;
    NormalizedPortable(source);
    FollowPortable(s[..|s| - 1], Split(BeforeExtras(target)));
    NormalizedPlain(Follow(s[..|s| - 1], Split(BeforeExtras(target))).value);
  }

  // ----- escaped labels -----

  predicate Punctuation(c: nat) {
    33 <= c <= 47 || 58 <= c <= 64 || 91 <= c <= 96 || 123 <= c <= 126
  }

  predicate ControlScalar(c: nat) {
    c < 32 || 127 <= c < 160
  }

  function Escaped(text: seq<nat>): seq<nat> {
    if text == [] then []
    else (if Punctuation(text[0]) then [BACKSLASH, text[0]] else [text[0]]) + Escaped(text[1..])
  }

  /** How a reader of the markup takes escaped text: a backslash before punctuation
      stands for that character, and bare punctuation is syntax. */
  function Unescaped(s: seq<nat>): Option<seq<nat>> {
    if s == [] then Some([])
    else if s[0] == BACKSLASH && |s| >= 2 && Punctuation(s[1]) then
      var rest := Unescaped(s[2..]);
      if rest.Some? then Some([s[1]] + rest.value) else None
    else if Punctuation(s[0]) then None
    else
      var rest := Unescaped(s[1..]);
      if rest.Some? then Some([s[0]] + rest.value) else None
  }

  lemma {:induction false} LabelRoundTrip(text: seq<nat>)
    ensures Unescaped(Escaped(text)) == Some(text)
  {
    if text != [] {
      LabelRoundTrip(text[1..]);
      var rest := Escaped(text[1..]);
      if Punctuation(text[0]) {
        assert Escaped(text)[2..] == rest;
      } else {
        assert Escaped(text)[1..] == rest;
      }
      assert text == [text[0]] + text[1..];
    }
  }

  /** The label of a link: refused when empty or not a single line of text, and
      otherwise escaped so that it reads back as it was. */
  method LinkLabel(selected: seq<nat>, targetLabel: seq<nat>) returns (r: Option<seq<nat>>)
    ensures
      var text := if selected == [] then targetLabel else selected;
      && (r.None? <==> text == [] || exists i :: 0 <= i < |text| && ControlScalar(text[i]))
      && (r.Some? ==> Unescaped(r.value) == Some(text))
  {
    hide Punctuation, Unescaped, ControlScalar;
    var text := if selected == [] then targetLabel else selected;
    if text == [] || exists i :: 0 <= i < |text| && ControlScalar(text[i]) {
      return None;
    }
    var escaped := [];
    for i := 0 to |text|
      invariant escaped + Escaped(text[i..]) == Escaped(text)
    {
      assert text[i..][0] == text[i] && text[i..][1..] == text[i + 1..];
      if Punctuation(text[i]) {
        escaped := escaped + [BACKSLASH];
      }
      escaped := escaped + [text[i]];
    }
    assert escaped == Escaped(text);
    LabelRoundTrip(text);
    return Some(escaped);
  }
}

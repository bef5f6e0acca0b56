/** The byte patterns the links module reads are exactly UTF-8 (sections 3 and 4 of
    RFC 3629), and its control characters are those of the text they encode. */
module Utf8 {
  import opened Links

  /** A Unicode scalar value: a code point that is no surrogate. */
  predicate Scalar(c: nat) {
    c < 0xD800 || 0xE000 <= c < 0x11_0000
  }

  function EncodeScalar(c: nat): (s: Bytes)
    requires Scalar(c)
    ensures 1 <= |s| <= 4
  {
    if c < 0x80 then [c]
    else if c < 0x800 then [0xC0 + c / 64, 0x80 + c % 64]
    else if c < 0x1_0000 then [0xE0 + c / 4096, 0x80 + c / 64 % 64, 0x80 + c % 64]
    else [0xF0 + c / 262144, 0x80 + c / 4096 % 64, 0x80 + c / 64 % 64, 0x80 + c % 64]
  }

  ghost predicate Scalars(text: seq<nat>) {
    forall i :: 0 <= i < |text| ==> Scalar(text[i])
  }

  ghost function EncodeText(text: seq<nat>): Bytes
    requires Scalars(text)
  {
    if text == [] then [] else EncodeScalar(text[0]) + EncodeText(text[1..])
  }

  // ----- one character -----

  lemma LengthOfEncoded(c: nat, rest: Bytes)
    requires Scalar(c)
    ensures CharLength(EncodeScalar(c) + rest) == |EncodeScalar(c)|
  {
    var s := EncodeScalar(c) + rest;
    assert forall i :: 0 <= i < |EncodeScalar(c)| ==> s[i] == EncodeScalar(c)[i];
  }

  /** The scalar value a text starts with. */
  lemma FirstScalar(s: Bytes) returns (c: nat)
    requires CharLength(s) > 0
    ensures Scalar(c) && s[..CharLength(s)] == EncodeScalar(c)
  {
    var n := CharLength(s);
    if n == 1 {
      c := s[0];
    } else if n == 2 {
      var x: int, y: int := s[0] - 0xC0, s[1] - 0x80;
      c := x * 64 + y;
      assert s[..2] == [s[0], s[1]];
    } else if n == 3 {
      c := Three(s[0], s[1], s[2]);
      assert s[..3] == [s[0], s[1], s[2]];
    } else {
      c := Four(s[0], s[1], s[2], s[3]);
      assert s[..4] == [s[0], s[1], s[2], s[3]];
    }
  }

  lemma Three(a: Byte, b: Byte, d: Byte) returns (c: nat)
    requires CharLength([a, b, d]) == 3
    ensures Scalar(c) && EncodeScalar(c) == [a, b, d]
  {
    var x, y, z := a - 0xE0, b - 0x80, d - 0x80;
    c := x * 4096 + y * 64 + z;
    assert c % 64 == z && c / 64 == x * 64 + y;
    assert (x * 64 + y) % 64 == y && c / 4096 == x;
  }

  lemma Four(a: Byte, b: Byte, d: Byte, e: Byte) returns (c: nat)
    requires CharLength([a, b, d, e]) == 4
    ensures Scalar(c) && EncodeScalar(c) == [a, b, d, e]
  {
    var w, x, y, z := a - 0xF0, b - 0x80, d - 0x80, e - 0x80;
    c := w * 262144 + x * 4096 + y * 64 + z;
    assert c % 64 == z && c / 64 == w * 4096 + x * 64 + y;
    assert (w * 4096 + x * 64 + y) % 64 == y && c / 4096 == w * 64 + x;
    assert (w * 64 + x) % 64 == x && c / 262144 == w;
  }

  // ----- whole texts -----

  /** Every well-formed text encodes some scalar values. */
  lemma {:induction false} TextEncodes(s: Bytes) returns (text: seq<nat>)
    requires IsText(s)
    ensures Scalars(text) && EncodeText(text) == s
    decreases |s|
  {
    hide CharLength, EncodeScalar, Scalar;
    if s == [] {
      text := [];
    } else {
      var n := CharLength(s);
      var c := FirstScalar(s);
      var rest := TextEncodes(s[n..]);
      text := [c] + rest;
      assert text[1..] == rest && s == s[..n] + s[n..];
    }
  }

  /** Every encoding of scalar values is well-formed, and holds a control character
      exactly when one of them is. */
  lemma {:induction false} EncodedIsText(text: seq<nat>)
    requires Scalars(text)
    ensures IsText(EncodeText(text))
    ensures HasControl(EncodeText(text)) <==> exists i :: 0 <= i < |text| && ControlScalar(text[i])
  {
    if text != [] {
      var first, rest := EncodeScalar(text[0]), EncodeText(text[1..]);
      EncodedIsText(text[1..]);
      LengthOfEncoded(text[0], rest);
      assert (first + rest)[|first|..] == rest;
      ControlFirst(text[0], rest);
      hide CharLength, EncodeScalar, ControlScalar;
      assert forall i :: 0 < i < |text| ==> text[i] == text[1..][i - 1];
      if exists i :: 0 <= i < |text[1..]| && ControlScalar(text[1..][i]) {
        var i :| 0 <= i < |text[1..]| && ControlScalar(text[1..][i]);
        assert ControlScalar(text[i + 1]);
      }
    }
  }

  lemma ControlFirst(c: nat, rest: Bytes)
    requires Scalar(c)
    ensures HasControl(EncodeScalar(c) + rest) <==> ControlScalar(c) || HasControl(rest)
  {
    hide CharLength;
    LengthOfEncoded(c, rest);
    var s := EncodeScalar(c) + rest;
    assert s[0] == EncodeScalar(c)[0] && s[|EncodeScalar(c)|..] == rest;
    assert c >= 0x80 ==> s[1] == EncodeScalar(c)[1];
  }
}

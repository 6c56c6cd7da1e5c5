// UTF-8: the recognizer that string conversions use, and the encoding it recognizes.
module Utf8 {
  import opened Base

  predicate Between(b: byte, low: int, high: int) { low <= b <= high }

  /** The length of the well-formed UTF-8 sequence at the front (table 3-7 of the Unicode standard), or 0. */
  function Utf8Width(s: Bytes): (n: nat)
    ensures n <= |s|
  {
    if s == [] then 0
    else if s[0] < 0x80 then 1
    else if |s| >= 2 && Between(s[0], 0xC2, 0xDF) && Between(s[1], 0x80, 0xBF) then 2
    else if |s| >= 3 && Between(s[2], 0x80, 0xBF) &&
      ((s[0] == 0xE0 && Between(s[1], 0xA0, 0xBF)) || (s[0] == 0xED && Between(s[1], 0x80, 0x9F)) ||
       (Between(s[0], 0xE1, 0xEF) && s[0] != 0xED && Between(s[1], 0x80, 0xBF))) then 3
    else if |s| >= 4 && Between(s[2], 0x80, 0xBF) && Between(s[3], 0x80, 0xBF) &&
      ((s[0] == 0xF0 && Between(s[1], 0x90, 0xBF)) || (s[0] == 0xF4 && Between(s[1], 0x80, 0x8F)) ||
       (Between(s[0], 0xF1, 0xF3) && Between(s[1], 0x80, 0xBF))) then 4
    else 0
  }

  predicate ValidUtf8(s: Bytes)
    decreases |s|
  {
    s == [] || (Utf8Width(s) > 0 && ValidUtf8(s[Utf8Width(s)..]))
  }

  // ---------------------------------------------------------------- the encoding

  /** A Unicode scalar value: a code point that is no surrogate. */
  predicate IsScalar(c: nat) {
    c <= 0xD7FF || 0xE000 <= c <= 0x10FFFF
  }

  /** One to four bytes: the payload bits, six in each byte after the first (section 3 of RFC 3629). */
  function EncodeScalar(c: nat): (bytes: Bytes)
    requires IsScalar(c)
  {
    if c < 0x80 then [c]
    else if c < 0x800 then [0xC0 + c / 64, 0x80 + c % 64]
    else if c < 0x1_0000 then [0xE0 + c / 64 / 64, 0x80 + c / 64 % 64, 0x80 + c % 64]
    else [0xF0 + c / 64 / 64 / 64, 0x80 + c / 64 / 64 % 64, 0x80 + c / 64 % 64, 0x80 + c % 64]
  }

  predicate AllScalars(text: seq<nat>) {
    forall i :: 0 <= i < |text| ==> IsScalar(text[i])
  }

  function EncodeText(text: seq<nat>): Bytes
    requires AllScalars(text)
  {
    if text == [] then [] else EncodeScalar(text[0]) + EncodeText(text[1..])
  }

  ghost predicate IsText(s: Bytes) {
    exists text :: AllScalars(text) && EncodeText(text) == s
  }

  /** How much is recognized does not depend on what follows. */
  lemma WidthIsLocal(bytes: Bytes, rest: Bytes)
    requires Utf8Width(bytes) == |bytes| > 0
    ensures Utf8Width(bytes + rest) == |bytes| && (bytes + rest)[|bytes|..] == rest
  {
  }

  lemma ScalarIsRecognized(c: nat)
    requires IsScalar(c)
    ensures Utf8Width(EncodeScalar(c)) == |EncodeScalar(c)| > 0
  {
  }

  lemma Joined(high: nat, low: nat)
    requires low < 64
    ensures (64 * high + low) / 64 == high && (64 * high + low) % 64 == low
  {
  }

  /** The scalar value of a recognized sequence. */
  lemma RecognizedIsScalar(s: Bytes) returns (c: nat)
    requires Utf8Width(s) > 0
    ensures IsScalar(c) && EncodeScalar(c) == s[..Utf8Width(s)]
  {
    match Utf8Width(s)
    case 1 => c := s[0];
    case 2 => c := TwoBytes(s[0], s[1]);
    case 3 => c := ThreeBytes(s[0], s[1], s[2]);
    case _ => c := FourBytes(s[0], s[1], s[2], s[3]);
  }

  lemma TwoBytes(b0: byte, b1: byte) returns (c: nat)
    requires Between(b0, 0xC2, 0xDF) && Between(b1, 0x80, 0xBF)
    ensures IsScalar(c) && EncodeScalar(c) == [b0, b1]
  {
    var h: nat, x: nat := b0 - 0xC0, b1 - 0x80;
    c := 64 * h + x;
    Joined(h, x);
  }

  lemma ThreeBytes(b0: byte, b1: byte, b2: byte) returns (c: nat)
    requires Utf8Width([b0, b1, b2]) == 3
    ensures IsScalar(c) && EncodeScalar(c) == [b0, b1, b2]
  {
    var h: nat, x: nat, y: nat := b0 - 0xE0, b1 - 0x80, b2 - 0x80;
    var high := 64 * h + x;
    c := 64 * high + y;
    Joined(h, x);
    Joined(high, y);
  }

  lemma FourBytes(b0: byte, b1: byte, b2: byte, b3: byte) returns (c: nat)
    requires Utf8Width([b0, b1, b2, b3]) == 4
    ensures IsScalar(c) && EncodeScalar(c) == [b0, b1, b2, b3]
  {
    var h: nat, x: nat, y: nat, z: nat := b0 - 0xF0, b1 - 0x80, b2 - 0x80, b3 - 0x80;
    var high := 64 * h + x;
    var middle := 64 * high + y;
    c := 64 * middle + z;
    Joined(h, x);
    Joined(high, y);
    Joined(middle, z);
  }

  lemma {:induction false} TextIsValid(text: seq<nat>)
    requires AllScalars(text)
    ensures ValidUtf8(EncodeText(text))
  {
    if text != [] {
      TextIsValid(text[1..]);
      ScalarIsRecognized(text[0]);
      WidthIsLocal(EncodeScalar(text[0]), EncodeText(text[1..]));
    }
  }

  lemma {:induction false} ValidIsText(s: Bytes) returns (text: seq<nat>)
    requires ValidUtf8(s)
    ensures AllScalars(text) && EncodeText(text) == s
    decreases |s|
  {
    hide EncodeScalar, Utf8Width, IsScalar;
    text := [];
    if s != [] {
      var c := RecognizedIsScalar(s);
      var rest := ValidIsText(s[Utf8Width(s)..]);
      text := [c] + rest;
      assert text[1..] == rest;
    }
  }

  /** Bytes are accepted as text exactly when they are the encoding of a sequence of scalar values. */
  lemma TextExactly(s: Bytes)
    ensures ValidUtf8(s) <==> IsText(s)
  {
    if ValidUtf8(s) {
      var text := ValidIsText(s);
    }
    if text :| AllScalars(text) && EncodeText(text) == s {
      TextIsValid(text);
    }
  }
}

// When re-encoding a parsed superblock body gives back the very bytes it was parsed from.
module CanonicalForm {
  import opened Base
  import opened Utf8
  import opened SuperblockBody

  lemma ParsedPrefix(s: Bytes, width: nat)
    requires ParsePrefixed(s, width).Success?
    ensures var p := ParsePrefixed(s, width).value;
      s == Prefixed(p.value, width) + p.rest && |p.value| == IntAt(s, 0, width)
  {
    LeOfIntAt(s, 0, width);
  }

  // ---------------------------------------------------------------- the fields that have more than one form

  function AfterFilename(bytes: Bytes): Bytes
    requires DecodeBody(bytes).Success?
  {
    ParseFilename(bytes[FIXED_BYTES..]).value.rest
  }

  function AfterProfile(bytes: Bytes): Bytes
    requires DecodeBody(bytes).Success?
  {
    ParseProfile(AfterFilename(bytes)).value.rest
  }

  function AfterMaterial(bytes: Bytes): Bytes
    requires DecodeBody(bytes).Success?
  {
    ParseMaterial(AfterProfile(bytes)).value.rest
  }

  lemma MaterialFields(s: Bytes)
    requires ParseMaterial(s).Success?
    ensures ParsePrefixed(s, 4).Success? && ParsePrefixed(s, 4).value.value != []
    ensures var a := ParsePrefixed(ParsePrefixed(s, 4).value.rest, 4); a.Success? && a.value.value != []
  {
  }

  function ModulusField(bytes: Bytes): (field: Bytes)
    requires DecodeBody(bytes).Success?
    ensures field != []
  {
    MaterialFields(AfterProfile(bytes));
    ParsePrefixed(AfterProfile(bytes), 4).value.value
  }

  function BaseField(bytes: Bytes): (field: Bytes)
    requires DecodeBody(bytes).Success?
    ensures field != []
  {
    MaterialFields(AfterProfile(bytes));
    ParsePrefixed(ParsePrefixed(AfterProfile(bytes), 4).value.rest, 4).value.value
  }

  /** No leading zeros in the two naturals, and no value for a target time that is marked as absent. */
  predicate Canonical(bytes: Bytes)
    requires DecodeBody(bytes).Success?
  {
    ModulusField(bytes)[0] != 0 && BaseField(bytes)[0] != 0 && (bytes[52] == 0 ==> IntAt(bytes, 53, 8) == 0)
  }

  // ---------------------------------------------------------------- printing what was parsed

  lemma SizesPrinted(s: Bytes)
    requires |s| >= FIXED_BYTES
    ensures SizeBytes(FixedAt(s)) == s[..31]
  {
    LeOfIntAt(s, 1, 2);
    LeOfIntAt(s, 3, 8);
    LeOfIntAt(s, 11, 8);
    LeOfIntAt(s, 19, 8);
    LeOfIntAt(s, 27, 4);
    hide Le, IntAt;
  }

  lemma CodecPrinted(s: Bytes)
    requires |s| >= FIXED_BYTES
    ensures CodecBytes(FixedAt(s)) == s[31..42]
  {
    LeOfIntAt(s, 33, 2);
    LeOfIntAt(s, 35, 2);
    LeOfIntAt(s, 37, 4);
    hide Le, IntAt;
  }

  lemma PuzzlePrinted(s: Bytes)
    requires |s| >= FIXED_BYTES && s[52] <= 1 && (s[52] == 0 ==> IntAt(s, 53, 8) == 0)
    ensures PuzzleBytes(FixedAt(s)) == s[42..69]
  {
    LeOfIntAt(s, 42, 8);
    LeOfIntAt(s, 50, 2);
    LeOfIntAt(s, 53, 8);
    LeOfIntAt(s, 61, 8);
    hide Le, IntAt;
  }

  lemma FixedPrinted(s: Bytes)
    requires |s| >= FIXED_BYTES && s[52] <= 1 && (s[52] == 0 ==> IntAt(s, 53, 8) == 0)
    ensures FixedBytes(FixedAt(s)) + s[FIXED_BYTES..] == s
  {
    SizesPrinted(s);
    CodecPrinted(s);
    PuzzlePrinted(s);
    hide SizeBytes, CodecBytes, PuzzleBytes, FixedAt, IntAt;
  }

  lemma MetadataHead(s: Bytes)
    requires |s| >= 14
    ensures [s[0]] + [s[1]] + s[2..6] + s[6..10] + s[10..14] == s[..14]
  {
  }

  lemma MetadataPrinted(s: Bytes)
    requires ParseMetadata(s).Success?
    ensures MetadataBytes(ParseMetadata(s).value.value) + ParseMetadata(s).value.rest == s
  {
    var m, rest := ParseMetadata(s).value.value, ParseMetadata(s).value.rest;
    LeOfIntAt(s, 2, 4);
    LeOfIntAt(s, 6, 4);
    LeOfIntAt(s, 10, 4);
    ParsedPrefix(s[14..], 2);
    hide Le, IntAt, Prefixed, ParsePrefixed;
    var head := [s[0]] + [s[1]] + s[2..6] + s[6..10] + s[10..14];
    assert MetadataBytes(m) == head + Prefixed(m.params.salt, 2);
    hide MetadataBytes, ParseMetadata;
    AppendAssociates(head, Prefixed(m.params.salt, 2), rest);
    MetadataHead(s);
  }

  lemma ThreeParts(n: Bytes, a: Bytes, key: Bytes, rest: Bytes)
    ensures (n + (a + key)) + rest == n + (a + (key + rest))
  {
    AppendAssociates(n, a + key, rest);
    AppendAssociates(a, key, rest);
  }

  lemma MaterialPrinted(s: Bytes)
    requires ParseMaterial(s).Success?
    requires var n := ParsePrefixed(s, 4).value; n.value[0] != 0 && ParsePrefixed(n.rest, 4).value.value[0] != 0
    ensures MaterialBytes(ParseMaterial(s).value.value) + ParseMaterial(s).value.rest == s
  {
    var n := ParsePrefixed(s, 4).value;
    var a := ParsePrefixed(n.rest, 4).value;
    var m := ParseMaterial(s).value;
    ParsedPrefix(s, 4);
    ParsedPrefix(n.rest, 4);
    ShortestForm(n.value);
    ShortestForm(a.value);
    hide IntAt, ParsePrefixed, Prefixed, FromBe, BeDigits;
    assert m.value.wrappedKey + m.rest == a.rest;
    assert ToBe(m.value.modulusN) == n.value && ToBe(m.value.baseA) == a.value;
    hide ParseMaterial, ParseNatural, ToBe;
    ThreeParts(Prefixed(n.value, 4), Prefixed(a.value, 4), m.value.wrappedKey, m.rest);
  }

  lemma TailPrinted(version: byte, s: Bytes)
    requires ParseTail(version, s).Success? && ParseTail(version, s).value.rest == []
    ensures TailBytes(ParseTail(version, s).value.value) == s
  {
    if version == BODY_VERSION_V2 {
      MetadataPrinted(s);
      hide ParseMetadata, MetadataBytes;
      assert TailBytes(ParseTail(version, s).value.value) + [] == s;
    }
  }

  /** The parts that a decoded body was parsed from. */
  lemma DecodedParts(bytes: Bytes)
    requires DecodeBody(bytes).Success?
    ensures var b := DecodeBody(bytes).value;
      && |bytes| >= FIXED_BYTES && bytes[52] <= 1 && b.fixed == FixedAt(bytes)
      && ParsePrefixed(bytes[FIXED_BYTES..], 2) == Success(Parsed(FilenameBytes(b.originalFilename), AfterFilename(bytes)))
      && ParsePrefixed(AfterFilename(bytes), 2) == Success(Parsed(b.hardwareProfile, AfterProfile(bytes)))
      && ParseMaterial(AfterProfile(bytes)) == Success(Parsed(b.material, AfterMaterial(bytes)))
      && TailBytes(b.password) == AfterMaterial(bytes)
      && b.material.modulusN > 0 && b.material.baseA > 0
  {
    var b := DecodeBody(bytes).value;
    TailPrinted(b.fixed.bodyVersion, AfterMaterial(bytes));
    hide IntAt, FixedAt, ParsePrefixed, ParseMaterial, ParseTail, TailBytes;
  }

  lemma CanonicalIsReprinted(bytes: Bytes)
    requires DecodeBody(bytes).Success? && Canonical(bytes)
    ensures BodyBytes(DecodeBody(bytes).value) == bytes
  {
    DecodedParts(bytes);
    hide DecodeBody, IntAt, FixedAt, FixedBytes, ParsePrefixed, ParseMaterial, MaterialBytes, TailBytes, AfterFilename,
         AfterProfile, AfterMaterial, Prefixed;
    FixedPrinted(bytes);
    ParsedPrefix(bytes[FIXED_BYTES..], 2);
    ParsedPrefix(AfterFilename(bytes), 2);
    MaterialPrinted(AfterProfile(bytes));
  }

  // ---------------------------------------------------------------- printed bytes are canonical

  lemma AppendCancels(a: Bytes, b: Bytes, c: Bytes)
    requires a + b == a + c
    ensures b == c
  {
    assert b == (a + b)[|a|..];
    assert c == (a + c)[|a|..];
  }

  lemma ReprintedIsCanonical(bytes: Bytes)
    requires DecodeBody(bytes).Success? && BodyBytes(DecodeBody(bytes).value) == bytes
    ensures Canonical(bytes)
  {
    var b := DecodeBody(bytes).value;
    DecodedParts(bytes);
    DecodedSize(bytes);
    BodyLengths(b);
    Widths();
    var tail := TailBytes(b.password);
    var material := MaterialBytes(b.material) + tail;
    var profile := Prefixed(b.hardwareProfile, 2) + material;
    var filename := Prefixed(FilenameBytes(b.originalFilename), 2) + profile;
    hide DecodeBody, IntAt, FixedAt, ParsePrefixed, ParseMaterial, MaterialBytes, TailBytes, AfterFilename, AfterProfile,
         AfterMaterial, Prefixed, FixedBytes;
    assert bytes[FIXED_BYTES..] == filename;
    ParsedPrefix(bytes[FIXED_BYTES..], 2);
    AppendCancels(Prefixed(FilenameBytes(b.originalFilename), 2), profile, AfterFilename(bytes));
    ParsedPrefix(AfterFilename(bytes), 2);
    AppendCancels(Prefixed(b.hardwareProfile, 2), material, AfterProfile(bytes));
    PrintedMaterial(b.material, tail);
    PrintedTarget(b.fixed, filename);
  }

  lemma PrintedMaterial(m: TimelockMaterial, rest: Bytes)
    requires m.modulusN > 0 && m.baseA > 0
    requires |ToBe(m.modulusN)| < Power256(4) && |ToBe(m.baseA)| < Power256(4)
    ensures var n := ParsePrefixed(MaterialBytes(m) + rest, 4);
      && n.Success? && n.value.value == ToBe(m.modulusN) && n.value.value[0] != 0
      && ParsePrefixed(n.value.rest, 4).Success? && ParsePrefixed(n.value.rest, 4).value.value == ToBe(m.baseA)
      && ToBe(m.baseA)[0] != 0
  {
    var n, a := Prefixed(ToBe(m.modulusN), 4), Prefixed(ToBe(m.baseA), 4);
    assert MaterialBytes(m) + rest == n + (a + (m.wrappedKey + rest));
    PrefixedRoundTrip(ToBe(m.modulusN), 4, a + (m.wrappedKey + rest));
    PrefixedRoundTrip(ToBe(m.baseA), 4, m.wrappedKey + rest);
  }

  lemma PrintedTarget(f: FixedFields, rest: Bytes)
    ensures var s := FixedBytes(f) + rest;
      s[52] == 0 ==> IntAt(s, 53, 8) == 0
  {
    var s := FixedBytes(f) + rest;
    SizeFields(f);
    CodecFields(f);
    PuzzleFields(f);
    hide SizeBytes, CodecBytes, PuzzleBytes, IntAt;
    assert s[42..69] == PuzzleBytes(f);
    PuzzleFieldsAt(s, f);
  }

  /**
   * Re-encoding what was decoded gives back the bytes exactly when they are canonical: the two naturals
   * have no leading zeros, and a target time that is marked absent is stored as zero.
   */
  lemma EncodeAfterDecode(bytes: Bytes)
    requires DecodeBody(bytes).Success?
    ensures EncodeBody(DecodeBody(bytes).value) == Success(bytes) <==> Canonical(bytes)
  {
    DecodedIsStorable(bytes);
    if Canonical(bytes) {
      CanonicalIsReprinted(bytes);
    }
    if BodyBytes(DecodeBody(bytes).value) == bytes {
      ReprintedIsCanonical(bytes);
    }
    hide DecodeBody, BodyBytes, Canonical, Validate;
  }

  // ---------------------------------------------------------------- which bodies can be read at all

  /** Leading zeros only ever make a natural longer. */
  lemma {:induction false} NoLongerThan(bytes: Bytes)
    ensures |BeDigits(FromBe(bytes))| <= |bytes|
    ensures bytes != [] ==> |ToBe(FromBe(bytes))| <= |bytes|
    decreases |bytes|
  {
    if bytes != [] {
      NoLongerThan(bytes[..|bytes| - 1]);
      LastDigit(FromBe(bytes[..|bytes| - 1]), bytes[|bytes| - 1]);
    }
  }

  lemma MaterialNoLonger(s: Bytes)
    requires ParseMaterial(s).Success?
    ensures var m := ParseMaterial(s).value; |MaterialBytes(m.value)| + |m.rest| <= |s|
  {
    MaterialFields(s);
    var n := ParsePrefixed(s, 4).value;
    var a := ParsePrefixed(n.rest, 4).value;
    ParsedPrefix(s, 4);
    ParsedPrefix(n.rest, 4);
    NoLongerThan(n.value);
    NoLongerThan(a.value);
  }

  lemma ReprintedIsNoLonger(bytes: Bytes)
    requires DecodeBody(bytes).Success?
    ensures |BodyBytes(DecodeBody(bytes).value)| <= |bytes|
  {
    DecodedParts(bytes);
    hide DecodeBody, IntAt, FixedAt, FixedBytes, ParsePrefixed, ParseMaterial, MaterialBytes, TailBytes, AfterFilename,
         AfterProfile, AfterMaterial, Prefixed;
    ParsedPrefix(bytes[FIXED_BYTES..], 2);
    ParsedPrefix(AfterFilename(bytes), 2);
    MaterialNoLonger(AfterProfile(bytes));
  }

  /**
   * Exactly which bodies can be read from any bytes at all, printed by this writer or not: those that
   * follow the field rules, whose filename and profile are text, and that have no empty filename and fit
   * their fields and the size limit.
   */
  lemma ReadableExactly(b: Body)
    ensures (exists bytes :: DecodeBody(bytes) == Success(b)) <==>
      && FollowsFieldRules(b) && Storable(b)
      && (b.originalFilename.Some? ==> IsText(b.originalFilename.value)) && IsText(b.hardwareProfile)
  {
    TextExactly(FilenameBytes(b.originalFilename));
    TextExactly(b.hardwareProfile);
    hide DecodeBody, Validate, FollowsFieldRules, BodyBytes;
    ValidExactly(b);
    if bytes :| DecodeBody(bytes) == Success(b) {
      DecodedIsStorable(bytes);
      DecodedSize(bytes);
      ReprintedIsNoLonger(bytes);
    }
    if Validate(b).Success? && HoldsText(b) && Storable(b) {
      BodyRoundTrip(b);
    }
  }

  /** The digest tells superblocks apart: two that can be read and have one digest are the same, or the hash collides. */
  lemma SameDigestSameBody(blake3: Bytes -> Key, s: Bytes, s': Bytes)
    requires DecodeBody(s).Success? && DecodeBody(s').Success?
    requires SuperblockDigest(blake3, DecodeBody(s).value) == SuperblockDigest(blake3, DecodeBody(s').value)
    ensures DecodeBody(s) == DecodeBody(s') || exists x, y :: x != y && blake3(x) == blake3(y)
  {
    hide DecodeBody, BodyBytes, Validate;
    var b, b' := DecodeBody(s).value, DecodeBody(s').value;
    ReadableBodyBytes(s);
    ReadableBodyBytes(s');
    assert blake3(BodyBytes(b)) == blake3(BodyBytes(b'));
    if BodyBytes(b) == BodyBytes(b') {
      assert Success(b) == Success(b');
    }
  }

  lemma ReadableBodyBytes(s: Bytes)
    requires DecodeBody(s).Success?
    ensures var b := DecodeBody(s).value; Validate(b).Success? && DecodeBody(BodyBytes(b)) == Success(b)
  {
    hide DecodeBody, BodyBytes, Validate;
    DecodedIsStorable(s);
    DecodedSize(s);
    ReprintedIsNoLonger(s);
    BodyRoundTrip(DecodeBody(s).value);
  }
}

// Superblock bodies that break off, and what validation reports.
module Truncation {
  import opened Base
  import opened Utf8
  import opened PasswordProtection
  import opened SuperblockBody

  lemma Cut(a: Bytes, rest: Bytes, n: nat)
    requires n <= |a| + |rest|
    ensures (a + rest)[..n] == if n < |a| then a[..n] else a + rest[..n - |a|]
  {
  }

  lemma FixedBreaksOff(f: FixedFields, n: nat)
    requires n < FIXED_BYTES
    ensures ParseFixed(FixedBytes(f)[..n]) == Failure(Io)
  {
    SizeFields(f);
    CodecFields(f);
    PuzzleFields(f);
    hide SizeBytes, CodecBytes, PuzzleBytes;
    assert FixedBytes(f)[52] == PuzzleBytes(f)[10];
  }

  lemma PrefixedBreaksOff(bytes: Bytes, width: nat, n: nat)
    requires |bytes| < Power256(width) && n < width + |bytes|
    ensures ParsePrefixed(Prefixed(bytes, width)[..n], width) == Failure(Io)
    ensures n >= width ==> IntAt(Prefixed(bytes, width)[..n], 0, width) == |bytes|
  {
    var s := Prefixed(bytes, width)[..n];
    if n >= width {
      assert s[0..width] == Le(|bytes|, width);
      IntAtOf(s, 0, |bytes|, width);
    }
  }

  lemma NaturalBreaksOff(v: nat, n: nat)
    requires |ToBe(v)| < Power256(4) && n < 4 + |ToBe(v)|
    ensures ParseNatural(Prefixed(ToBe(v), 4)[..n]) == Failure(Io)
  {
    PrefixedBreaksOff(ToBe(v), 4, n);
  }

  lemma MaterialBreaksOff(m: TimelockMaterial, n: nat)
    requires |ToBe(m.modulusN)| < Power256(4) && |ToBe(m.baseA)| < Power256(4) && n < |MaterialBytes(m)|
    ensures ParseMaterial(MaterialBytes(m)[..n]) == Failure(Io)
  {
    hide ParseNatural;
    var modulus, base := Prefixed(ToBe(m.modulusN), 4), Prefixed(ToBe(m.baseA), 4);
    Cut(modulus, base + m.wrappedKey, n);
    if n < |modulus| {
      NaturalBreaksOff(m.modulusN, n);
    } else {
      Cut(base, m.wrappedKey, n - |modulus|);
      NaturalRoundTrip(m.modulusN, (base + m.wrappedKey)[..n - |modulus|]);
      if n - |modulus| < |base| {
        NaturalBreaksOff(m.baseA, n - |modulus|);
      } else {
        NaturalRoundTrip(m.baseA, m.wrappedKey[..n - |modulus| - |base|]);
      }
    }
  }

  lemma MetadataBreaksOff(m: PasswordMetadata, n: nat)
    requires ValidMetadata(m) && n < |MetadataBytes(m)|
    ensures ParseMetadata(MetadataBytes(m)[..n]) == Failure(Io)
  {
    MetadataFields(m, []);
    assert MetadataBytes(m) + [] == MetadataBytes(m);
    var whole, s := MetadataBytes(m), MetadataBytes(m)[..n];
    hide MetadataBytes;
    if n >= 16 {
      Widths();
      assert whole[14..] == Prefixed(m.params.salt, 2);
      assert s[14..] == Prefixed(m.params.salt, 2)[..n - 14];
      PrefixedBreaksOff(m.params.salt, 2, n - 14);
      assert s[14..16] == s[14..][0..2];
    }
  }

  lemma TailBreaksOff(b: Body, n: nat)
    requires Validate(b).Success? && n < |TailBytes(b.password)|
    ensures ParseTail(b.fixed.bodyVersion, TailBytes(b.password)[..n]) == Failure(Io)
  {
    MetadataBreaksOff(b.password.value, n);
  }

  /** The first part that fails decides. */
  lemma ChainFails(s: Bytes, fixed: Parsed<FixedFields>, name: Parsed<Option<Bytes>>, profile: Parsed<Bytes>,
                   material: Parsed<TimelockMaterial>)
    requires |s| <= MAX_BODY_BYTES && ParseFixed(s) == Success(fixed)
    ensures ParseFilename(fixed.rest) == Failure(Io) ==> DecodeBody(s) == Failure(Io)
    ensures ParseFilename(fixed.rest) == Success(name) ==>
      && (ParseProfile(name.rest) == Failure(Io) ==> DecodeBody(s) == Failure(Io))
      && (ParseProfile(name.rest) == Success(profile) ==>
            && (ParseMaterial(profile.rest) == Failure(Io) ==> DecodeBody(s) == Failure(Io))
            && (ParseMaterial(profile.rest) == Success(material) ==>
                  ParseTail(fixed.value.bodyVersion, material.rest) == Failure(Io) ==> DecodeBody(s) == Failure(Io)))
  {
    hide ParseFixed, ParseFilename, ParseProfile, ParseMaterial, ParseTail;
  }

  lemma NameParses(b: Body, rest: Bytes)
    requires HoldsText(b) && Storable(b)
    ensures ParseFilename(Prefixed(FilenameBytes(b.originalFilename), 2) + rest) == Success(Parsed(b.originalFilename, rest))
    ensures ParseProfile(Prefixed(b.hardwareProfile, 2) + rest) == Success(Parsed(b.hardwareProfile, rest))
  {
    Widths();
    PrefixedRoundTrip(FilenameBytes(b.originalFilename), 2, rest);
    PrefixedRoundTrip(b.hardwareProfile, 2, rest);
    hide Prefixed, ParsePrefixed, BodyBytes;
  }

  lemma NameBreaksOff(b: Body, n: nat)
    requires Storable(b)
    ensures n < 2 + |FilenameBytes(b.originalFilename)| ==>
      ParseFilename(Prefixed(FilenameBytes(b.originalFilename), 2)[..n]) == Failure(Io)
    ensures n < 2 + |b.hardwareProfile| ==> ParseProfile(Prefixed(b.hardwareProfile, 2)[..n]) == Failure(Io)
  {
    Widths();
    if n < 2 + |FilenameBytes(b.originalFilename)| {
      PrefixedBreaksOff(FilenameBytes(b.originalFilename), 2, n);
    }
    if n < 2 + |b.hardwareProfile| {
      PrefixedBreaksOff(b.hardwareProfile, 2, n);
    }
    hide Prefixed, ParsePrefixed, BodyBytes;
  }

  /** The natural lengths of a storable body fit their fields. */
  lemma NaturalsFit(b: Body)
    requires Storable(b)
    ensures |ToBe(b.material.modulusN)| < Power256(4) && |ToBe(b.material.baseA)| < Power256(4)
  {
    BodyLengths(b);
    Widths();
  }

  /** No body is taken for another that breaks off: every beginning of a stored body is an unexpected end of the input. */
  lemma BodyBreaksOff(b: Body, n: nat)
    requires Validate(b).Success? && HoldsText(b) && Storable(b) && n < |BodyBytes(b)|
    ensures DecodeBody(BodyBytes(b)[..n]) == Failure(Io)
  {
    hide FixedBytes, Prefixed, MaterialBytes, TailBytes, ParseFixed, ParseFilename, ParseProfile, ParseMaterial, ParseTail,
         Validate, HoldsText, DecodeBody, FilenameBytes;
    NaturalsFit(b);
    MaterialLength(b.material);
    var name, text := Prefixed(FilenameBytes(b.originalFilename), 2), Prefixed(b.hardwareProfile, 2);
    PrefixedLength(FilenameBytes(b.originalFilename));
    PrefixedLength(b.hardwareProfile);
    var material, tail := MaterialBytes(b.material), TailBytes(b.password);
    var s, afterText := BodyBytes(b)[..n], material + tail;
    var afterName := text + afterText;
    Cut(FixedBytes(b.fixed), name + afterName, n);
    if n < FIXED_BYTES {
      FixedBreaksOff(b.fixed, n);
      FixedFails(s);
    } else {
      var left1 := n - FIXED_BYTES;
      var s1 := (name + afterName)[..left1];
      Cut(name, afterName, left1);
      FixedRoundTrip(b.fixed, s1);
      NameBreaksOff(b, left1);
      var left2 := if left1 < |name| then 0 else left1 - |name|;
      var s2 := afterName[..left2];
      Cut(text, afterText, left2);
      NameParses(b, s2);
      NameBreaksOff(b, left2);
      var left3 := if left2 < |text| then 0 else left2 - |text|;
      var s3 := afterText[..left3];
      Cut(material, tail, left3);
      NameParses(b, s3);
      var left4 := if left3 < |material| then 0 else left3 - |material|;
      MaterialRoundTrip(b.material, tail[..left4]);
      if left3 < |material| {
        MaterialBreaksOff(b.material, left3);
      } else {
        TailBreaksOff(b, left4);
      }
      ChainFails(s, Parsed(b.fixed, s1), Parsed(b.originalFilename, s2), Parsed(b.hardwareProfile, s3),
                 Parsed(b.material, tail[..left4]));
    }
  }

  lemma MaterialLength(m: TimelockMaterial)
    ensures |MaterialBytes(m)| > 0
  {
  }

  lemma PrefixedLength(bytes: Bytes)
    ensures |Prefixed(bytes, 2)| == 2 + |bytes|
  {
  }

  lemma FixedFails(s: Bytes)
    requires |s| <= MAX_BODY_BYTES && ParseFixed(s) == Failure(Io)
    ensures DecodeBody(s) == Failure(Io)
  {
  }

  /** A body is refused for its version before anything else, and otherwise as malformed. */
  lemma ValidationReports(b: Body)
    ensures b.fixed.bodyVersion != 1 && b.fixed.bodyVersion != 2 ==> Validate(b) == Failure(UnsupportedVersion(b.fixed.bodyVersion))
    ensures (b.fixed.bodyVersion == 1 || b.fixed.bodyVersion == 2) && !FollowsFieldRules(b) ==> Validate(b) == Failure(InvalidFormat)
  {
    ValidExactly(b);
  }
}

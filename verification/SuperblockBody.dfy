// The authoritative superblock body: its fields, their validity, and the binary printer and parser.
module SuperblockBody {
  import opened Base
  import opened Streams
  import opened Utf8
  import opened PasswordProtection

  const BODY_VERSION_V1: byte := 1
  const BODY_VERSION_V2: byte := 2
  const AEAD_CIPHER_ID: byte := 1
  const RS_ALGORITHM_ID: byte := 1
  const TIMELOCK_ALGORITHM_ID: byte := 1
  const MAX_BODY_BYTES := 1_048_576
  const FIXED_BYTES := 69

  /** The fields of fixed width that open every body. */
  datatype FixedFields = FixedFields(
    bodyVersion: byte, flags: u16,
    payloadPlaintextBytes: u64, protectedStreamLen: u64, payloadRegionLen: u64, aeadChunkSizeBytes: u32,
    aeadCipherId: byte, rsAlgorithmId: byte, rsDataShards: u16, rsParityShards: u16, rsShardBytes: u32,
    timelockAlgorithmId: byte, iterations: u64, modulusBits: u16, targetSeconds: Option<u64>,
    createdAtUnixSeconds: u64)

  datatype TimelockMaterial = TimelockMaterial(modulusN: nat, baseA: nat, wrappedKey: Key)

  datatype Body = Body(
    fixed: FixedFields, originalFilename: Option<Bytes>, hardwareProfile: Bytes,
    material: TimelockMaterial, password: Option<PasswordMetadata>)

  // ---------------------------------------------------------------- text

  /** The text fields hold text. */
  predicate HoldsText(b: Body) {
    (b.originalFilename.Some? ==> ValidUtf8(b.originalFilename.value)) && ValidUtf8(b.hardwareProfile)
  }

  // ---------------------------------------------------------------- validity

  predicate ValidMetadata(m: PasswordMetadata) {
    m.keyProtection == TimelockPlusArgon2idV1 && m.kdf == Argon2id && |m.params.salt| < 0x1_0000 && m.params.Valid()
  }

  function Validate(b: Body): Result<()> {
    var f := b.fixed;
    if f.bodyVersion != BODY_VERSION_V1 && f.bodyVersion != BODY_VERSION_V2 then
      Failure(UnsupportedVersion(f.bodyVersion))
    else if f.bodyVersion == BODY_VERSION_V1 && b.password.Some? then Failure(InvalidFormat)
    else if f.bodyVersion == BODY_VERSION_V2 && b.password.None? then Failure(InvalidFormat)
    else if b.password.Some? && !ValidMetadata(b.password.value) then Failure(InvalidFormat)
    else if f.flags != 0 then Failure(InvalidFormat)
    else if f.aeadChunkSizeBytes == 0 || f.rsDataShards == 0 || f.rsParityShards == 0 || f.rsShardBytes == 0 then
      Failure(InvalidFormat)
    else if f.aeadCipherId != AEAD_CIPHER_ID || f.rsAlgorithmId != RS_ALGORITHM_ID ||
            f.timelockAlgorithmId != TIMELOCK_ALGORITHM_ID then Failure(InvalidFormat)
    else if b.material.modulusN == 0 || b.material.baseA == 0 then Failure(InvalidFormat)
    else Success(())
  }

  /** The validity rules of the format, field by field. */
  predicate FollowsFieldRules(b: Body) {
    && b.fixed.bodyVersion in {BODY_VERSION_V1, BODY_VERSION_V2}
    && (b.fixed.bodyVersion == BODY_VERSION_V2 <==> b.password.Some?)
    && b.fixed.flags == 0
    && b.fixed.aeadCipherId == b.fixed.rsAlgorithmId == b.fixed.timelockAlgorithmId == 1
    && b.fixed.aeadChunkSizeBytes > 0 && b.fixed.rsDataShards > 0 && b.fixed.rsParityShards > 0 && b.fixed.rsShardBytes > 0
    && b.material.modulusN > 0 && b.material.baseA > 0
    && (b.password.Some? ==>
          var m := b.password.value;
          && m.keyProtection.StableId() == 2 && m.kdf.StableId() == 1
          && 0 < |m.params.salt| < 0x1_0000
          && m.params.memoryKib > 0 && m.params.iterations > 0 && m.params.parallelism > 0)
  }

  /** The checks, in whatever order they are made, accept exactly the bodies that follow the rules. */
  lemma ValidExactly(b: Body)
    ensures Validate(b).Success? <==> FollowsFieldRules(b)
  {
    if b.password.Some? {
      assert b.password.value.keyProtection.StableId() == 2 <==> b.password.value.keyProtection == TimelockPlusArgon2idV1;
    }
  }

  // ---------------------------------------------------------------- printing

  function SizeBytes(f: FixedFields): Bytes {
    [f.bodyVersion] + Le(f.flags, 2) + Le(f.payloadPlaintextBytes, 8) + Le(f.protectedStreamLen, 8)
      + Le(f.payloadRegionLen, 8) + Le(f.aeadChunkSizeBytes, 4)
  }

  function CodecBytes(f: FixedFields): Bytes {
    [f.aeadCipherId] + [f.rsAlgorithmId] + Le(f.rsDataShards, 2) + Le(f.rsParityShards, 2) + Le(f.rsShardBytes, 4)
      + [f.timelockAlgorithmId]
  }

  function RawTargetSeconds(f: FixedFields): u64 {
    if f.targetSeconds.Some? then f.targetSeconds.value else 0
  }

  function PuzzleBytes(f: FixedFields): Bytes {
    Le(f.iterations, 8) + Le(f.modulusBits, 2) + [Flag(f.targetSeconds.Some?)]
      + Le(RawTargetSeconds(f), 8) + Le(f.createdAtUnixSeconds, 8)
  }

  function FixedBytes(f: FixedFields): (bytes: Bytes)
    ensures |bytes| == FIXED_BYTES
  {
    SizeBytes(f) + CodecBytes(f) + PuzzleBytes(f)
  }

  /** A length of `width` bytes, cast down to fit, then the bytes. */
  function Prefixed(bytes: Bytes, width: nat): Bytes {
    Le(|bytes|, width) + bytes
  }

  function FilenameBytes(name: Option<Bytes>): Bytes {
    if name.Some? then name.value else []
  }

  function MaterialBytes(m: TimelockMaterial): Bytes {
    Prefixed(ToBe(m.modulusN), 4) + (Prefixed(ToBe(m.baseA), 4) + m.wrappedKey)
  }

  function MetadataBytes(m: PasswordMetadata): Bytes {
    [m.keyProtection.StableId()] + [m.kdf.StableId()] + Le(m.params.memoryKib, 4) + Le(m.params.iterations, 4)
      + Le(m.params.parallelism, 4) + Prefixed(m.params.salt, 2)
  }

  function TailBytes(password: Option<PasswordMetadata>): Bytes {
    if password.Some? then MetadataBytes(password.value) else []
  }

  function BodyBytes(b: Body): Bytes {
    FixedBytes(b.fixed) + (Prefixed(FilenameBytes(b.originalFilename), 2)
      + (Prefixed(b.hardwareProfile, 2) + (MaterialBytes(b.material) + TailBytes(b.password))))
  }

  function EncodeBody(b: Body): Result<Bytes> {
    var _ :- Validate(b);
    Success(BodyBytes(b))
  }

  // ---------------------------------------------------------------- parsing

  /** A parsed value and the bytes after it. */
  datatype Parsed<T> = Parsed(value: T, rest: Bytes)

  function IntAt(bytes: Bytes, start: nat, width: nat): (n: nat)
    requires start + width <= |bytes|
    ensures n < Power256(width)
  {
    FromLeBound(bytes[start..start + width]);
    FromLe(bytes[start..start + width])
  }

  function FixedAt(s: Bytes): FixedFields
    requires |s| >= FIXED_BYTES
  {
    Widths();
    FixedFields(s[0], IntAt(s, 1, 2), IntAt(s, 3, 8), IntAt(s, 11, 8), IntAt(s, 19, 8), IntAt(s, 27, 4),
                s[31], s[32], IntAt(s, 33, 2), IntAt(s, 35, 2), IntAt(s, 37, 4), s[41],
                IntAt(s, 42, 8), IntAt(s, 50, 2), if s[52] == 1 then Some(IntAt(s, 53, 8)) else None, IntAt(s, 61, 8))
  }

  /** The flag of the target time is checked as soon as the time has been read. */
  function ParseFixed(s: Bytes): Result<Parsed<FixedFields>> {
    if |s| < 61 then Failure(Io)
    else if s[52] > 1 then Failure(InvalidFormat)
    else if |s| < FIXED_BYTES then Failure(Io)
    else Success(Parsed(FixedAt(s), s[FIXED_BYTES..]))
  }

  function ParsePrefixed(s: Bytes, width: nat): Result<Parsed<Bytes>> {
    if |s| < width then Failure(Io)
    else
      var end := width + IntAt(s, 0, width);
      if |s| < end then Failure(Io) else Success(Parsed(s[width..end], s[end..]))
  }

  /** Big-endian naturals must have at least one byte; leading zeros are not refused. */
  function ParseNatural(s: Bytes): Result<Parsed<nat>> {
    if |s| < 4 then Failure(Io)
    else if IntAt(s, 0, 4) == 0 then Failure(InvalidFormat)
    else
      var p :- ParsePrefixed(s, 4);
      Success(Parsed(FromBe(p.value), p.rest))
  }

  function ParseFilename(s: Bytes): Result<Parsed<Option<Bytes>>> {
    var p :- ParsePrefixed(s, 2);
    if p.value == [] then Success(Parsed(None, p.rest))
    else if !ValidUtf8(p.value) then Failure(InvalidFormat)
    else Success(Parsed(Some(p.value), p.rest))
  }

  function ParseProfile(s: Bytes): Result<Parsed<Bytes>> {
    var p :- ParsePrefixed(s, 2);
    if !ValidUtf8(p.value) then Failure(InvalidFormat) else Success(p)
  }

  function ParseMaterial(s: Bytes): Result<Parsed<TimelockMaterial>> {
    var n :- ParseNatural(s);
    var a :- ParseNatural(n.rest);
    if |a.rest| < 32 then Failure(Io)
    else Success(Parsed(TimelockMaterial(n.value, a.value, a.rest[..32]), a.rest[32..]))
  }

  function ParseMetadata(s: Bytes): Result<Parsed<PasswordMetadata>> {
    if |s| < 1 then Failure(Io)
    else if s[0] != TimelockPlusArgon2idV1.StableId() then Failure(InvalidFormat)
    else if |s| < 2 then Failure(Io)
    else if s[1] != Argon2id.StableId() then Failure(InvalidFormat)
    else if |s| < 16 then Failure(Io)
    else if IntAt(s, 14, 2) == 0 then Failure(InvalidFormat)
    else
      var salt :- ParsePrefixed(s[14..], 2);
      Widths();
      var params := PasswordParams(IntAt(s, 2, 4), IntAt(s, 6, 4), IntAt(s, 10, 4), salt.value);
      if !params.Valid() then Failure(InvalidFormat)
      else Success(Parsed(PasswordMetadata(TimelockPlusArgon2idV1, Argon2id, params), salt.rest))
  }

  function ParseTail(version: byte, s: Bytes): Result<Parsed<Option<PasswordMetadata>>> {
    if version == BODY_VERSION_V1 then Success(Parsed(None, s))
    else if version == BODY_VERSION_V2 then
      var m :- ParseMetadata(s);
      Success(Parsed(Some(m.value), m.rest))
    else Failure(UnsupportedVersion(version))
  }

  function DecodeBody(bytes: Bytes): Result<Body> {
    if |bytes| > MAX_BODY_BYTES then Failure(InvalidFormat)
    else
      var fixed :- ParseFixed(bytes);
      var filename :- ParseFilename(fixed.rest);
      var profile :- ParseProfile(filename.rest);
      var material :- ParseMaterial(profile.rest);
      var tail :- ParseTail(fixed.value.bodyVersion, material.rest);
      if tail.rest != [] then Failure(InvalidFormat)
      else
        var b := Body(fixed.value, filename.value, profile.value, material.value, tail.value);
        var _ :- Validate(b);
        Success(b)
  }

  lemma DecodedSize(bytes: Bytes)
    requires DecodeBody(bytes).Success?
    ensures |bytes| <= MAX_BODY_BYTES
  {
  }

  // ---------------------------------------------------------------- parsing what was printed

  lemma IntAtOf(bytes: Bytes, start: nat, n: nat, width: nat)
    requires n < Power256(width) && start + width <= |bytes| && bytes[start..start + width] == Le(n, width)
    ensures IntAt(bytes, start, width) == n
  {
    LeRoundTrip(n, width);
  }

  lemma LeOfIntAt(s: Bytes, start: nat, width: nat)
    requires start + width <= |s|
    ensures Le(IntAt(s, start, width), width) == s[start..start + width]
  {
    LeOfFromLe(s[start..start + width]);
  }

  lemma SizeFields(f: FixedFields)
    ensures var s := SizeBytes(f);
      && |s| == 31 && s[0] == f.bodyVersion && s[1..3] == Le(f.flags, 2) && s[3..11] == Le(f.payloadPlaintextBytes, 8)
      && s[11..19] == Le(f.protectedStreamLen, 8) && s[19..27] == Le(f.payloadRegionLen, 8)
      && s[27..31] == Le(f.aeadChunkSizeBytes, 4)
  {
  }

  lemma CodecFields(f: FixedFields)
    ensures var s := CodecBytes(f);
      && |s| == 11 && s[0] == f.aeadCipherId && s[1] == f.rsAlgorithmId && s[2..4] == Le(f.rsDataShards, 2)
      && s[4..6] == Le(f.rsParityShards, 2) && s[6..10] == Le(f.rsShardBytes, 4) && s[10] == f.timelockAlgorithmId
  {
  }

  lemma PuzzleFields(f: FixedFields)
    ensures var s := PuzzleBytes(f);
      && |s| == 27 && s[..8] == Le(f.iterations, 8) && s[8..10] == Le(f.modulusBits, 2)
      && s[10] == Flag(f.targetSeconds.Some?)
      && s[11..19] == Le(RawTargetSeconds(f), 8)
      && s[19..27] == Le(f.createdAtUnixSeconds, 8)
  {
  }

  /** Where a part lies in the whole, its integers lie too. */
  lemma IntInPart(whole: Bytes, part: Bytes, at: nat, low: nat, width: nat, n: nat)
    requires at + |part| <= |whole| && whole[at..at + |part|] == part
    requires low + width <= |part| && part[low..low + width] == Le(n, width) && n < Power256(width)
    ensures IntAt(whole, at + low, width) == n
  {
    assert forall i :: 0 <= i < |part| ==> part[i] == whole[at + i];
    assert whole[at + low..at + low + width] == part[low..low + width];
    IntAtOf(whole, at + low, n, width);
  }

  lemma SizeFieldsAt(s: Bytes, f: FixedFields)
    requires |s| >= FIXED_BYTES && s[0..31] == SizeBytes(f)
    ensures s[0] == f.bodyVersion && IntAt(s, 1, 2) == f.flags && IntAt(s, 3, 8) == f.payloadPlaintextBytes
    ensures IntAt(s, 11, 8) == f.protectedStreamLen && IntAt(s, 19, 8) == f.payloadRegionLen
    ensures IntAt(s, 27, 4) == f.aeadChunkSizeBytes
  {
    var part := SizeBytes(f);
    SizeFields(f);
    Widths();
    IntInPart(s, part, 0, 1, 2, f.flags);
    IntInPart(s, part, 0, 3, 8, f.payloadPlaintextBytes);
    IntInPart(s, part, 0, 11, 8, f.protectedStreamLen);
    IntInPart(s, part, 0, 19, 8, f.payloadRegionLen);
    IntInPart(s, part, 0, 27, 4, f.aeadChunkSizeBytes);
    assert part[0] == s[0..31][0];
  }

  lemma CodecFieldsAt(s: Bytes, f: FixedFields)
    requires |s| >= FIXED_BYTES && s[31..42] == CodecBytes(f)
    ensures s[31] == f.aeadCipherId && s[32] == f.rsAlgorithmId && s[41] == f.timelockAlgorithmId
    ensures IntAt(s, 33, 2) == f.rsDataShards && IntAt(s, 35, 2) == f.rsParityShards
    ensures IntAt(s, 37, 4) == f.rsShardBytes
  {
    var part := CodecBytes(f);
    CodecFields(f);
    Widths();
    IntInPart(s, part, 31, 2, 2, f.rsDataShards);
    IntInPart(s, part, 31, 4, 2, f.rsParityShards);
    IntInPart(s, part, 31, 6, 4, f.rsShardBytes);
    assert part[0] == s[31..42][0] && part[1] == s[31..42][1] && part[10] == s[31..42][10];
  }

  lemma PuzzleFieldsAt(s: Bytes, f: FixedFields)
    requires |s| >= FIXED_BYTES && s[42..69] == PuzzleBytes(f)
    ensures IntAt(s, 42, 8) == f.iterations && IntAt(s, 50, 2) == f.modulusBits
    ensures s[52] == Flag(f.targetSeconds.Some?) && IntAt(s, 53, 8) == RawTargetSeconds(f)
    ensures IntAt(s, 61, 8) == f.createdAtUnixSeconds
  {
    var part := PuzzleBytes(f);
    PuzzleFields(f);
    Widths();
    IntInPart(s, part, 42, 0, 8, f.iterations);
    IntInPart(s, part, 42, 8, 2, f.modulusBits);
    IntInPart(s, part, 42, 11, 8, RawTargetSeconds(f));
    IntInPart(s, part, 42, 19, 8, f.createdAtUnixSeconds);
    assert part[10] == s[42..69][10];
  }

  lemma FixedRoundTrip(f: FixedFields, rest: Bytes)
    ensures ParseFixed(FixedBytes(f) + rest) == Success(Parsed(f, rest))
  {
    var s := FixedBytes(f) + rest;
    SizeFields(f);
    CodecFields(f);
    PuzzleFields(f);
    assert s[0..31] == SizeBytes(f) && s[31..42] == CodecBytes(f) && s[42..69] == PuzzleBytes(f);
    assert s[FIXED_BYTES..] == rest;
    FixedFieldsAt(s, f);
  }

  lemma FixedFieldsAt(s: Bytes, f: FixedFields)
    requires |s| >= FIXED_BYTES
    requires s[0..31] == SizeBytes(f) && s[31..42] == CodecBytes(f) && s[42..69] == PuzzleBytes(f)
    ensures FixedAt(s) == f && s[52] <= 1
  {
    SizeFieldsAt(s, f);
    CodecFieldsAt(s, f);
    PuzzleFieldsAt(s, f);
  }

  lemma PrefixedRoundTrip(bytes: Bytes, width: nat, rest: Bytes)
    requires |bytes| < Power256(width)
    ensures ParsePrefixed(Prefixed(bytes, width) + rest, width) == Success(Parsed(bytes, rest))
    ensures IntAt(Prefixed(bytes, width) + rest, 0, width) == |bytes|
  {
    var s := Prefixed(bytes, width) + rest;
    assert s[0..width] == Le(|bytes|, width);
    IntAtOf(s, 0, |bytes|, width);
    assert s[width..width + |bytes|] == bytes && s[width + |bytes|..] == rest;
  }

  lemma NaturalRoundTrip(n: nat, rest: Bytes)
    requires |ToBe(n)| < Power256(4)
    ensures ParseNatural(Prefixed(ToBe(n), 4) + rest) == Success(Parsed(n, rest))
  {
    PrefixedRoundTrip(ToBe(n), 4, rest);
    BeRoundTrip(n);
  }

  lemma MaterialRoundTrip(m: TimelockMaterial, rest: Bytes)
    requires |ToBe(m.modulusN)| < Power256(4) && |ToBe(m.baseA)| < Power256(4)
    ensures ParseMaterial(MaterialBytes(m) + rest) == Success(Parsed(m, rest))
  {
    var n, a := Prefixed(ToBe(m.modulusN), 4), Prefixed(ToBe(m.baseA), 4);
    assert MaterialBytes(m) + rest == n + (a + (m.wrappedKey + rest));
    NaturalRoundTrip(m.modulusN, a + (m.wrappedKey + rest));
    NaturalRoundTrip(m.baseA, m.wrappedKey + rest);
    assert (m.wrappedKey + rest)[..32] == m.wrappedKey && (m.wrappedKey + rest)[32..] == rest;
  }

  lemma MetadataFields(m: PasswordMetadata, rest: Bytes)
    ensures var s := MetadataBytes(m) + rest;
      && |s| >= 16 && s[0] == m.keyProtection.StableId() && s[1] == m.kdf.StableId()
      && s[2..6] == Le(m.params.memoryKib, 4) && s[6..10] == Le(m.params.iterations, 4)
      && s[10..14] == Le(m.params.parallelism, 4) && s[14..] == Prefixed(m.params.salt, 2) + rest
      && s[14..16] == Le(|m.params.salt|, 2)
  {
  }

  lemma MetadataRoundTrip(m: PasswordMetadata, rest: Bytes)
    requires ValidMetadata(m)
    ensures ParseMetadata(MetadataBytes(m) + rest) == Success(Parsed(m, rest))
  {
    var s := MetadataBytes(m) + rest;
    MetadataFields(m, rest);
    Widths();
    IntAtOf(s, 2, m.params.memoryKib, 4);
    IntAtOf(s, 6, m.params.iterations, 4);
    IntAtOf(s, 10, m.params.parallelism, 4);
    IntAtOf(s, 14, |m.params.salt|, 2);
    PrefixedRoundTrip(m.params.salt, 2, rest);
  }

  // ---------------------------------------------------------------- which bodies survive storage

  /** Lengths that fit their fields; an empty filename is stored like none. */
  predicate Storable(b: Body) {
    && (b.originalFilename.Some? ==> 0 < |b.originalFilename.value| < 0x1_0000)
    && |b.hardwareProfile| < 0x1_0000
    && |BodyBytes(b)| <= 1_048_576
  }

  lemma BodyLengths(b: Body)
    ensures |BodyBytes(b)| >= |ToBe(b.material.modulusN)| + |ToBe(b.material.baseA)|
  {
  }

  lemma BodyRoundTrip(b: Body)
    requires Validate(b).Success? && HoldsText(b) && Storable(b)
    ensures DecodeBody(BodyBytes(b)) == Success(b)
  {
    BodyLengths(b);
    Widths();
    var tail := TailBytes(b.password);
    var material := MaterialBytes(b.material) + tail;
    var profile := Prefixed(b.hardwareProfile, 2) + material;
    var filename := Prefixed(FilenameBytes(b.originalFilename), 2) + profile;
    FixedRoundTrip(b.fixed, filename);
    PrefixedRoundTrip(FilenameBytes(b.originalFilename), 2, profile);
    PrefixedRoundTrip(b.hardwareProfile, 2, material);
    MaterialRoundTrip(b.material, tail);
    TailRoundTrip(b);
  }

  lemma TailRoundTrip(b: Body)
    requires Validate(b).Success?
    ensures ParseTail(b.fixed.bodyVersion, TailBytes(b.password)) == Success(Parsed(b.password, []))
  {
    if b.password.Some? {
      MetadataRoundTrip(b.password.value, []);
      assert MetadataBytes(b.password.value) + [] == TailBytes(b.password);
    }
  }

  /** What decoding returns always has lengths that fit, no empty filename, and is valid. */
  lemma DecodedIsStorable(bytes: Bytes)
    requires DecodeBody(bytes).Success?
    ensures var b := DecodeBody(bytes).value;
      && (b.originalFilename.Some? ==> 0 < |b.originalFilename.value| < 0x1_0000)
      && |b.hardwareProfile| < 0x1_0000 && HoldsText(b) && Validate(b).Success?
      && b.material.modulusN > 0 && b.material.baseA > 0
  {
    var fixed := ParseFixed(bytes).value;
    ParsedTexts(fixed.rest);
    ParsedTexts(ParseFilename(fixed.rest).value.rest);
  }

  lemma ParsedTexts(s: Bytes)
    ensures ParseFilename(s).Success? && ParseFilename(s).value.value.Some? ==>
      var name := ParseFilename(s).value.value.value; 0 < |name| < 0x1_0000 && ValidUtf8(name)
    ensures ParseProfile(s).Success? ==>
      var profile := ParseProfile(s).value.value; |profile| < 0x1_0000 && ValidUtf8(profile)
  {
    Widths();
  }

  /**
   * Exactly the storable bodies come back: a valid body decodes to itself if and only if its filename
   * is not empty, its text lengths fit u16 and its encoding is at most 1 MiB.
   */
  lemma DecodeAfterEncode(b: Body)
    requires Validate(b).Success? && HoldsText(b)
    ensures EncodeBody(b) == Success(BodyBytes(b))
    ensures DecodeBody(BodyBytes(b)) == Success(b) <==> Storable(b)
  {
    if Storable(b) {
      BodyRoundTrip(b);
    } else if DecodeBody(BodyBytes(b)) == Success(b) {
      DecodedIsStorable(BodyBytes(b));
    }
  }

  /** The digest the chunks are bound to, computed from a re-encoding of the body. */
  function SuperblockDigest(blake3: Bytes -> Key, b: Body): Result<Key> {
    var bytes :- EncodeBody(b);
    Success(blake3(bytes))
  }

  /** An empty filename does not change the bytes: re-encoding what they decode to gives them again. */
  function Normalized(b: Body): Body {
    if b.originalFilename == Some([]) then b.(originalFilename := None) else b
  }

  /** The digest at unlock, from the decoded body, is the digest at lock. */
  lemma DigestSurvivesStorage(blake3: Bytes -> Key, b: Body)
    requires Validate(b).Success? && HoldsText(b) && Storable(Normalized(b))
    ensures DecodeBody(BodyBytes(b)) == Success(Normalized(b))
    ensures EncodeBody(Normalized(b)) == EncodeBody(b)
    ensures SuperblockDigest(blake3, DecodeBody(BodyBytes(b)).value) == SuperblockDigest(blake3, b)
  {
    BodyRoundTrip(Normalized(b));
  }

  /** The modulus printed with a leading zero byte. */
  function PaddedBodyBytes(b: Body): Bytes {
    FixedBytes(b.fixed) + (Prefixed(FilenameBytes(b.originalFilename), 2)
      + (Prefixed(b.hardwareProfile, 2)
      + (Prefixed([0] + ToBe(b.material.modulusN), 4) + (Prefixed(ToBe(b.material.baseA), 4) + b.material.wrappedKey)
      + TailBytes(b.password))))
  }

  lemma {:induction false} FromBeLeadingZero(bytes: Bytes)
    ensures FromBe([0] + bytes) == FromBe(bytes)
  {
    var s := [0] + bytes;
    if bytes == [] {
      assert s[..0] == [];
    } else {
      FromBeLeadingZero(bytes[..|bytes| - 1]);
      assert s[..|s| - 1] == [0] + bytes[..|bytes| - 1];
    }
  }

  lemma PaddedMaterial(m: TimelockMaterial, rest: Bytes)
    requires |ToBe(m.modulusN)| + 1 < Power256(4) && |ToBe(m.baseA)| < Power256(4)
    ensures ParseMaterial((Prefixed([0] + ToBe(m.modulusN), 4) + (Prefixed(ToBe(m.baseA), 4) + m.wrappedKey)) + rest)
         == Success(Parsed(m, rest))
  {
    var n, a := Prefixed([0] + ToBe(m.modulusN), 4), Prefixed(ToBe(m.baseA), 4);
    assert (n + (a + m.wrappedKey)) + rest == n + (a + (m.wrappedKey + rest));
    PrefixedRoundTrip([0] + ToBe(m.modulusN), 4, a + (m.wrappedKey + rest));
    FromBeLeadingZero(ToBe(m.modulusN));
    BeRoundTrip(m.modulusN);
    NaturalRoundTrip(m.baseA, m.wrappedKey + rest);
    assert (m.wrappedKey + rest)[..32] == m.wrappedKey && (m.wrappedKey + rest)[32..] == rest;
  }

  /**
   * Parsing accepts bytes that printing never makes: for every storable body there is a second,
   * longer form that decodes to it, so re-encoding is the identity only on printed bytes.
   */
  lemma NonCanonicalAccepted(b: Body)
    requires Validate(b).Success? && HoldsText(b) && Storable(b) && |BodyBytes(b)| < MAX_BODY_BYTES
    ensures DecodeBody(PaddedBodyBytes(b)) == Success(b) && PaddedBodyBytes(b) != BodyBytes(b)
  {
    BodyLengths(b);
    Widths();
    var tail := TailBytes(b.password);
    var material := (Prefixed([0] + ToBe(b.material.modulusN), 4)
                      + (Prefixed(ToBe(b.material.baseA), 4) + b.material.wrappedKey)) + tail;
    var profile := Prefixed(b.hardwareProfile, 2) + material;
    FixedRoundTrip(b.fixed, Prefixed(FilenameBytes(b.originalFilename), 2) + profile);
    PrefixedRoundTrip(FilenameBytes(b.originalFilename), 2, profile);
    PrefixedRoundTrip(b.hardwareProfile, 2, material);
    PaddedMaterial(b.material, tail);
    TailRoundTrip(b);
    assert |PaddedBodyBytes(b)| == |BodyBytes(b)| + 1;
  }

  // ---------------------------------------------------------------- the growing buffer

  method WriteFixed(out: ByteWriter, f: FixedFields)
    modifies out
    ensures out.written == old(out.written) + FixedBytes(f)
  {
    WriteSizes(out, f);
    WriteCodec(out, f);
    WritePuzzle(out, f);
    AppendThree(old(out.written), SizeBytes(f), CodecBytes(f), PuzzleBytes(f));
  }

  lemma AppendThree(out: Bytes, a: Bytes, b: Bytes, c: Bytes)
    ensures ((out + a) + b) + c == out + (a + b + c)
  {
  }

  method WriteSizes(out: ByteWriter, f: FixedFields)
    modifies out
    ensures out.written == old(out.written) + SizeBytes(f)
  {
    out.WriteAll([f.bodyVersion]);
    out.WriteAll(Le(f.flags, 2));
    out.WriteAll(Le(f.payloadPlaintextBytes, 8));
    out.WriteAll(Le(f.protectedStreamLen, 8));
    out.WriteAll(Le(f.payloadRegionLen, 8));
    out.WriteAll(Le(f.aeadChunkSizeBytes, 4));
  }

  method WriteCodec(out: ByteWriter, f: FixedFields)
    modifies out
    ensures out.written == old(out.written) + CodecBytes(f)
  {
    out.WriteAll([f.aeadCipherId]);
    out.WriteAll([f.rsAlgorithmId]);
    out.WriteAll(Le(f.rsDataShards, 2));
    out.WriteAll(Le(f.rsParityShards, 2));
    out.WriteAll(Le(f.rsShardBytes, 4));
    out.WriteAll([f.timelockAlgorithmId]);
  }

  method WritePuzzle(out: ByteWriter, f: FixedFields)
    modifies out
    ensures out.written == old(out.written) + PuzzleBytes(f)
  {
    out.WriteAll(Le(f.iterations, 8));
    out.WriteAll(Le(f.modulusBits, 2));
    if f.targetSeconds.Some? {
      out.WriteAll([1]);
      out.WriteAll(Le(f.targetSeconds.value, 8));
    } else {
      out.WriteAll([0]);
      out.WriteAll(Le(0, 8));
    }
    out.WriteAll(Le(f.createdAtUnixSeconds, 8));
  }

  method WritePrefixed(out: ByteWriter, bytes: Bytes, width: nat)
    modifies out
    ensures out.written == old(out.written) + Prefixed(bytes, width)
  {
    out.WriteAll(Le(|bytes|, width));
    out.WriteAll(bytes);
  }

  method WriteMetadata(out: ByteWriter, m: PasswordMetadata)
    modifies out
    ensures out.written == old(out.written) + MetadataBytes(m)
  {
    out.WriteAll([m.keyProtection.StableId()]);
    out.WriteAll([m.kdf.StableId()]);
    out.WriteAll(Le(m.params.memoryKib, 4));
    out.WriteAll(Le(m.params.iterations, 4));
    out.WriteAll(Le(m.params.parallelism, 4));
    WritePrefixed(out, m.params.salt, 2);
  }

  lemma AppendBody(fixed: Bytes, name: Bytes, profile: Bytes, n: Bytes, a: Bytes, key: Bytes, tail: Bytes)
    ensures (((((fixed + name) + profile) + n) + a) + key) + tail == fixed + (name + (profile + ((n + (a + key)) + tail)))
  {
  }

  /** Field by field into a growing buffer. */
  method EncodeSuperblockBody(b: Body) returns (r: Result<Bytes>)
    ensures r == EncodeBody(b)
  {
    var _ :- Validate(b);
    var out := new ByteWriter();
    WriteFixed(out, b.fixed);
    assert out.written == FixedBytes(b.fixed);
    WritePrefixed(out, FilenameBytes(b.originalFilename), 2);
    WritePrefixed(out, b.hardwareProfile, 2);
    WritePrefixed(out, ToBe(b.material.modulusN), 4);
    WritePrefixed(out, ToBe(b.material.baseA), 4);
    out.WriteAll(b.material.wrappedKey);
    ghost var untailed := out.written;
    if b.password.Some? {
      WriteMetadata(out, b.password.value);
    }
    assert out.written == untailed + TailBytes(b.password);
    AppendBody(FixedBytes(b.fixed), Prefixed(FilenameBytes(b.originalFilename), 2), Prefixed(b.hardwareProfile, 2),
               Prefixed(ToBe(b.material.modulusN), 4), Prefixed(ToBe(b.material.baseA), 4), b.material.wrappedKey,
               TailBytes(b.password));
    r := Success(out.written);
  }

  // ---------------------------------------------------------------- the advancing cursor

  /** read_u8 ... read_u64: an integer of `width` bytes at the cursor. */
  method ReadInt(cursor: ByteReader, width: nat) returns (r: Result<nat>)
    requires cursor.Valid()
    modifies cursor
    ensures cursor.Valid()
    ensures old(cursor.position) + width > |cursor.data| ==> r == Failure(Io)
    ensures old(cursor.position) + width <= |cursor.data| ==>
      r == Success(IntAt(cursor.data, old(cursor.position), width)) && cursor.position == old(cursor.position) + width
  {
    var bytes :- cursor.ReadExact(width);
    assert bytes == cursor.data[old(cursor.position)..old(cursor.position) + width];
    r := Success(FromLe(bytes));
  }

  lemma IntShift(s: Bytes, from: nat, start: nat, width: nat)
    requires from + start + width <= |s|
    ensures IntAt(s[from..], start, width) == IntAt(s, from + start, width)
  {
    assert s[from..][start..start + width] == s[from + start..from + start + width];
  }

  lemma Slices(s: Bytes, width: nat, length: nat)
    requires width + length <= |s|
    ensures s[width..][..length] == s[width..width + length] && s[width..][length..] == s[width + length..]
  {
  }

  method ReadPrefixed(cursor: ByteReader, width: nat) returns (r: Result<Bytes>)
    requires cursor.Valid()
    modifies cursor
    ensures cursor.Valid()
    ensures r.Success? ==> ParsePrefixed(old(cursor.Remaining()), width) == Success(Parsed(r.value, cursor.Remaining()))
    ensures r.Failure? ==> ParsePrefixed(old(cursor.Remaining()), width) == Failure(r.error)
  {
    ghost var input := cursor.Remaining();
    var length :- ReadInt(cursor, width);
    IntShift(cursor.data, old(cursor.position), 0, width);
    ghost var rest := cursor.Remaining();
    assert rest == input[width..] && length == IntAt(input, 0, width);
    hide IntAt;
    var bytes :- cursor.ReadExact(length);
    Slices(input, width, length);
    r := Success(bytes);
  }

  method ReadNatural(cursor: ByteReader) returns (r: Result<nat>)
    requires cursor.Valid()
    modifies cursor
    ensures cursor.Valid()
    ensures r.Success? ==> ParseNatural(old(cursor.Remaining())) == Success(Parsed(r.value, cursor.Remaining()))
    ensures r.Failure? ==> ParseNatural(old(cursor.Remaining())) == Failure(r.error)
  {
    ghost var input := cursor.Remaining();
    var length :- ReadInt(cursor, 4);
    IntShift(cursor.data, old(cursor.position), 0, 4);
    assert cursor.Remaining() == input[4..];
    if length == 0 {
      return Failure(InvalidFormat);
    }
    var bytes :- cursor.ReadExact(length);
    assert bytes == input[4..4 + length] && cursor.Remaining() == input[4 + length..];
    r := Success(FromBe(bytes));
  }

  /** Six integers in a row. */
  datatype Six = Six(a: nat, b: nat, c: nat, d: nat, e: nat, f: nat) {
    function Sum(): nat { a + b + c + d + e + f }
  }

  function SixAt(s: Bytes, start: nat, w: Six): Six
    requires start + w.Sum() <= |s|
  {
    Six(IntAt(s, start, w.a), IntAt(s, start + w.a, w.b), IntAt(s, start + w.a + w.b, w.c),
        IntAt(s, start + w.a + w.b + w.c, w.d), IntAt(s, start + w.a + w.b + w.c + w.d, w.e),
        IntAt(s, start + w.a + w.b + w.c + w.d + w.e, w.f))
  }

  method ReadSix(cursor: ByteReader, w: Six) returns (r: Result<Six>)
    requires cursor.Valid()
    modifies cursor
    ensures cursor.Valid()
    ensures old(cursor.position) + w.Sum() > |cursor.data| ==> r == Failure(Io)
    ensures old(cursor.position) + w.Sum() <= |cursor.data| ==>
      r == Success(SixAt(cursor.data, old(cursor.position), w)) && cursor.position == old(cursor.position) + w.Sum()
  {
    var a :- ReadInt(cursor, w.a);
    var b :- ReadInt(cursor, w.b);
    var c :- ReadInt(cursor, w.c);
    var d :- ReadInt(cursor, w.d);
    var e :- ReadInt(cursor, w.e);
    var f :- ReadInt(cursor, w.f);
    r := Success(Six(a, b, c, d, e, f));
  }

  lemma ByteInt(s: Bytes, i: nat)
    requires i < |s|
    ensures IntAt(s, i, 1) == s[i]
  {
    assert s[i..i + 1] == [s[i]];
    assert FromLe([s[i]]) == s[i] + 256 * FromLe([s[i]][1..]);
  }

  const SIZE_WIDTHS := Six(1, 2, 8, 8, 8, 4)
  const CODEC_WIDTHS := Six(1, 1, 2, 2, 4, 1)

  /** The fixed fields read so far, in order, give the parsed record. */
  lemma FixedFromParts(s: Bytes)
    requires |s| >= FIXED_BYTES
    ensures var f, sizes, codec := FixedAt(s), SixAt(s, 0, SIZE_WIDTHS), SixAt(s, 31, CODEC_WIDTHS);
      && sizes == Six(f.bodyVersion, f.flags, f.payloadPlaintextBytes, f.protectedStreamLen, f.payloadRegionLen,
                      f.aeadChunkSizeBytes)
      && codec == Six(f.aeadCipherId, f.rsAlgorithmId, f.rsDataShards, f.rsParityShards, f.rsShardBytes,
                      f.timelockAlgorithmId)
      && f.iterations == IntAt(s, 42, 8) && f.modulusBits == IntAt(s, 50, 2)
      && f.targetSeconds == (if IntAt(s, 52, 1) == 1 then Some(IntAt(s, 53, 8)) else None)
      && f.createdAtUnixSeconds == IntAt(s, 61, 8)
  {
    ByteInt(s, 0);
    ByteInt(s, 31);
    ByteInt(s, 32);
    ByteInt(s, 41);
    ByteInt(s, 52);
  }

  method ReadFixed(cursor: ByteReader) returns (r: Result<FixedFields>)
    requires cursor.Valid() && cursor.position == 0
    modifies cursor
    ensures cursor.Valid()
    ensures r.Success? ==> ParseFixed(cursor.data) == Success(Parsed(r.value, cursor.Remaining()))
    ensures r.Failure? ==> ParseFixed(cursor.data) == Failure(r.error)
  {
    var sizes :- ReadSix(cursor, SIZE_WIDTHS);
    var codec :- ReadSix(cursor, CODEC_WIDTHS);
    var iterations :- ReadInt(cursor, 8);
    var modulusBits :- ReadInt(cursor, 2);
    var present :- ReadInt(cursor, 1);
    var raw :- ReadInt(cursor, 8);
    ByteInt(cursor.data, 52);
    if present > 1 {
      return Failure(InvalidFormat);
    }
    var created :- ReadInt(cursor, 8);
    FixedFromParts(cursor.data);
    r := Success(FixedFields(sizes.a, sizes.b, sizes.c, sizes.d, sizes.e, sizes.f,
                             codec.a, codec.b, codec.c, codec.d, codec.e, codec.f,
                             iterations, modulusBits, if present == 1 then Some(raw) else None, created));
  }

  /** The two algorithm identifiers, each checked when read. */
  method ReadAlgorithms(cursor: ByteReader) returns (r: Result<()>)
    requires cursor.Valid()
    modifies cursor
    ensures cursor.Valid()
    ensures r.Failure? ==> ParseMetadata(old(cursor.Remaining())) == Failure(r.error)
    ensures r.Success? ==> cursor.position == old(cursor.position) + 2
    ensures r.Success? ==>
      var s := old(cursor.Remaining()); |s| >= 2 && s[0] == TimelockPlusArgon2idV1.StableId() && s[1] == Argon2id.StableId()
  {
    var protection :- ReadInt(cursor, 1);
    ByteInt(cursor.data, old(cursor.position));
    if protection != TimelockPlusArgon2idV1.StableId() {
      return Failure(InvalidFormat);
    }
    var kdf :- ReadInt(cursor, 1);
    ByteInt(cursor.data, old(cursor.position) + 1);
    if kdf != Argon2id.StableId() {
      return Failure(InvalidFormat);
    }
    r := Success(());
  }

  method ReadMetadata(cursor: ByteReader) returns (r: Result<PasswordMetadata>)
    requires cursor.Valid()
    modifies cursor
    ensures cursor.Valid()
    ensures r.Success? ==> ParseMetadata(old(cursor.Remaining())) == Success(Parsed(r.value, cursor.Remaining()))
    ensures r.Failure? ==> ParseMetadata(old(cursor.Remaining())) == Failure(r.error)
  {
    ghost var start := cursor.position;
    var _ :- ReadAlgorithms(cursor);
    var memoryKib :- ReadInt(cursor, 4);
    var iterations :- ReadInt(cursor, 4);
    var parallelism :- ReadInt(cursor, 4);
    assert cursor.Remaining() == cursor.data[start..][14..];
    var salt := ReadSalt(cursor);
    CostsAt(cursor.data, start);
    if salt.Failure? {
      return Failure(salt.error);
    }
    var params := PasswordParams(memoryKib, iterations, parallelism, salt.value);
    if !params.Valid() {
      return Failure(InvalidFormat);
    }
    r := Success(PasswordMetadata(TimelockPlusArgon2idV1, Argon2id, params));
  }

  lemma CostsAt(s: Bytes, start: nat)
    requires start + 14 <= |s|
    ensures IntAt(s[start..], 2, 4) == IntAt(s, start + 2, 4) < 0x1_0000_0000
    ensures IntAt(s[start..], 6, 4) == IntAt(s, start + 6, 4) < 0x1_0000_0000
    ensures IntAt(s[start..], 10, 4) == IntAt(s, start + 10, 4) < 0x1_0000_0000
    ensures start + 16 <= |s| ==> IntAt(s[start..], 14, 2) == IntAt(s[start..][14..], 0, 2)
  {
    IntShift(s, start, 2, 4);
    IntShift(s, start, 6, 4);
    IntShift(s, start, 10, 4);
    Widths();
    if start + 16 <= |s| {
      IntShift(s[start..], 14, 0, 2);
    }
  }

  /** A salt must not be empty. */
  method ReadSalt(cursor: ByteReader) returns (r: Result<Bytes>)
    requires cursor.Valid()
    modifies cursor
    ensures cursor.Valid()
    ensures var s := old(cursor.Remaining());
      && (|s| < 2 ==> r == Failure(Io))
      && (|s| >= 2 && IntAt(s, 0, 2) == 0 ==> r == Failure(InvalidFormat))
      && (|s| >= 2 && IntAt(s, 0, 2) != 0 ==>
            ParsePrefixed(s, 2) == if r.Failure? then Failure(r.error) else Success(Parsed(r.value, cursor.Remaining())))
  {
    ghost var s := cursor.Remaining();
    var length :- ReadInt(cursor, 2);
    IntShift(cursor.data, old(cursor.position), 0, 2);
    assert cursor.Remaining() == s[2..];
    if length == 0 {
      return Failure(InvalidFormat);
    }
    var salt :- cursor.ReadExact(length);
    assert salt == s[2..2 + length] && cursor.Remaining() == s[2 + length..];
    r := Success(salt);
  }

  method ReadText(cursor: ByteReader) returns (r: Result<Bytes>)
    requires cursor.Valid()
    modifies cursor
    ensures cursor.Valid()
    ensures r.Success? ==> ParseProfile(old(cursor.Remaining())) == Success(Parsed(r.value, cursor.Remaining()))
    ensures r.Failure? ==> ParseProfile(old(cursor.Remaining())) == Failure(r.error)
    ensures ParseFilename(old(cursor.Remaining()))
         == if r.Failure? then Failure(r.error)
            else Success(Parsed(if r.value == [] then None else Some(r.value), cursor.Remaining()))
  {
    var bytes :- ReadPrefixed(cursor, 2);
    if !ValidUtf8(bytes) {
      return Failure(InvalidFormat);
    }
    r := Success(bytes);
  }

  method ReadMaterial(cursor: ByteReader) returns (r: Result<TimelockMaterial>)
    requires cursor.Valid()
    modifies cursor
    ensures cursor.Valid()
    ensures r.Success? ==> ParseMaterial(old(cursor.Remaining())) == Success(Parsed(r.value, cursor.Remaining()))
    ensures r.Failure? ==> ParseMaterial(old(cursor.Remaining())) == Failure(r.error)
  {
    var n :- ReadNatural(cursor);
    var a :- ReadNatural(cursor);
    var key :- cursor.ReadExact(32);
    r := Success(TimelockMaterial(n, a, key));
  }

  method ReadTail(cursor: ByteReader, version: byte) returns (r: Result<Option<PasswordMetadata>>)
    requires cursor.Valid()
    modifies cursor
    ensures cursor.Valid()
    ensures r.Success? ==> ParseTail(version, old(cursor.Remaining())) == Success(Parsed(r.value, cursor.Remaining()))
    ensures r.Failure? ==> ParseTail(version, old(cursor.Remaining())) == Failure(r.error)
  {
    if version == BODY_VERSION_V1 {
      return Success(None);
    }
    if version != BODY_VERSION_V2 {
      return Failure(UnsupportedVersion(version));
    }
    var m :- ReadMetadata(cursor);
    r := Success(Some(m));
  }

  /** Field by field with an advancing cursor. */
  method DecodeSuperblockBody(bytes: Bytes) returns (r: Result<Body>)
    ensures r == DecodeBody(bytes)
  {
    if |bytes| > MAX_BODY_BYTES {
      return Failure(InvalidFormat);
    }
    var cursor := new ByteReader(bytes, i => MAX_BODY_BYTES);
    var fixed :- ReadFixed(cursor);
    var filename :- ReadText(cursor);
    var profile :- ReadText(cursor);
    var material :- ReadMaterial(cursor);
    var password :- ReadTail(cursor, fixed.bodyVersion);
    if cursor.position != |bytes| {
      return Failure(InvalidFormat);
    }
    var b := Body(fixed, if filename == [] then None else Some(filename), profile, material, password);
    var _ :- Validate(b);
    r := Success(b);
  }
}

// The promises of the whole format: a lock unlocks to the exact original bytes, or unlock fails.
module EndToEnd {
  import opened Base
  import opened ChunkFrame
  import opened ProtectedStream
  import ReedSolomon
  import PayloadRegion
  import opened Utf8
  import opened SuperblockBody
  import opened CanonicalForm
  import opened Superblock
  import opened Notice
  import opened Reader
  import opened Writer
  import opened Recovery

  /** A finished lock: the request, the nonces drawn, the chunks the plaintext was read in, the file. */
  datatype Lock = Lock(prims: Primitives, request: LockRequest, nonces: nat -> Nonce, chunks: seq<Bytes>, file: Bytes) {
    function Plaintext(): Bytes { Concat(chunks) }

    /** The superblock as it comes back: an empty filename is stored like none. */
    function Planned(): Body
      requires PlannedBody(request).Success?
    {
      PlannedBody(request).value
    }

    function Seal(): Sealing
      requires PlannedBody(request).Success?
    {
      SealingOf(prims, request, Planned(), nonces)
    }

    function Stream(): Bytes
      requires PlannedBody(request).Success?
    {
      StreamFrom(Seal(), 0, chunks)
    }

    function Storage(): PayloadRegion.Storage { StorageOf(prims, request.layout) }
  }

  /** The lock succeeded, on a superblock whose texts are text and fit their fields. */
  ghost predicate Finished(k: Lock) {
    && LockArtifact(k.prims, k.request, k.nonces, k.chunks) == Success(k.file)
    && k.chunks != [] && WellSized(k.chunks, k.request.aeadChunkSizeBytes)
    && |k.chunks| <= 0x1_0000_0000_0000_0000
    && |k.file| <= MAX_U64
    && HoldsText(k.Planned()) && Storable(Normalized(k.Planned())) && ValidUtf8(NoticeOf(k.request))
  }

  lemma FinishedIsPlanned(k: Lock)
    requires Finished(k)
    ensures PlannedBody(k.request).Success?
  {
  }

  /** The facts a finished lock rests on. */
  lemma FinishedParts(k: Lock) returns (region: Bytes)
    requires Finished(k)
    ensures Validate(k.Planned()).Success? && FitFrames(k.chunks)
    ensures PayloadRegion.EncodeRegion(k.Storage(), k.Stream()) == Success(region)
    ensures |region| == k.Planned().fixed.payloadRegionLen && |k.Stream()| == k.Planned().fixed.protectedStreamLen
    ensures |k.Plaintext()| == k.Planned().fixed.payloadPlaintextBytes && |NoticeOf(k.request)| <= MAX_NOTICE_BYTES
    ensures k.file == ArtifactBytes(k.prims.crc, NoticeOf(k.request), BodyBytes(k.Planned()), region)
  {
    hide Validate, FitFrames, StreamFrom, BodyBytes, ArtifactBytes, Storable, HoldsText, PlannedBody;
    region := StoreStream(k.prims, k.request, k.Planned(), k.Stream()).value;
  }

  lemma FinishedNotice(k: Lock)
    requires Finished(k)
    ensures ValidUtf8(NoticeOf(k.request))
  {
  }

  /** The locked superblock is stored in a form that decodes, with the digest the chunks are bound to. */
  lemma FinishedBody(k: Lock)
    requires Finished(k) && PlannedBody(k.request).Success?
    ensures DecodeBody(BodyBytes(k.Planned())) == Success(Normalized(k.Planned()))
    ensures Normalized(k.Planned()).fixed == k.Planned().fixed
    ensures SuperblockDigest(k.prims.blake3, Normalized(k.Planned())) == Success(k.Seal().digest)
  {
    var _ := FinishedParts(k);
    hide Validate, BodyBytes, DecodeBody, HoldsText, Storable, PlannedBody, LockArtifact, FitFrames, StreamFrom, ArtifactBytes;
    DigestSurvivesStorage(k.prims.blake3, k.Planned());
  }

  // ---------------------------------------------------------------- damage that unlock survives

  /**
   * The payload region can be located, from either copy, and every stripe of it has at most `parity`
   * damaged records, each showing in its checksum. The notice may be anything, one superblock copy may be
   * gone, and the file may have lost its tail or its front, or have grown.
   */
  ghost predicate SurvivableAt(k: Lock, region: Bytes, s: Bytes, payload: nat)
    requires PlannedBody(k.request).Success?
  {
    var len := k.Planned().fixed.payloadRegionLen;
    && k.request.layout.Valid()
    && Located(k.prims.crc, s, BodyBytes(k.Planned()), len, payload)
    && PayloadRegion.RegionSurvives(k.Storage(), region, s[payload..payload + len])
  }

  ghost predicate Survivable(k: Lock, region: Bytes, s: Bytes)
    requires PlannedBody(k.request).Success?
  {
    exists payload :: SurvivableAt(k, region, s, payload)
  }

  lemma PlannedParameters(q: LockRequest)
    requires PlannedBody(q).Success?
    ensures LayoutOf(PlannedBody(q).value) == q.layout && q.layout.Valid() && q.aeadChunkSizeBytes > 0
    ensures PlannedBody(q).value.fixed.aeadChunkSizeBytes == q.aeadChunkSizeBytes
  {
  }

  /** A survivable file parses to the locked superblock and its payload region. */
  lemma SurvivorParses(k: Lock, region: Bytes, s: Bytes) returns (payload: nat)
    requires Finished(k) && Survivable(k, region, s) && |s| <= MAX_U64
    ensures payload + k.Planned().fixed.payloadRegionLen <= |s|
    ensures SurvivableAt(k, region, s, payload) && ReadArtifact(k.prims.crc, s).Success?
    ensures var a := ReadArtifact(k.prims.crc, s).value;
      && a.superblock == Normalized(k.Planned())
      && PayloadBytes(s, a) == Success(s[payload..payload + k.Planned().fixed.payloadRegionLen])
  {
    hide BodyBytes, DecodeBody, Normalized, PlannedBody, ReadArtifact, PayloadRegion.RegionSurvives, Finished,
         SuperblockDigest, PayloadBytes, StartFrameAt, EndsInFrame, StartCopyOf, EndCopyOf;
    FinishedIsPlanned(k);
    payload :| SurvivableAt(k, region, s, payload);
    FinishedBody(k);
    LocatedIsRead(k.prims.crc, s, BodyBytes(k.Planned()), Normalized(k.Planned()), payload);
  }

  /** Its protected stream is reconstructed, and the digest is the one the chunks are bound to. */
  lemma SurvivorStream(k: Lock, region: Bytes, s: Bytes)
    requires Finished(k) && |s| <= MAX_U64
    requires PayloadRegion.EncodeRegion(k.Storage(), k.Stream()) == Success(region) && Survivable(k, region, s)
    requires ReedSolomon.ErasureCode(k.prims.codec, k.request.layout.dataShards, k.request.layout.parityShards)
    ensures ReadArtifact(k.prims.crc, s).Success?
    ensures var a := ReadArtifact(k.prims.crc, s).value;
      && RecoveredStream(k.prims, s, a) == Success(k.Stream())
      && SuperblockDigest(k.prims.blake3, a.superblock) == Success(k.Seal().digest)
      && a.superblock.fixed == k.Planned().fixed
  {
    hide BodyBytes, Normalized, PlannedBody, ReadArtifact, StreamFrom, PayloadRegion.EncodeRegion, Survivable, Finished,
         PayloadRegion.ReconstructRegion, PayloadRegion.RegionSurvives, ReedSolomon.ErasureCode, Located, SuperblockDigest;
    FinishedIsPlanned(k);
    var payload := SurvivorParses(k, region, s);
    PlannedParameters(k.request);
    var _ := FinishedParts(k);
    var stored := s[payload..payload + k.Planned().fixed.payloadRegionLen];
    PayloadRegion.ReconstructAfterDamage(k.Storage(), k.Stream(), region, stored);
    FinishedBody(k);
  }

  /**
   * A lock unlocks to the exact original bytes: from any survivable file, with the file key, recovery
   * succeeds and writes the plaintext, in as many chunks as it was encrypted in.
   */
  lemma UnlocksToTheOriginal(k: Lock, log: set<Sealed>, region: Bytes, s: Bytes, cancelled: nat -> bool)
    requires Finished(k) && |s| <= MAX_U64
    requires PayloadRegion.EncodeRegion(k.Storage(), k.Stream()) == Success(region) && Survivable(k, region, s)
    requires ReedSolomon.ErasureCode(k.prims.codec, k.request.layout.dataShards, k.request.layout.parityShards)
    requires AppendsTag(k.prims.aead) && Ideal(k.prims.aead, log) && Sealings(k.Seal(), 0, k.chunks) <= log
    requires forall i :: !cancelled(i)
    ensures ReadArtifact(k.prims.crc, s).Success?
    ensures RecoverPayload(k.prims, s, ReadArtifact(k.prims.crc, s).value, k.request.key, cancelled)
         == Decryption(Success(ChunkStats(|k.chunks|, |k.Plaintext()|)), k.Plaintext())
  {
    hide Validate, BodyBytes, DecodeBody, HoldsText, Storable, PlannedBody, ReadArtifact, StreamFrom, Sealings,
         PayloadRegion.EncodeRegion, RecoveredStream, Survivable, ReedSolomon.ErasureCode, Ideal, AppendsTag, DecryptFrom,
         FitFrames, WellSized, ArtifactBytes, LockArtifact, SuperblockDigest;
    FinishedIsPlanned(k);
    SurvivorStream(k, region, s);
    PlannedParameters(k.request);
    var region' := FinishedParts(k);
    var a := ReadArtifact(k.prims.crc, s).value;
    var o := OpeningFor(k.prims, a.superblock, k.request.key, k.Seal().digest, cancelled);
    DecryptSealedStream(o, k.Seal(), log, k.chunks);
  }

  /** The file as written is survivable. */
  lemma UndamagedIsSurvivable(k: Lock) returns (region: Bytes)
    requires Finished(k)
    ensures PayloadRegion.EncodeRegion(k.Storage(), k.Stream()) == Success(region) && Survivable(k, region, k.file)
  {
    hide BodyBytes, DecodeBody, Normalized, PlannedBody, StreamFrom, PayloadRegion.EncodeRegion, SuperblockDigest, Finished,
         PayloadRegion.RegionSurvives, Located, ArtifactBytes, ValidUtf8, NoticeOf;
    FinishedIsPlanned(k);
    FinishedNotice(k);
    region := FinishedParts(k);
    PlannedParameters(k.request);
    FinishedBody(k);
    var body := BodyBytes(k.Planned());
    UndamagedIsLocated(k.prims.crc, NoticeOf(k.request), body, region, Normalized(k.Planned()));
    PayloadRegion.UndamagedRegion(k.Storage(), region);
    assert SurvivableAt(k, region, k.file, Site(|NoticeOf(k.request)|, body, |region|).Payload());
  }

  /** The file as written shows the notice that was asked for, or the default one. */
  lemma NoticeComesBack(k: Lock)
    requires Finished(k)
    ensures ReadArtifact(k.prims.crc, k.file).Success?
    ensures var notice := ReadArtifact(k.prims.crc, k.file).value.notice;
      && (k.request.notice.Some? ==> notice == k.request.notice.value)
      && (k.request.notice.None? ==> notice == Ascii(
            "This is a Timelocked file. Use the Timelocked app (https://timelocked.app) to inspect or unlock it."))
  {
    hide BodyBytes, DecodeBody, Normalized, PlannedBody, StreamFrom, PayloadRegion.EncodeRegion, SuperblockDigest, Finished,
         Survivable, ValidUtf8, StartFrame, EndFrame, ReadArtifact, DecodeNotice, NoticeBytes, Ascii;
    FinishedIsPlanned(k);
    FinishedNotice(k);
    var region := UndamagedIsSurvivable(k);
    var region' := FinishedParts(k);
    FinishedSize(k);
    var _ := SurvivorParses(k, region, k.file);
    var body := BodyBytes(k.Planned());
    NoticeRoundTrip(NoticeOf(k.request), StartFrame(k.prims.crc, body) + (region' + EndFrame(k.prims.crc, body)));
    NoCopyNothing(k.prims.crc, k.file);
  }

  lemma FinishedSize(k: Lock)
    requires Finished(k)
    ensures |k.file| <= MAX_U64
  {
  }

  /** Nothing behind the payload region is needed: it may be cut off, or be any bytes that are no end copy. */
  lemma TailMayBeAnything(k: Lock, tail: Bytes) returns (region: Bytes, s: Bytes)
    requires Finished(k)
    ensures PayloadRegion.EncodeRegion(k.Storage(), k.Stream()) == Success(region)
    ensures s == NoticeBytes(NoticeOf(k.request)) + (StartFrame(k.prims.crc, BodyBytes(k.Planned())) + (region + tail))
    ensures EndCopyOf(k.prims.crc, s) == None ==> Survivable(k, region, s)
  {
    hide BodyBytes, DecodeBody, Normalized, PlannedBody, StreamFrom, PayloadRegion.EncodeRegion, SuperblockDigest, Finished,
         PayloadRegion.RegionSurvives, Located, ArtifactBytes, ValidUtf8, NoticeOf, EndCopyOf, StartFrame, NoticeBytes;
    FinishedIsPlanned(k);
    FinishedNotice(k);
    region := FinishedParts(k);
    PlannedParameters(k.request);
    FinishedBody(k);
    var body, notice := BodyBytes(k.Planned()), NoticeOf(k.request);
    s := NoticeBytes(notice) + (StartFrame(k.prims.crc, body) + (region + tail));
    if EndCopyOf(k.prims.crc, s) == None {
      AnyTailIsLocated(k.prims.crc, notice, body, region, Normalized(k.Planned()), tail, s);
      PayloadRegion.UndamagedRegion(k.Storage(), region);
      assert SurvivableAt(k, region, s, Site(|notice|, body, |region|).Payload());
    }
  }

  /** Nor is anything in front of it, as long as enough bytes are left for a superblock to fit. */
  lemma FrontMayBeAnything(k: Lock, front: Bytes) returns (region: Bytes, s: Bytes)
    requires Finished(k) && |front| >= FRAME_BYTES + |BodyBytes(k.Planned())|
    ensures PayloadRegion.EncodeRegion(k.Storage(), k.Stream()) == Success(region)
    ensures s == front + (region + EndFrame(k.prims.crc, BodyBytes(k.Planned())))
    ensures StartCopyOf(k.prims.crc, s) == None ==> Survivable(k, region, s)
  {
    hide BodyBytes, DecodeBody, Normalized, PlannedBody, StreamFrom, PayloadRegion.EncodeRegion, SuperblockDigest, Finished,
         PayloadRegion.RegionSurvives, Located, ArtifactBytes, StartCopyOf, EndFrame;
    FinishedIsPlanned(k);
    region := FinishedParts(k);
    PlannedParameters(k.request);
    FinishedBody(k);
    var body := BodyBytes(k.Planned());
    DecodedSize(body);
    s := front + (region + EndFrame(k.prims.crc, body));
    if StartCopyOf(k.prims.crc, s) == None {
      AnyFrontIsLocated(k.prims.crc, front, body, region, s);
      PayloadRegion.UndamagedRegion(k.Storage(), region);
      assert SurvivableAt(k, region, s, |front|);
    }
  }

  // ---------------------------------------------------------------- exact or explicit failure

  /**
   * Exact or explicit failure: let this lock be the only use of its key. Then for ANY bytes in place of
   * the file, whatever superblock and payload they show, recovery with the file key either fails or
   * writes exactly the original plaintext, and then under a superblock with the original digest.
   */
  lemma ExactOrFails(k: Lock, log: set<Sealed>, s: Bytes, cancelled: nat -> bool)
    requires Finished(k) && Ideal(k.prims.aead, log) && OnlyStreamUnderKey(log, k.Seal(), k.chunks)
    requires ReadArtifact(k.prims.crc, s).Success?
    requires RecoverPayload(k.prims, s, ReadArtifact(k.prims.crc, s).value, k.request.key, cancelled).result.Success?
    ensures var a := ReadArtifact(k.prims.crc, s).value;
      && RecoverPayload(k.prims, s, a, k.request.key, cancelled).written == k.Plaintext()
      && SuperblockDigest(k.prims.blake3, a.superblock) == SuperblockDigest(k.prims.blake3, k.Planned())
  {
    var region := FinishedParts(k);
    hide BodyBytes, PlannedBody, ReadArtifact, StreamFrom, Sealings, RecoveredStream, Ideal, DecryptFrom,
         FitFrames, WellSized, ArtifactBytes, LockArtifact, Validate;
    var a := ReadArtifact(k.prims.crc, s).value;
    var stream := RecoveredStream(k.prims, s, a).value;
    var digest := SuperblockDigest(k.prims.blake3, a.superblock).value;
    OnlyTheOriginalDecrypts(OpeningFor(k.prims, a.superblock, k.request.key, digest, cancelled), k.Seal(), log,
                            k.chunks, stream);
  }

  /** With the digest comes the superblock: a file read under the original digest has the original superblock, or the hash collides. */
  lemma OriginalDigestOriginalSuperblock(k: Lock, s: Bytes)
    requires Finished(k) && ReadArtifact(k.prims.crc, s).Success? && PlannedBody(k.request).Success?
    requires SuperblockDigest(k.prims.blake3, ReadArtifact(k.prims.crc, s).value.superblock) == Success(k.Seal().digest)
    ensures ReadArtifact(k.prims.crc, s).value.superblock == Normalized(k.Planned())
         || exists x, y :: x != y && k.prims.blake3(x) == k.prims.blake3(y)
  {
    hide ReadArtifact, DecodeBody, BodyBytes, Finished, PlannedBody, SuperblockDigest, Normalized;
    FinishedBody(k);
    AcceptedIsInBounds(k.prims.crc, s);
    SameDigestSameBody(k.prims.blake3, ReadArtifact(k.prims.crc, s).value.superblockBytes, BodyBytes(k.Planned()));
  }

  /** And until it fails it has written nothing but the beginning of that plaintext. */
  lemma OnlyPlaintextIsWritten(k: Lock, log: set<Sealed>, s: Bytes, a: Artifact, cancelled: nat -> bool)
    requires Finished(k) && Ideal(k.prims.aead, log) && OnlyStreamUnderKey(log, k.Seal(), k.chunks)
    ensures RecoverPayload(k.prims, s, a, k.request.key, cancelled).written <= k.Plaintext()
  {
    FinishedIsPlanned(k);
    hide Ideal, Decrypt, RecoveredStream, SuperblockDigest, Concat, StreamFrom, Sealings, BodyBytes, LockArtifact, PlannedBody;
    var stream, digest := RecoveredStream(k.prims, s, a), SuperblockDigest(k.prims.blake3, a.superblock);
    if stream.Success? && digest.Success? {
      var o := OpeningFor(k.prims, a.superblock, k.request.key, digest.value, cancelled);
      var _ := WrittenIsPrefix(o, k.Seal(), log, k.chunks, stream.value);
    }
  }

  /**
   * Under a superblock with the original digest, which no other key was used with, a recovery that succeeds
   * used the file key and wrote exactly the plaintext, whatever else has been locked with other keys.
   */
  lemma OriginalDigestIsExact(k: Lock, log: set<Sealed>, s: Bytes, key: Key, cancelled: nat -> bool)
    requires Finished(k) && Ideal(k.prims.aead, log) && OnlyStreamUnderKey(log, k.Seal(), k.chunks)
    requires DigestUnderOneKey(log, k.Seal()) && ReadArtifact(k.prims.crc, s).Success?
    requires var a := ReadArtifact(k.prims.crc, s).value;
      && SuperblockDigest(k.prims.blake3, a.superblock) == Success(k.Seal().digest)
      && RecoverPayload(k.prims, s, a, key, cancelled).result.Success?
    ensures key == k.request.key
    ensures RecoverPayload(k.prims, s, ReadArtifact(k.prims.crc, s).value, key, cancelled).written == k.Plaintext()
  {
    FinishedIsPlanned(k);
    hide Ideal, Decrypt, RecoveredStream, SuperblockDigest, Concat, StreamFrom, Sealings, BodyBytes, LockArtifact, PlannedBody,
         ReadArtifact, DigestUnderOneKey;
    var a := ReadArtifact(k.prims.crc, s).value;
    if key != k.request.key {
      OnlyItsKeyDecrypts(OpeningFor(k.prims, a.superblock, key, k.Seal().digest, cancelled), k.Seal(), log,
                         RecoveredStream(k.prims, s, a).value);
    } else {
      ExactOrFails(k, log, s, cancelled);
    }
  }

  /** With a key that has sealed nothing recovery fails and writes nothing, whatever the file has become. */
  lemma UnknownKeyRecoversNothing(prims: Primitives, log: set<Sealed>, s: Bytes, a: Artifact, key: Key,
                                  cancelled: nat -> bool)
    requires Ideal(prims.aead, log) && forall e :: e in log ==> e.key != key
    ensures RecoverPayload(prims, s, a, key, cancelled).result.Failure?
    ensures RecoverPayload(prims, s, a, key, cancelled).written == []
  {
    hide Ideal, DecryptFrom, RecoveredStream, SuperblockDigest;
    var stream, digest := RecoveredStream(prims, s, a), SuperblockDigest(prims.blake3, a.superblock);
    if stream.Success? && digest.Success? {
      UnknownKeyNeverDecrypts(OpeningFor(prims, a.superblock, key, digest.value, cancelled), log, stream.value);
    }
  }

  /** On a survivable file any other key fails authentication, the one error unlock retries. */
  lemma OtherKeysFailAuthentication(k: Lock, log: set<Sealed>, region: Bytes, s: Bytes, key: Key, cancelled: nat -> bool)
    requires Finished(k) && |s| <= MAX_U64
    requires PayloadRegion.EncodeRegion(k.Storage(), k.Stream()) == Success(region) && Survivable(k, region, s)
    requires ReedSolomon.ErasureCode(k.prims.codec, k.request.layout.dataShards, k.request.layout.parityShards)
    requires AppendsTag(k.prims.aead) && Ideal(k.prims.aead, log) && forall e :: e in log ==> e.key != key
    requires forall i :: !cancelled(i)
    ensures ReadArtifact(k.prims.crc, s).Success?
    ensures RecoverPayload(k.prims, s, ReadArtifact(k.prims.crc, s).value, key, cancelled)
         == Decryption(Failure(Crypto(PayloadAuthentication)), [])
  {
    hide Validate, BodyBytes, DecodeBody, HoldsText, Storable, PlannedBody, ReadArtifact, StreamFrom, Sealings,
         PayloadRegion.EncodeRegion, RecoveredStream, Survivable, ReedSolomon.ErasureCode, Ideal, AppendsTag, DecryptFrom,
         FitFrames, WellSized, ArtifactBytes, LockArtifact, SuperblockDigest;
    FinishedIsPlanned(k);
    SurvivorStream(k, region, s);
    PlannedParameters(k.request);
    var region' := FinishedParts(k);
    var a := ReadArtifact(k.prims.crc, s).value;
    var o := OpeningFor(k.prims, a.superblock, key, k.Seal().digest, cancelled);
    OtherKeyFailsAuthentication(o, k.Seal(), log, k.chunks);
  }
}

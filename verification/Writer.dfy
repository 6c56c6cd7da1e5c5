// Writing a complete artifact: predicted sizes, superblock, protected stream, payload region, two copies.
module Writer {
  import opened Base
  import opened NumberTheory
  import opened Streams
  import opened ChunkFrame
  import opened ProtectedStream
  import ReedSolomon
  import PayloadRegion
  import opened PasswordProtection
  import opened SuperblockBody
  import opened Superblock
  import opened Notice
  import opened Reader

  const DEFAULT_RS_DATA_SHARDS := 4
  const DEFAULT_RS_SHARD_BYTES := 65_536
  const MIN_ADAPTIVE_RS_SHARD_BYTES := 64
  const CHUNK_OVERHEAD := 57

  /** The library primitives the format is built on. */
  datatype Primitives = Primitives(
    crc: Checksum, blake3: Bytes -> Key, kdf: Kdf, codec: ReedSolomon.Codec, aead: Aead)

  datatype LockRequest = LockRequest(
    notice: Option<Bytes>, originalFilename: Option<Bytes>, iterations: u64, modulusBits: u16,
    hardwareProfile: Bytes, targetSeconds: Option<u64>, createdAtUnixSeconds: u64,
    payloadPlaintextBytes: u64, aeadChunkSizeBytes: u32, layout: PayloadRegion.Layout,
    key: Key, material: TimelockMaterial, password: Option<PasswordMetadata>)

  // ---------------------------------------------------------------- sizes

  /** u64 arithmetic wraps. */
  function Wrap64(n: nat): u64 {
    n % 0x1_0000_0000_0000_0000
  }

  function ChunksFor(plaintextBytes: nat, chunkSize: nat): nat
    requires chunkSize > 0
  {
    if plaintextBytes == 0 then 1 else CeilDiv(plaintextBytes, chunkSize)
  }

  function PredictedProtectedStreamLen(plaintextBytes: u64, chunkSize: u32): Result<u64> {
    if chunkSize == 0 then Failure(InvalidArgument)
    else Success(Wrap64(plaintextBytes + ChunksFor(plaintextBytes, chunkSize) * CHUNK_OVERHEAD))
  }

  /** The least power of two from p on that is at least n. */
  function NextPowerOfTwo(p: nat, n: nat): (r: nat)
    requires p > 0
    ensures r >= n && r >= p && (r == p || r < 2 * n)
    decreases n - p
  {
    if p >= n then p else NextPowerOfTwo(2 * p, n)
  }

  predicate PowerOfTwo(n: nat) {
    n > 0 && (n == 1 || (n % 2 == 0 && PowerOfTwo(n / 2)))
  }

  lemma {:induction false} NextPowerIsPower(p: nat, n: nat)
    requires PowerOfTwo(p)
    ensures PowerOfTwo(NextPowerOfTwo(p, n))
    decreases n - p
  {
    if p < n {
      assert (2 * p) / 2 == p;
      NextPowerIsPower(2 * p, n);
    }
  }

  function Max(a: nat, b: nat): nat { if a >= b then a else b }

  function ChooseShardBytes(protectedStreamLen: u64): (r: nat)
    ensures r <= DEFAULT_RS_SHARD_BYTES
  {
    if protectedStreamLen >= DEFAULT_RS_SHARD_BYTES then DEFAULT_RS_SHARD_BYTES
    else
      var required := CeilDiv(protectedStreamLen, DEFAULT_RS_DATA_SHARDS);
      Max(NextPowerOfTwo(1, required), MIN_ADAPTIVE_RS_SHARD_BYTES)
  }

  /**
   * The adaptive shard size is a power of two between 64 and 65,536; a stream shorter than 64 KiB fits
   * one stripe of four data shards, and no smaller power of two from 64 on would hold it.
   */
  lemma AdaptiveShardBytes(protectedStreamLen: u64)
    ensures var r := ChooseShardBytes(protectedStreamLen);
      && 64 <= r <= 65_536 && PowerOfTwo(r) && (protectedStreamLen >= 65_536 ==> r == 65_536)
      && (protectedStreamLen < 65_536 ==>
            protectedStreamLen <= 4 * r && PayloadRegion.StripeCount(protectedStreamLen, 4 * r) == 1 &&
            (r == 64 || 4 * (r / 2) < protectedStreamLen))
  {
    SmallPowers();
    if protectedStreamLen < DEFAULT_RS_SHARD_BYTES {
      var required := CeilDiv(protectedStreamLen, DEFAULT_RS_DATA_SHARDS);
      NextPowerIsPower(1, required);
      var r := ChooseShardBytes(protectedStreamLen);
      if protectedStreamLen > 0 {
        DivModUnique(protectedStreamLen + 4 * r - 1, 4 * r, 1, protectedStreamLen - 1);
      }
    }
  }

  lemma SmallPowers()
    ensures PowerOfTwo(1) && PowerOfTwo(64) && PowerOfTwo(65_536)
  {
    assert PowerOfTwo(4);
    assert PowerOfTwo(16);
    assert PowerOfTwo(64);
    assert PowerOfTwo(256);
    assert PowerOfTwo(1024);
    assert PowerOfTwo(4096);
    assert PowerOfTwo(16_384);
  }

  // ---------------------------------------------------------------- the plan

  /** The superblock the sizes predict. */
  function PlannedBody(q: LockRequest): Result<Body> {
    var streamLen :- PredictedProtectedStreamLen(q.payloadPlaintextBytes, q.aeadChunkSizeBytes);
    var regionLen :- PayloadRegion.EncodedPayloadRegionLen(streamLen, q.layout);
    Success(Body(
      FixedFields(if q.password.Some? then BODY_VERSION_V2 else BODY_VERSION_V1, 0,
                  q.payloadPlaintextBytes, streamLen, Wrap64(regionLen), q.aeadChunkSizeBytes,
                  AEAD_CIPHER_ID, RS_ALGORITHM_ID, q.layout.dataShards, q.layout.parityShards, q.layout.shardBytes,
                  TIMELOCK_ALGORITHM_ID, q.iterations, q.modulusBits, q.targetSeconds, q.createdAtUnixSeconds),
      q.originalFilename, q.hardwareProfile, q.material, q.password))
  }

  function NoticeOf(q: LockRequest): Bytes {
    if q.notice.Some? then q.notice.value else Ascii(DEFAULT_NOTICE)
  }

  function SealingOf(prims: Primitives, q: LockRequest, b: Body, nonces: nat -> Nonce): Sealing {
    Sealing(prims.aead, q.key, prims.blake3(BodyBytes(b)), nonces)
  }

  function StorageOf(prims: Primitives, layout: PayloadRegion.Layout): PayloadRegion.Storage {
    PayloadRegion.Storage(prims.crc, prims.codec, layout)
  }

  /** The three length checks: plaintext and stream after encrypting, region after storing. */
  function CheckStream(b: Body, plaintextBytes: nat, stream: Bytes): Result<()> {
    if plaintextBytes != b.fixed.payloadPlaintextBytes then Failure(InvalidFormat)
    else if |stream| != b.fixed.protectedStreamLen then Failure(InvalidFormat)
    else Success(())
  }

  function StoreStream(prims: Primitives, q: LockRequest, b: Body, stream: Bytes): Result<Bytes> {
    var region :- PayloadRegion.EncodeRegion(StorageOf(prims, q.layout), stream);
    if |region| != b.fixed.payloadRegionLen then Failure(InvalidFormat) else Success(region)
  }

  /** The artifact of a plaintext that was read as these chunks, or the first thing that stands against it. */
  ghost function LockArtifact(prims: Primitives, q: LockRequest, nonces: nat -> Nonce, chunks: seq<Bytes>): Result<Bytes> {
    var b :- PlannedBody(q);
    var _ :- Validate(b);
    if !FitFrames(chunks) then Failure(InvalidArgument)
    else
      var stream := StreamFrom(SealingOf(prims, q, b, nonces), 0, chunks);
      var _ :- CheckStream(b, |Concat(chunks)|, stream);
      var region :- StoreStream(prims, q, b, stream);
      var _ :- EncodeNotice(NoticeOf(q));
      Success(ArtifactBytes(prims.crc, NoticeOf(q), BodyBytes(b), region))
  }

  /** Encrypting into memory. */
  method Protect(prims: Primitives, reader: ByteReader, q: LockRequest, b: Body, nonces: nat -> Nonce,
                 cancelled: nat -> bool)
    returns (r: Result<Bytes>, plaintextBytes: nat)
    requires reader.Valid() && AppendsTag(prims.aead) && q.aeadChunkSizeBytes > 0
    requires Validate(b).Success?
    modifies reader
    ensures var chunks := Terminated(ReadChunks(old(reader.Remaining()), reader.limit, old(reader.calls), q.aeadChunkSizeBytes));
      && (r.Success? ==> FitFrames(chunks) && plaintextBytes == |Concat(chunks)|)
      && (r.Success? ==> r.value == StreamFrom(SealingOf(prims, q, b, nonces), 0, chunks))
      && (r.Success? && old(reader.Remaining()) != [] ==> forall i :: 0 <= i <= |chunks| ==> !cancelled(i))
      && (r.Failure? ==>
            (r.error == Cancelled && exists i :: cancelled(i)) || (r.error == InvalidArgument && !FitFrames(chunks)))
  {
    hide StreamFrom, BodyBytes, FitFrames;
    ghost var data, call := reader.Remaining(), reader.calls;
    var buffer := new ByteWriter();
    var stats := EncryptProtectedStream(reader, buffer, SealingOf(prims, q, b, nonces), q.aeadChunkSizeBytes, cancelled);
    ReadChunksSound(data, reader.limit, call, q.aeadChunkSizeBytes);
    if stats.Failure? {
      return Failure(stats.error), 0;
    }
    r, plaintextBytes := Success(buffer.written), stats.value.plaintextBytes;
    assert [] + buffer.written == buffer.written;
  }

  /** Notice, start copy, payload region and end copy, in this order. */
  method Emit(prims: Primitives, writer: ByteWriter, notice: Bytes, b: Body, region: Bytes)
    requires Validate(b).Success?
    modifies writer
    ensures writer.written == old(writer.written) + ArtifactBytes(prims.crc, notice, BodyBytes(b), region)
  {
    hide StartFrame, EndFrame, NoticeBytes, BodyBytes;
    var start := EncodeStartSuperblockCopy(prims.crc, b);
    var end := EncodeEndSuperblockCopy(prims.crc, b);
    writer.WriteAll(NoticeBytes(notice));
    writer.WriteAll(start.value);
    writer.WriteAll(region);
    writer.WriteAll(end.value);
    AppendFour(old(writer.written), NoticeBytes(notice), start.value, region, end.value);
  }

  lemma AppendFour(out: Bytes, a: Bytes, b: Bytes, c: Bytes, d: Bytes)
    ensures (((out + a) + b) + c) + d == out + (a + (b + (c + d)))
  {
  }

  /**
   * Encrypts, stores and frames the plaintext. Success appends exactly the artifact of the plaintext;
   * failure, for instance of a length that short reads have spoiled, writes nothing.
   */
  method WriteTimelockedArtifact(prims: Primitives, writer: ByteWriter, reader: ByteReader, q: LockRequest,
                                 nonces: nat -> Nonce, cancelled: nat -> bool)
    returns (r: Result<()>)
    requires reader.Valid() && AppendsTag(prims.aead)
    modifies writer, reader
    ensures r.Failure? ==> writer.written == old(writer.written)
    ensures q.aeadChunkSizeBytes == 0 ==> r == Failure(InvalidArgument)
    ensures q.aeadChunkSizeBytes > 0 ==>
      var chunks := Terminated(ReadChunks(old(reader.Remaining()), reader.limit, old(reader.calls), q.aeadChunkSizeBytes));
      var artifact := LockArtifact(prims, q, nonces, chunks);
      && (r.Success? ==> artifact.Success? && writer.written == old(writer.written) + artifact.value)
      && (r.Failure? ==> artifact == Failure(r.error) || (r.error == Cancelled && exists i :: cancelled(i)))
      && (r.Success? && old(reader.Remaining()) != [] ==> forall i :: 0 <= i <= |chunks| ==> !cancelled(i))
  {
    hide StreamFrom, BodyBytes, FitFrames, ArtifactBytes, Validate, ReadChunks;
    var b :- PlannedBody(q);
    var _ :- Validate(b);
    var stream, plaintextBytes := Protect(prims, reader, q, b, nonces, cancelled);
    if stream.Failure? {
      return Failure(stream.error);
    }
    var _ :- CheckStream(b, plaintextBytes, stream.value);
    var stored := PayloadRegion.EncodePayloadRegion(StorageOf(prims, q.layout), stream.value);
    var region :- stored;
    if |region| != b.fixed.payloadRegionLen {
      return Failure(InvalidFormat);
    }
    var _ :- EncodeNotice(NoticeOf(q));
    Emit(prims, writer, NoticeOf(q), b, region);
    r := Success(());
  }

  // ---------------------------------------------------------------- when the predicted lengths are exact

  /** Sizes that u64 can hold. */
  ghost predicate FitsU64(q: LockRequest) {
    && q.aeadChunkSizeBytes > 0 && q.layout.Valid()
    && StreamBytesFor(q) <= MAX_U64
    && PayloadRegion.EncodedPayloadRegionLen(StreamBytesFor(q), q.layout).value <= MAX_U64
  }

  function StreamBytesFor(q: LockRequest): nat
    requires q.aeadChunkSizeBytes > 0
  {
    q.payloadPlaintextBytes + ChunksFor(q.payloadPlaintextBytes, q.aeadChunkSizeBytes) * CHUNK_OVERHEAD
  }

  lemma PlannedSizes(q: LockRequest)
    requires FitsU64(q)
    ensures PlannedBody(q).Success?
    ensures var f := PlannedBody(q).value.fixed;
      && f.protectedStreamLen == StreamBytesFor(q) && f.payloadPlaintextBytes == q.payloadPlaintextBytes
      && f.payloadRegionLen == PayloadRegion.EncodedPayloadRegionLen(StreamBytesFor(q), q.layout).value
      && f.aeadChunkSizeBytes == q.aeadChunkSizeBytes
      && PayloadRegion.Layout(f.rsDataShards, f.rsParityShards, f.rsShardBytes) == q.layout
  {
  }

  /**
   * The stream has the predicted length exactly when the reads together stay below the buffer by less
   * than one chunk, as those of a reader that fills the buffer always do.
   */
  lemma StreamLengthPrediction(prims: Primitives, q: LockRequest, nonces: nat -> Nonce, data: Bytes,
                               limit: nat -> nat, call: nat)
    requires AppendsTag(prims.aead) && FitsU64(q)
    ensures PlannedBody(q).Success?
    ensures var b := PlannedBody(q).value;
      var chunks := Terminated(ReadChunks(data, limit, call, q.aeadChunkSizeBytes));
      var stream := StreamFrom(SealingOf(prims, q, b, nonces), 0, chunks);
      && Concat(chunks) == data
      && CheckStream(b, |data|, stream)
         == (if LengthsMatch(q, |data|, limit, call) then Success(()) else Failure(InvalidFormat))
      && (LengthsMatch(q, |data|, limit, call) ==> |stream| == StreamBytesFor(q))
  {
    PlannedSizes(q);
    hide PlannedBody, StreamFrom, BodyBytes, Concat;
    var b := PlannedBody(q).value;
    var chunks := Terminated(ReadChunks(data, limit, call, q.aeadChunkSizeBytes));
    ReadChunksSound(data, limit, call, q.aeadChunkSizeBytes);
    StreamLength(SealingOf(prims, q, b, nonces), 0, chunks);
    ChunkCount(data, limit, call, q.aeadChunkSizeBytes);
  }

  /** As many bytes as announced, in reads that together stay below the buffer by less than one chunk. */
  predicate LengthsMatch(q: LockRequest, available: nat, limit: nat -> nat, call: nat)
    requires q.aeadChunkSizeBytes > 0
  {
    available == q.payloadPlaintextBytes && Shortfall(available, limit, call, q.aeadChunkSizeBytes) < q.aeadChunkSizeBytes
  }

  /** A stream of the predicted length is stored in a region of the predicted length. */
  lemma RegionLengthPrediction(prims: Primitives, q: LockRequest, stream: Bytes)
    requires FitsU64(q)
    requires ReedSolomon.Supported(q.layout.dataShards, q.layout.parityShards)
    requires ReedSolomon.ErasureCode(prims.codec, q.layout.dataShards, q.layout.parityShards)
    requires |stream| == StreamBytesFor(q)
    ensures PlannedBody(q).Success? && StoreStream(prims, q, PlannedBody(q).value, stream).Success?
  {
    PlannedSizes(q);
    hide PlannedBody, PayloadRegion.EncodeRegion;
    PayloadRegion.EncodingSucceeds(StorageOf(prims, q.layout), stream);
    PayloadRegion.EncodedLengthIsPredicted(StorageOf(prims, q.layout), stream);
  }

  /**
   * Exactly which locks succeed, when the superblock is valid and nothing is too long: those that read
   * what was announced, with little enough missing from the buffer. All others fail with a mismatch.
   */
  lemma LockSucceedsExactly(prims: Primitives, q: LockRequest, nonces: nat -> Nonce, data: Bytes,
                            limit: nat -> nat, call: nat)
    requires AppendsTag(prims.aead) && FitsU64(q)
    requires ReedSolomon.Supported(q.layout.dataShards, q.layout.parityShards)
    requires ReedSolomon.ErasureCode(prims.codec, q.layout.dataShards, q.layout.parityShards)
    requires PlannedBody(q).Success? && Validate(PlannedBody(q).value).Success? && |NoticeOf(q)| <= MAX_NOTICE_BYTES
    requires FitFrames(Terminated(ReadChunks(data, limit, call, q.aeadChunkSizeBytes)))
    ensures var chunks := Terminated(ReadChunks(data, limit, call, q.aeadChunkSizeBytes));
      var artifact := LockArtifact(prims, q, nonces, chunks);
      && (artifact.Success? <==> LengthsMatch(q, |data|, limit, call))
      && (artifact.Failure? ==> artifact == Failure(InvalidFormat))
  {
    StreamLengthPrediction(prims, q, nonces, data, limit, call);
    hide PlannedBody, StreamFrom, BodyBytes, FitFrames, ReadChunks, ArtifactBytes, Validate, StoreStream, CheckStream;
    if LengthsMatch(q, |data|, limit, call) {
      var b := PlannedBody(q).value;
      var chunks := Terminated(ReadChunks(data, limit, call, q.aeadChunkSizeBytes));
      RegionLengthPrediction(prims, q, StreamFrom(SealingOf(prims, q, b, nonces), 0, chunks));
    }
  }

  /** Two bytes, read one at a time into a buffer for both: the lock fails, whatever else is asked for. */
  lemma ShortReadsSpoilTheLock(prims: Primitives, q: LockRequest, nonces: nat -> Nonce)
    requires AppendsTag(prims.aead) && FitsU64(q) && q.payloadPlaintextBytes == 2 && q.aeadChunkSizeBytes == 2
    requires PlannedBody(q).Success? && Validate(PlannedBody(q).value).Success?
    ensures LockArtifact(prims, q, nonces, Terminated(ReadChunks([1, 2], _ => 1, 0, 2))) == Failure(InvalidFormat)
  {
    var limit := (_: nat) => 1;
    StreamLengthPrediction(prims, q, nonces, [1, 2], limit, 0);
    assert Shortfall(1, limit, 1, 2) == 1;
    ReadChunksSound([1, 2], limit, 0, 2);
    hide PlannedBody, StreamFrom, BodyBytes, ReadChunks, Validate, CheckStream;
  }

  /** A reader that fills the buffer and delivers what was announced never causes a mismatch. */
  lemma FullReadsMatch(q: LockRequest, data: Bytes, limit: nat -> nat, call: nat)
    requires q.aeadChunkSizeBytes > 0 && FillsBuffer(limit, q.aeadChunkSizeBytes)
    ensures LengthsMatch(q, |data|, limit, call) <==> |data| == q.payloadPlaintextBytes
  {
    ChunksAndShortfall(data, limit, call, q.aeadChunkSizeBytes);
  }

  /**
   * With a reader that fills the buffer, none of the writer's three mismatch errors can fire, and a
   * lock whose superblock is valid and whose notice is short enough succeeds.
   */
  lemma PredictionsAreExact(prims: Primitives, q: LockRequest, nonces: nat -> Nonce, data: Bytes, limit: nat -> nat, call: nat)
    requires AppendsTag(prims.aead) && FitsU64(q) && |data| == q.payloadPlaintextBytes
    requires FillsBuffer(limit, q.aeadChunkSizeBytes)
    requires ReedSolomon.Supported(q.layout.dataShards, q.layout.parityShards)
    requires ReedSolomon.ErasureCode(prims.codec, q.layout.dataShards, q.layout.parityShards)
    ensures PlannedBody(q).Success?
    ensures var b := PlannedBody(q).value;
      var chunks := Terminated(ReadChunks(data, limit, call, q.aeadChunkSizeBytes));
      var stream := StreamFrom(SealingOf(prims, q, b, nonces), 0, chunks);
      && CheckStream(b, |data|, stream).Success? && StoreStream(prims, q, b, stream).Success?
      && (Validate(b).Success? && |NoticeOf(q)| <= MAX_NOTICE_BYTES && FitFrames(chunks) ==>
            LockArtifact(prims, q, nonces, chunks).Success?)
  {
    PlannedSizes(q);
    StreamLengthPrediction(prims, q, nonces, data, limit, call);
    FullReadsMatch(q, data, limit, call);
    hide PlannedBody, StreamFrom, BodyBytes, FitFrames, ReadChunks, ArtifactBytes, Validate, StoreStream;
    var b := PlannedBody(q).value;
    var stream := StreamFrom(SealingOf(prims, q, b, nonces), 0,
                             Terminated(ReadChunks(data, limit, call, q.aeadChunkSizeBytes)));
    RegionLengthPrediction(prims, q, stream);
  }
}

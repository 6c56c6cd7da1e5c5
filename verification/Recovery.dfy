// Recovering the payload of a parsed artifact with a file key, and verifying it with and without one.
module Recovery {
  import opened Base
  import opened Streams
  import opened ProtectedStream
  import opened StreamShape
  import PayloadRegion
  import opened SuperblockBody
  import opened Reader
  import opened Writer

  function LayoutOf(b: Body): PayloadRegion.Layout {
    PayloadRegion.Layout(b.fixed.rsDataShards, b.fixed.rsParityShards, b.fixed.rsShardBytes)
  }

  /** The protected stream of the recorded length, reconstructed from the payload slice. */
  function RecoveredStream(prims: Primitives, file: Bytes, a: Artifact): Result<Bytes> {
    var region :- PayloadBytes(file, a);
    PayloadRegion.ReconstructRegion(StorageOf(prims, LayoutOf(a.superblock)), region,
                                    a.superblock.fixed.protectedStreamLen)
  }

  function OpeningFor(prims: Primitives, b: Body, key: Key, digest: Key, cancelled: nat -> bool): Opening {
    Opening(prims.aead, key, digest, b.fixed.aeadChunkSizeBytes, b.fixed.payloadPlaintextBytes, cancelled)
  }

  /** Reconstruct, bind to the digest of the re-encoded superblock, decrypt. */
  function RecoverPayload(prims: Primitives, file: Bytes, a: Artifact, key: Key, cancelled: nat -> bool): Decryption {
    match RecoveredStream(prims, file, a)
    case Failure(e) => Decryption(Failure(e), [])
    case Success(stream) =>
      match SuperblockDigest(prims.blake3, a.superblock)
      case Failure(e) => Decryption(Failure(e), [])
      case Success(digest) => Decrypt(OpeningFor(prims, a.superblock, key, digest, cancelled), stream)
  }

  method RecoverStream(prims: Primitives, file: Bytes, a: Artifact) returns (r: Result<Bytes>)
    ensures r == RecoveredStream(prims, file, a)
  {
    var region :- PayloadBytes(file, a);
    r := PayloadRegion.ReconstructPayloadRegion(StorageOf(prims, LayoutOf(a.superblock)), region,
                                                a.superblock.fixed.protectedStreamLen);
  }

  method RecoverPayloadToWriter(prims: Primitives, file: Bytes, a: Artifact, key: Key, writer: ByteWriter,
                                cancelled: nat -> bool)
    returns (r: Result<ChunkStats>)
    modifies writer
    ensures r == RecoverPayload(prims, file, a, key, cancelled).result
    ensures writer.written == old(writer.written) + RecoverPayload(prims, file, a, key, cancelled).written
  {
    hide RecoveredStream, SuperblockDigest;
    var recovered := RecoverStream(prims, file, a);
    var stream :- recovered;
    var digest :- SuperblockDigest(prims.blake3, a.superblock);
    var cursor := new ByteReader(stream, i => |stream|);
    r := DecryptProtectedStream(cursor, writer, OpeningFor(prims, a.superblock, key, digest, cancelled));
  }

  /** A recovery that succeeds has counted what it has written, and that is as much as the superblock records. */
  lemma RecoveredIsCounted(prims: Primitives, file: Bytes, a: Artifact, key: Key, cancelled: nat -> bool)
    requires RecoverPayload(prims, file, a, key, cancelled).result.Success?
    ensures var d := RecoverPayload(prims, file, a, key, cancelled);
      |d.written| == d.result.value.plaintextBytes == a.superblock.fixed.payloadPlaintextBytes
  {
    hide RecoveredStream, SuperblockDigest;
    var digest := SuperblockDigest(prims.blake3, a.superblock).value;
    WrittenIsCounted(OpeningFor(prims, a.superblock, key, digest, cancelled), RecoveredStream(prims, file, a).value, 0, []);
  }

  // ---------------------------------------------------------------- verification

  /** Structure only: frames and recorded plaintext length. */
  function VerifyStructural(prims: Primitives, file: Bytes, a: Artifact, cancelled: bool): Result<ChunkStats> {
    if cancelled then Failure(Cancelled)
    else
      var stream :- RecoveredStream(prims, file, a);
      var stats :- Scan(a.superblock.fixed.aeadChunkSizeBytes, stream);
      if stats.plaintextBytes != a.superblock.fixed.payloadPlaintextBytes then Failure(Verification)
      else Success(stats)
  }

  /** Structure first, then a full decryption into nothing. */
  function VerifyWithKey(prims: Primitives, file: Bytes, a: Artifact, key: Key, cancelledFirst: bool,
                         cancelled: nat -> bool): Result<ChunkStats>
  {
    var _ :- VerifyStructural(prims, file, a, cancelledFirst);
    RecoverPayload(prims, file, a, key, cancelled).result
  }

  /**
   * Exactly what structural verification accepts: a payload region whose stream can be reconstructed and is
   * a stream of the format with these counts, as long as the superblock records.
   */
  lemma StructuralExactly(prims: Primitives, file: Bytes, a: Artifact, stats: ChunkStats)
    ensures VerifyStructural(prims, file, a, false) == Success(stats) <==>
      && RecoveredStream(prims, file, a).Success?
      && (exists pieces ::
            IsStream(RecoveredStream(prims, file, a).value, pieces, a.superblock.fixed.aeadChunkSizeBytes, stats))
      && stats.plaintextBytes == a.superblock.fixed.payloadPlaintextBytes
    ensures VerifyStructural(prims, file, a, true) == Failure(Cancelled)
  {
    hide RecoveredStream, Scan, IsStream;
    if RecoveredStream(prims, file, a).Success? {
      var stream := RecoveredStream(prims, file, a).value;
      ScanExactly(a.superblock.fixed.aeadChunkSizeBytes, stream, stats);
    }
  }

  /**
   * The structural verification refines the keyed one: what decrypts is structurally sound with the same
   * counts, so keyed verification accepts exactly what unlocking accepts and its internal chunk count
   * comparison always holds.
   */
  lemma VerificationAgrees(prims: Primitives, file: Bytes, a: Artifact, key: Key, cancelled: nat -> bool)
    ensures var recovered := RecoverPayload(prims, file, a, key, cancelled).result;
      && (recovered.Success? ==> VerifyStructural(prims, file, a, false) == recovered)
      && (VerifyWithKey(prims, file, a, key, false, cancelled).Success? <==> recovered.Success?)
      && (recovered.Success? ==> VerifyWithKey(prims, file, a, key, false, cancelled) == recovered)
  {
    var stream := RecoveredStream(prims, file, a);
    var digest := SuperblockDigest(prims.blake3, a.superblock);
    if stream.Success? && digest.Success? {
      var o := OpeningFor(prims, a.superblock, key, digest.value, cancelled);
      ScanRefinesDecrypt(o, stream.value);
      if Decrypt(o, stream.value).result.Success? {
        WrittenIsCounted(o, stream.value, 0, []);
      }
    }
  }

  /**
   * What keyed verification reports: whatever is structurally wrong, as structural verification does; and for
   * a sound structure its counts, or that it was cancelled or failed authentication, and nothing else.
   */
  lemma KeyedVerificationReports(prims: Primitives, file: Bytes, a: Artifact, key: Key, cancelledFirst: bool,
                                 cancelled: nat -> bool)
    requires SuperblockDigest(prims.blake3, a.superblock).Success? && StripsTag(prims.aead)
    ensures var structural := VerifyStructural(prims, file, a, cancelledFirst);
      var keyed := VerifyWithKey(prims, file, a, key, cancelledFirst, cancelled);
      && (structural.Failure? ==> keyed == structural)
      && (structural.Success? ==> keyed == structural || keyed == Failure(Cancelled) ||
                                  keyed == Failure(Crypto(PayloadAuthentication)))
  {
    hide RecoveredStream, SuperblockDigest, Scan, Decrypt;
    if VerifyStructural(prims, file, a, cancelledFirst).Success? {
      var stream, digest := RecoveredStream(prims, file, a).value, SuperblockDigest(prims.blake3, a.superblock).value;
      ScanRefinesDecrypt(OpeningFor(prims, a.superblock, key, digest, cancelled), stream);
    }
  }
}

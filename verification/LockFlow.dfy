// The lock flow from draws to artifact: passphrase check, puzzle, key wrapping, sizing, writing.
module LockFlow {
  import opened Base
  import opened Streams
  import opened ChunkFrame
  import opened ProtectedStream
  import PayloadRegion
  import opened PasswordProtection
  import opened Utf8
  import opened SuperblockBody
  import opened Notice
  import opened TimelockPuzzle
  import opened Writer

  const DEFAULT_LOCK_CHUNK_SIZE_BYTES := 1_048_576
  const DEFAULT_RS_PARITY_SHARDS := 2
  const DEFAULT_PASSWORD_SALT_LEN := 32
  const DEFAULT_ARGON2ID_MEMORY_KIB := 65_536
  const DEFAULT_ARGON2ID_ITERATIONS := 3
  const DEFAULT_ARGON2ID_PARALLELISM := 1

  /** What is asked for: how much plaintext is staged, under which name, for how long, behind which passphrase. */
  datatype LockOptions = LockOptions(
    plaintextBytes: u64, originalFilename: Option<Bytes>, password: Option<Bytes>,
    iterations: u64, modulusBits: nat, hardwareProfile: Bytes, targetSeconds: Option<u64>)

  /** What is drawn at random, and the clock. */
  datatype Draws = Draws(p: nat, q: nat, a: nat, key: Key, salt: Bytes, nonces: nat -> Nonce, now: u64) {
    /** The prime and base searches deliver what they search for, and the salt has its length. */
    ghost predicate Sound() { PuzzleInputs(p, q, a) && |salt| == DEFAULT_PASSWORD_SALT_LEN }
  }

  function DefaultParams(salt: Bytes): PasswordParams {
    PasswordParams(DEFAULT_ARGON2ID_MEMORY_KIB, DEFAULT_ARGON2ID_ITERATIONS, DEFAULT_ARGON2ID_PARALLELISM, salt)
  }

  function DefaultLayout(protectedStreamLen: u64): PayloadRegion.Layout {
    PayloadRegion.Layout(DEFAULT_RS_DATA_SHARDS, DEFAULT_RS_PARITY_SHARDS, ChooseShardBytes(protectedStreamLen))
  }

  /** The request handed to the writer. */
  function PlanLock(prims: Primitives, options: LockOptions, d: Draws): Result<LockRequest>
    requires d.p >= 2 && d.q >= 2
  {
    if options.password == Some([]) then Failure(InvalidArgument)
    else
      var puzzle :- CreatePuzzle(prims.blake3, d.p, d.q, d.a, options.iterations, options.modulusBits);
      var protection :- KeyProtectionMaterial(prims.kdf, d.key, puzzle.solutionMask, options.password, DefaultParams(d.salt));
      var streamLen :- PredictedProtectedStreamLen(options.plaintextBytes, DEFAULT_LOCK_CHUNK_SIZE_BYTES);
      Success(LockRequest(
        None, options.originalFilename, options.iterations, puzzle.modulusBits, options.hardwareProfile,
        options.targetSeconds, d.now, options.plaintextBytes, DEFAULT_LOCK_CHUNK_SIZE_BYTES,
        DefaultLayout(streamLen), d.key,
        TimelockMaterial(puzzle.modulusN, puzzle.baseA, protection.0), protection.1))
  }

  /** Plans and writes; whatever fails, nothing is written. */
  method WritePayloadArtifacts(prims: Primitives, writer: ByteWriter, staged: ByteReader, options: LockOptions, d: Draws,
                               startCancelled: bool, cancelled: nat -> bool)
    returns (r: Result<()>)
    requires staged.Valid() && AppendsTag(prims.aead) && d.p >= 2 && d.q >= 2
    modifies writer, staged
    ensures r.Failure? ==> writer.written == old(writer.written)
    ensures startCancelled ==> r == Failure(Cancelled)
    ensures !startCancelled ==>
      var plan := PlanLock(prims, options, d);
      var chunks := Terminated(ReadChunks(old(staged.Remaining()), staged.limit, old(staged.calls),
                                          DEFAULT_LOCK_CHUNK_SIZE_BYTES));
      && (plan.Failure? ==> r == Failure(plan.error))
      && (plan.Success? ==>
            var artifact := LockArtifact(prims, plan.value, d.nonces, chunks);
            && (r.Success? ==> artifact.Success? && writer.written == old(writer.written) + artifact.value)
            && (r.Failure? ==> artifact == Failure(r.error) || (r.error == Cancelled && exists i :: cancelled(i)))
            && (r.Success? && old(staged.Remaining()) != [] ==> forall i :: 0 <= i <= |chunks| ==> !cancelled(i)))
  {
    hide LockArtifact, ReadChunks, CreatePuzzle, KeyProtectionMaterial;
    if startCancelled {
      return Failure(Cancelled);
    }
    var plan :- PlanLock(prims, options, d);
    r := WriteTimelockedArtifact(prims, writer, staged, plan, d.nonces, cancelled);
  }

  /** A plan is a superblock that validates, with the version that goes with its passphrase. */
  lemma PlanIsValid(prims: Primitives, options: LockOptions, d: Draws)
    requires d.Sound() && PlanLock(prims, options, d).Success?
    ensures var q := PlanLock(prims, options, d).value;
      && PlannedBody(q).Success? && Validate(PlannedBody(q).value).Success?
      && (q.password.Some? <==> options.password.Some?)
      && (PlannedBody(q).value.fixed.bodyVersion == if options.password.Some? then BODY_VERSION_V2 else BODY_VERSION_V1)
  {
    hide CreatePuzzle;
    var puzzle := CreatePuzzle(prims.blake3, d.p, d.q, d.a, options.iterations, options.modulusBits).value;
    SolverMatchesCreator(prims.blake3, d.p, d.q, d.a, options.iterations, options.modulusBits, d.key);
    KeyIsRecovered(prims.kdf, d.key, puzzle.solutionMask, options.password, DefaultParams(d.salt));
  }

  /**
   * Exactly which locks can be planned: a passphrase is not empty and its derivation succeeds, and the
   * puzzle has iterations and an even modulus size of at least 2048 bits. The plan has the puzzle that was
   * drawn, the key and the clock, Argon2id with 64 MiB, 3 passes and 1 lane on the salt drawn, chunks of
   * 1 MiB and stripes of 4 + 2 shards.
   */
  lemma PlannedExactly(prims: Primitives, options: LockOptions, d: Draws)
    requires d.Sound()
    ensures var plan, puzzle := PlanLock(prims, options, d),
                                CreatePuzzle(prims.blake3, d.p, d.q, d.a, options.iterations, options.modulusBits);
      var params := PasswordParams(65_536, 3, 1, d.salt);
      && (puzzle.Success? <==> options.iterations > 0 && options.modulusBits >= 2048 && options.modulusBits % 2 == 0)
      && (plan.Success? <==>
            puzzle.Success? &&
            (options.password.Some? ==>
              options.password.value != [] &&
              prims.kdf(params, Ascii("TLCK-PASSWORD-WRAP-v1") + puzzle.value.solutionMask + options.password.value).Success?))
      && (plan.Success? ==>
            var q := plan.value;
            && q.material.modulusN == d.p * d.q && q.material.baseA == d.a && q.iterations == options.iterations
            && q.key == d.key && q.createdAtUnixSeconds == d.now && q.notice == None
            && q.password == (if options.password.None? then None
                              else Some(PasswordMetadata(TimelockPlusArgon2idV1, Argon2id, params)))
            && q.aeadChunkSizeBytes == 1_048_576 && q.layout.dataShards == 4 && q.layout.parityShards == 2)
  {
    var puzzle := CreatePuzzle(prims.blake3, d.p, d.q, d.a, options.iterations, options.modulusBits);
    if puzzle.Success? && options.password.Some? {
      DerivationInput(prims.kdf, DefaultParams(d.salt), puzzle.value.solutionMask, options.password.value);
    }
    if puzzle.Success? {
      SolverMatchesCreator(prims.blake3, d.p, d.q, d.a, options.iterations, options.modulusBits, d.key);
    }
    hide DeriveWrapKey, DeriveKeyMask, ModPow, ChooseShardBytes, Ascii, ChunksFor;
  }

  lemma PlanSizes(prims: Primitives, options: LockOptions, d: Draws)
    requires d.p >= 2 && d.q >= 2 && PlanLock(prims, options, d).Success?
    ensures var q := PlanLock(prims, options, d).value;
      && q.payloadPlaintextBytes == options.plaintextBytes && q.aeadChunkSizeBytes == DEFAULT_LOCK_CHUNK_SIZE_BYTES
      && q.layout == DefaultLayout(Wrap64(StreamBytesFor(q))) && q.notice == None && q.key == d.key
  {
    hide CreatePuzzle, KeyProtectionMaterial, ChooseShardBytes;
  }

  /** The superblock planned says what was asked for. */
  ghost predicate SaysWhatWasAsked(b: Body, options: LockOptions, now: u64) {
    && b.hardwareProfile == options.hardwareProfile && b.fixed.targetSeconds == options.targetSeconds
    && b.fixed.iterations == options.iterations && b.fixed.modulusBits == options.modulusBits % 0x1_0000
    && b.fixed.createdAtUnixSeconds == now && b.fixed.payloadPlaintextBytes == options.plaintextBytes
  }

  lemma PlannedMetadata(prims: Primitives, options: LockOptions, d: Draws)
    requires d.Sound() && PlanLock(prims, options, d).Success?
    requires PlannedBody(PlanLock(prims, options, d).value).Success?
    ensures var b := PlannedBody(PlanLock(prims, options, d).value).value;
      SaysWhatWasAsked(b, options, d.now) && b.originalFilename == options.originalFilename
  {
    SolverMatchesCreator(prims.blake3, d.p, d.q, d.a, options.iterations, options.modulusBits, d.key);
    hide KeyProtectionMaterial, ChooseShardBytes, PayloadRegion.EncodedPayloadRegionLen, ChunksFor;
  }

  lemma DefaultNotice()
    ensures var notice := Ascii(DEFAULT_NOTICE); |notice| <= MAX_NOTICE_BYTES && ValidUtf8(notice)
  {
    AsciiIsUtf8(Ascii(DEFAULT_NOTICE));
  }
}

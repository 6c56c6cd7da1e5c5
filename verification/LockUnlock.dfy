// Lock followed by unlock, whatever happens to the file and whatever is typed in between.
module LockUnlock {
  import opened Base
  import opened ChunkFrame
  import opened ProtectedStream
  import ReedSolomon
  import PayloadRegion
  import opened PasswordProtection
  import opened Utf8
  import opened SuperblockBody
  import opened Notice
  import opened Reader
  import opened TimelockPuzzle
  import opened Writer
  import opened Recovery
  import opened EndToEnd
  import opened LockFlow
  import opened OutputPath
  import opened Unlock
  import PromptProtocol

  /** A finished lock that the lock flow planned. */
  ghost predicate LockedBy(k: Lock, options: LockOptions, d: Draws) {
    && d.Sound() && PlanLock(k.prims, options, d) == Success(k.request) && k.nonces == d.nonces && Finished(k)
  }

  // ---------------------------------------------------------------- every file locks

  lemma StreamBound(n: nat)
    requires n < 0x8000_0000_0000_0000
    ensures n + ChunksFor(n, DEFAULT_LOCK_CHUNK_SIZE_BYTES) * CHUNK_OVERHEAD < 0x8002_0000_0000_0000
  {
  }

  lemma RegionBound(n: nat, l: PayloadRegion.Layout)
    requires n < 0x8002_0000_0000_0000 && l == DefaultLayout(n)
    ensures l.Valid() && PayloadRegion.EncodedPayloadRegionLen(n, l).value <= 0xD000_0000_0000_0000
  {
    AdaptiveShardBytes(n);
    assert n >= DEFAULT_RS_SHARD_BYTES ==> ChooseShardBytes(n) == DEFAULT_RS_SHARD_BYTES;
    hide ChooseShardBytes, PowerOfTwo;
  }

  /** Every file shorter than 2^63 bytes has a stream and a region whose lengths fit u64. */
  lemma DefaultsFit(q: LockRequest)
    requires q.payloadPlaintextBytes < 0x8000_0000_0000_0000 && q.aeadChunkSizeBytes == DEFAULT_LOCK_CHUNK_SIZE_BYTES
    requires q.layout == DefaultLayout(Wrap64(StreamBytesFor(q)))
    ensures FitsU64(q) && StreamBytesFor(q) < 0x8002_0000_0000_0000
    ensures PayloadRegion.EncodedPayloadRegionLen(StreamBytesFor(q), q.layout).value <= 0xD000_0000_0000_0000
  {
    StreamBound(q.payloadPlaintextBytes);
    var n := StreamBytesFor(q);
    assert Wrap64(n) == n;
    RegionBound(n, q.layout);
    assert PayloadRegion.EncodedPayloadRegionLen(n, q.layout).Success?;
    hide DefaultLayout, StreamBytesFor, PayloadRegion.EncodedPayloadRegionLen;
  }

  /** The size of a lock: its region, two superblock copies and the notice. */
  lemma LockSize(prims: Primitives, q: LockRequest, nonces: nat -> Nonce, chunks: seq<Bytes>)
    requires LockArtifact(prims, q, nonces, chunks).Success?
    ensures PlannedBody(q).Success?
    ensures |LockArtifact(prims, q, nonces, chunks).value|
         == 6 + |NoticeOf(q)| + PlannedBody(q).value.fixed.payloadRegionLen + 2 * (12 + |BodyBytes(PlannedBody(q).value)|)
  {
    hide PlannedBody, Validate, FitFrames, StreamFrom, BodyBytes, PayloadRegion.EncodeRegion;
  }

  /**
   * Locking succeeds: every staged file shorter than 2^63 bytes becomes a finished lock, provided its
   * superblock can be stored and its reads together stay below the buffer by less than one chunk.
   */
  lemma EveryFileLocks(prims: Primitives, options: LockOptions, d: Draws, data: Bytes, limit: nat -> nat, call: nat)
    returns (k: Lock)
    requires d.Sound() && PlanLock(prims, options, d).Success?
    requires |data| == options.plaintextBytes < 0x8000_0000_0000_0000
    requires AppendsTag(prims.aead)
    requires Shortfall(|data|, limit, call, DEFAULT_LOCK_CHUNK_SIZE_BYTES) < DEFAULT_LOCK_CHUNK_SIZE_BYTES
    requires ReedSolomon.ErasureCode(prims.codec, DEFAULT_RS_DATA_SHARDS, DEFAULT_RS_PARITY_SHARDS)
    requires PlannedBody(PlanLock(prims, options, d).value).Success?
    requires var b := PlannedBody(PlanLock(prims, options, d).value).value;
      HoldsText(b) && Storable(Normalized(b))
    ensures LockedBy(k, options, d) && k.prims == prims && k.Plaintext() == data
    ensures k.chunks == Terminated(ReadChunks(data, limit, call, DEFAULT_LOCK_CHUNK_SIZE_BYTES))
  {
    PlanIsValid(prims, options, d);
    var q := PlanLock(prims, options, d).value;
    PlanSizes(prims, options, d);
    k := PlannedLocks(prims, q, d.nonces, data, limit, call);
  }

  lemma Finish(k: Lock)
    requires LockArtifact(k.prims, k.request, k.nonces, k.chunks) == Success(k.file)
    requires k.chunks != [] && WellSized(k.chunks, k.request.aeadChunkSizeBytes)
    requires |k.chunks| <= 0x1_0000_0000_0000_0000 && |k.file| <= MAX_U64
    requires HoldsText(k.Planned()) && Storable(Normalized(k.Planned())) && ValidUtf8(NoticeOf(k.request))
    ensures Finished(k)
  {
  }

  lemma PlannedLocks(prims: Primitives, q: LockRequest, nonces: nat -> Nonce, data: Bytes, limit: nat -> nat, call: nat)
    returns (k: Lock)
    requires |data| == q.payloadPlaintextBytes < 0x8000_0000_0000_0000 && q.notice == None
    requires q.aeadChunkSizeBytes == DEFAULT_LOCK_CHUNK_SIZE_BYTES && q.layout == DefaultLayout(Wrap64(StreamBytesFor(q)))
    requires AppendsTag(prims.aead)
    requires Shortfall(|data|, limit, call, DEFAULT_LOCK_CHUNK_SIZE_BYTES) < DEFAULT_LOCK_CHUNK_SIZE_BYTES
    requires ReedSolomon.ErasureCode(prims.codec, DEFAULT_RS_DATA_SHARDS, DEFAULT_RS_PARITY_SHARDS)
    requires PlannedBody(q).Success?
    requires var b := PlannedBody(q).value;
      Validate(b).Success? && HoldsText(b) && Storable(Normalized(b))
    ensures k.prims == prims && k.request == q && k.nonces == nonces && Finished(k) && k.Plaintext() == data
    ensures k.chunks == Terminated(ReadChunks(data, limit, call, DEFAULT_LOCK_CHUNK_SIZE_BYTES))
  {
    hide PlannedBody, LockArtifact, Storable, HoldsText, Validate, StreamFrom, FitsU64, BodyBytes, ChooseShardBytes, ReadChunks,
         ReedSolomon.ErasureCode, PayloadRegion.EncodedPayloadRegionLen, AppendsTag, StreamBytesFor, Shortfall,
         FitFrames, WellSized, Ascii, Concat, ValidUtf8, Finished;
    var chunks := Terminated(ReadChunks(data, limit, call, DEFAULT_LOCK_CHUNK_SIZE_BYTES));
    DefaultsFit(q);
    DefaultNotice();
    ReadChunksSound(data, limit, call, DEFAULT_LOCK_CHUNK_SIZE_BYTES);
    SmallChunksFit(chunks, DEFAULT_LOCK_CHUNK_SIZE_BYTES);
    LockSucceedsExactly(prims, q, nonces, data, limit, call);
    ChunksBelow(data, limit, call);
    PlannedSizes(q);
    StoredBodyFits(prims, PlannedBody(q).value);
    LockSize(prims, q, nonces, chunks);
    k := Lock(prims, q, nonces, chunks, LockArtifact(prims, q, nonces, chunks).value);
    Finish(k);
  }

  lemma SmallChunksFit(chunks: seq<Bytes>, size: nat)
    requires WellSized(chunks, size) && size + AEAD_TAG_BYTES < 0x1_0000_0000
    ensures FitFrames(chunks)
  {
  }

  lemma ChunksBelow(data: Bytes, limit: nat -> nat, call: nat)
    ensures |Terminated(ReadChunks(data, limit, call, DEFAULT_LOCK_CHUNK_SIZE_BYTES))| <= |data| + 1
  {
    hide ReadChunks;
    AtMostOnePerByte(data, limit, call, DEFAULT_LOCK_CHUNK_SIZE_BYTES);
  }

  lemma StoredBodyFits(prims: Primitives, b: Body)
    requires Validate(b).Success? && HoldsText(b) && Storable(Normalized(b))
    ensures |BodyBytes(b)| <= MAX_BODY_BYTES
  {
    DigestSurvivesStorage(prims.blake3, b);
  }

  // ---------------------------------------------------------------- the key comes back

  function RightAnswer(options: LockOptions): Bytes {
    if options.password.Some? then options.password.value else []
  }

  /** The mask solved from the stored puzzle, with the passphrase of the lock, recovers the file key. */
  lemma LockedKeyIsRecovered(k: Lock, options: LockOptions, d: Draws)
    requires LockedBy(k, options, d)
    ensures var b := Normalized(k.Planned());
      && PuzzleOf(b).modulusN > 0 && (b.password.Some? <==> options.password.Some?)
      && RecoverKey(k.prims.kdf, b.material.wrappedKey, b.password, SolutionMask(k.prims.blake3, PuzzleOf(b)),
                    RightAnswer(options)) == Success(k.request.key)
  {
    var wrapped := Normalized(k.Planned()).material.wrappedKey;
    hide CreatePuzzle, RecoverKey, Finished, SolutionMask, KeyProtectionMaterial, ChooseShardBytes;
    var puzzle := CreatePuzzle(k.prims.blake3, d.p, d.q, d.a, options.iterations, options.modulusBits).value;
    KeyIsRecovered(k.prims.kdf, d.key, puzzle.solutionMask, options.password, DefaultParams(d.salt));
    SolverMatchesCreator(k.prims.blake3, d.p, d.q, d.a, options.iterations, options.modulusBits,
                         wrapped);
  }

  /** And exactly which passphrases do: those from which the derivation gives the same as from that of the lock. */
  lemma LockedKeyExactly(k: Lock, options: LockOptions, d: Draws, passphrase: Bytes)
    requires LockedBy(k, options, d) && options.password.Some?
    ensures var b := Normalized(k.Planned());
      && PuzzleOf(b).modulusN > 0 && b.password.Some?
      && var mask := SolutionMask(k.prims.blake3, PuzzleOf(b));
      var recovered := RecoverKey(k.prims.kdf, b.material.wrappedKey, b.password, mask, passphrase);
      var derived := Derived(k.prims.kdf, b.password.value.params, mask, passphrase);
      && (recovered.Success? <==> derived.Success?)
      && (recovered == Success(k.request.key) <==>
            derived == Derived(k.prims.kdf, b.password.value.params, mask, options.password.value))
  {
    var wrapped := Normalized(k.Planned()).material.wrappedKey;
    hide CreatePuzzle, RecoverKey, Finished, SolutionMask, KeyProtectionMaterial, ChooseShardBytes;
    var puzzle := CreatePuzzle(k.prims.blake3, d.p, d.q, d.a, options.iterations, options.modulusBits).value;
    KeyIsRecovered(k.prims.kdf, d.key, puzzle.solutionMask, options.password, DefaultParams(d.salt));
    RecoversExactly(k.prims.kdf, d.key, puzzle.solutionMask, options.password.value, DefaultParams(d.salt),
                    puzzle.solutionMask, passphrase);
    SolverMatchesCreator(k.prims.blake3, d.p, d.q, d.a, options.iterations, options.modulusBits, wrapped);
  }

  /** What Argon2id gives for the domain, a mask and a passphrase. */
  function Derived(kdf: Kdf, params: PasswordParams, mask: Key, passphrase: Bytes): Result<Key> {
    kdf(params, Ascii("TLCK-PASSWORD-WRAP-v1") + mask + passphrase)
  }

  // ---------------------------------------------------------------- unlocking a damaged file

  /** A lock, what has been sealed with the cipher so far, and a file that is survivable damage to the lock. */
  ghost predicate Damaged(k: Lock, log: set<Sealed>, region: Bytes, s: Bytes) {
    && Finished(k) && |s| <= MAX_U64
    && PayloadRegion.EncodeRegion(k.Storage(), k.Stream()) == Success(region) && Survivable(k, region, s)
    && ReedSolomon.ErasureCode(k.prims.codec, k.request.layout.dataShards, k.request.layout.parityShards)
    && AppendsTag(k.prims.aead) && Ideal(k.prims.aead, log) && Sealings(k.Seal(), 0, k.chunks) <= log
  }

  /** An unlock run over that file: same primitives, nothing cancelled. */
  ghost predicate Undisturbed(k: Lock, s: Bytes, run: Run, o: Opened, token: Token) {
    && run.prims == k.prims && o.file == s && ReadArtifact(k.prims.crc, s) == Success(o.artifact)
    && (forall t :: !token(t)) && (forall i, j :: !run.decryptCancelled(i)(j)) && (forall i :: !run.persistCancelled(i))
  }

  /** A payload without a filename is a message, and a message is delivered only if it is text. */
  ghost function Expected(k: Lock, message: bool): Result<Delivery> {
    if message && !IsText(k.Plaintext()) then Failure(InvalidFormat)
    else Success(Delivery(k.Plaintext(), |k.Plaintext()|))
  }

  lemma ExpectedIsFinal(k: Lock, message: bool)
    ensures !IsAuthenticationError(Expected(k, message))
  {
  }

  /** What the one who locks can see beforehand: no filename, or an empty one. */
  predicate IsMessage(options: LockOptions) {
    options.originalFilename == None || options.originalFilename == Some([])
  }

  lemma DeliversThePlaintext(k: Lock, log: set<Sealed>, region: Bytes, s: Bytes, run: Run, o: Opened, token: Token,
                             attempt: nat)
    requires Damaged(k, log, region, s) && Undisturbed(k, s, run, o, token)
    ensures Deliver(run, s, o.artifact, attempt, k.request.key)
         == Expected(k, o.artifact.superblock.originalFilename.None?)
  {
    UnlocksToTheOriginal(k, log, region, s, run.decryptCancelled(attempt));
    TextExactly(k.Plaintext());
    hide RecoverPayload, ValidUtf8, IsText, Finished, Survivable, Ideal, AppendsTag, Sealings, ReedSolomon.ErasureCode, ReadArtifact;
  }

  lemma OtherKeysAreRefused(k: Lock, log: set<Sealed>, region: Bytes, s: Bytes, run: Run, o: Opened, token: Token,
                            attempt: nat, key: Key)
    requires Damaged(k, log, region, s) && Undisturbed(k, s, run, o, token)
    requires forall e :: e in log ==> e.key != key
    ensures Deliver(run, s, o.artifact, attempt, key) == Failure(Crypto(PayloadAuthentication))
  {
    OtherKeysFailAuthentication(k, log, region, s, key, run.decryptCancelled(attempt));
    hide RecoverPayload, ValidUtf8, Finished, Survivable, Ideal, AppendsTag, Sealings, ReedSolomon.ErasureCode, ReadArtifact;
  }

  lemma DamagedParses(k: Lock, log: set<Sealed>, region: Bytes, s: Bytes, run: Run, o: Opened, token: Token)
    requires Damaged(k, log, region, s) && Undisturbed(k, s, run, o, token)
    ensures o.artifact.superblock == Normalized(k.Planned())
  {
    var _ := SurvivorParses(k, region, s);
  }

  /** Everything that was asked for at lock time is read back at unlock time; a filename of no characters is none. */
  lemma MetadataComesBack(k: Lock, options: LockOptions, d: Draws, log: set<Sealed>, region: Bytes, s: Bytes,
                          run: Run, o: Opened, token: Token)
    requires LockedBy(k, options, d) && Damaged(k, log, region, s) && Undisturbed(k, s, run, o, token)
    ensures var b := o.artifact.superblock;
      && b.originalFilename == (if options.originalFilename == Some([]) then None else options.originalFilename)
      && SaysWhatWasAsked(b, options, d.now) && options.plaintextBytes == |k.Plaintext()|
  {
    hide Finished, Survivable, Ideal, AppendsTag, Sealings, ReedSolomon.ErasureCode, PayloadRegion.EncodeRegion, PlanLock,
         PlannedBody;
    FinishedIsPlanned(k);
    DamagedParses(k, log, region, s, run, o, token);
    PlannedMetadata(k.prims, options, d);
    var _ := FinishedParts(k);
  }

  /** The key an answer leads to. */
  function KeyFrom(prims: Primitives, b: Body, mask: Key, answer: Result<Bytes>): Result<Key> {
    var passphrase :- answer;
    RecoverKey(prims.kdf, b.material.wrappedKey, b.password, mask, passphrase)
  }

  /** A wrong passphrase: it leads to a key under which nothing has been sealed. */
  ghost predicate Wrong(prims: Primitives, b: Body, mask: Key, log: set<Sealed>, answer: Result<Bytes>) {
    var key := KeyFrom(prims, b, mask, answer);
    key.Success? && forall e :: e in log ==> e.key != key.value
  }

  lemma AttemptUsesKey(run: Run, o: Opened, mask: Key, answer: nat -> Result<Bytes>, attempt: nat, key: Key)
    requires o.artifact.superblock.password.Some?
    requires KeyFrom(run.prims, o.artifact.superblock, mask, answer(attempt)) == Success(key)
    ensures Attempt(run, o.file, o.artifact, o.artifact.superblock.password.value, mask, answer, attempt)
         == Deliver(run, o.file, o.artifact, attempt, key)
  {
    hide Deliver, DeriveWrapKey;
  }

  /** A wrong answer fails authentication. */
  lemma WrongAnswerFails(k: Lock, log: set<Sealed>, region: Bytes, s: Bytes, run: Run, o: Opened, token: Token,
                         mask: Key, answer: nat -> Result<Bytes>, attempt: nat)
    requires Damaged(k, log, region, s) && Undisturbed(k, s, run, o, token)
    requires o.artifact.superblock.password.Some?
    requires Wrong(k.prims, o.artifact.superblock, mask, log, answer(attempt))
    ensures Attempt(run, s, o.artifact, o.artifact.superblock.password.value, mask, answer, attempt)
         == Failure(Crypto(PayloadAuthentication))
  {
    hide Deliver, Damaged, Attempt, KeyFrom;
    var key := KeyFrom(k.prims, o.artifact.superblock, mask, answer(attempt)).value;
    OtherKeysAreRefused(k, log, region, s, run, o, token, attempt, key);
    AttemptUsesKey(run, o, mask, answer, attempt, key);
  }

  lemma RightAnswerDelivers(k: Lock, log: set<Sealed>, region: Bytes, s: Bytes, run: Run, o: Opened, token: Token,
                            mask: Key, answer: nat -> Result<Bytes>, attempt: nat)
    requires Damaged(k, log, region, s) && Undisturbed(k, s, run, o, token)
    requires o.artifact.superblock.password.Some?
    requires KeyFrom(k.prims, o.artifact.superblock, mask, answer(attempt)) == Success(k.request.key)
    ensures Attempt(run, s, o.artifact, o.artifact.superblock.password.value, mask, answer, attempt)
         == Expected(k, o.artifact.superblock.originalFilename.None?)
  {
    hide Deliver, Damaged, Attempt, KeyFrom, Expected;
    DeliversThePlaintext(k, log, region, s, run, o, token, attempt);
    AttemptUsesKey(run, o, mask, answer, attempt, k.request.key);
  }

  /** The right passphrase is among the first three answers, and every answer before it is a wrong one. */
  ghost predicate AnsweredAt(k: Lock, options: LockOptions, o: Opened, log: set<Sealed>, answer: nat -> Result<Bytes>,
                             right: nat)
    requires PuzzleOf(o.artifact.superblock).modulusN > 0
  {
    var b := o.artifact.superblock;
    var mask := SolutionMask(k.prims.blake3, PuzzleOf(b));
    && 1 <= right <= 3 && answer(right) == Success(RightAnswer(options))
    && forall j :: 1 <= j < right ==> Wrong(k.prims, b, mask, log, answer(j))
  }

  lemma UnlockParts(k: Lock, options: LockOptions, d: Draws, log: set<Sealed>, region: Bytes, s: Bytes,
                    run: Run, o: Opened, token: Token) returns (mask: Key)
    requires LockedBy(k, options, d) && Damaged(k, log, region, s) && Undisturbed(k, s, run, o, token)
    ensures var b := o.artifact.superblock;
      && b == Normalized(k.Planned()) && PuzzleOf(b).modulusN > 0 && (b.password.Some? <==> options.password.Some?)
      && mask == SolutionMask(k.prims.blake3, PuzzleOf(b)) && Solved(run.prims.blake3, PuzzleOf(b), token) == Success(mask)
      && RecoverKey(k.prims.kdf, b.material.wrappedKey, b.password, mask, RightAnswer(options)) == Success(k.request.key)
  {
    hide SolutionMask, RecoverKey, RightAnswer, Finished, PlanLock, Survivable, Ideal, AppendsTag, Sealings,
         ReedSolomon.ErasureCode, PayloadRegion.EncodeRegion;
    FinishedIsPlanned(k);
    DamagedParses(k, log, region, s, run, o, token);
    LockedKeyIsRecovered(k, options, d);
    mask := SolutionMask(k.prims.blake3, PuzzleOf(o.artifact.superblock));
  }

  /**
   * The right passphrase at the `right`-th prompt delivers exactly the plaintext, after that many prompts,
   * unless the plaintext is a message that is not text, which is refused.
   */
  lemma UnlocksWithPassphrase(k: Lock, options: LockOptions, d: Draws, log: set<Sealed>, region: Bytes, s: Bytes,
                              run: Run, request: UnlockRequest, o: Opened, token: Token, answer: nat -> Result<Bytes>,
                              right: nat)
    requires LockedBy(k, options, d) && Damaged(k, log, region, s)
    requires Undisturbed(k, s, run, o, token) && o.artifact.superblock.material.modulusN > 0
    requires options.password.Some? && AnsweredAt(k, options, o, log, answer, right)
    ensures Outcome(run, o, token, Some(answer)) == Expected(k, IsMessage(options))
    ensures |Prompts(run, request, o, token, answer)| == right
  {
    hide LockedBy, Damaged, SolutionMask, Solved, Deliver, Attempt, AttemptsFrom, PromptsFrom, Expected, Wrong, Finished,
         PlannedBody, RecoverKey, SaysWhatWasAsked;
    var mask := UnlockParts(k, options, d, log, region, s, run, o, token);
    MetadataComesBack(k, options, d, log, region, s, run, o, token);
    ExpectedIsFinal(k, IsMessage(options));
    forall j | 1 <= j < right
      ensures IsAuthenticationError(Attempt(run, s, o.artifact, o.artifact.superblock.password.value, mask, answer, j))
    {
      WrongAnswerFails(k, log, region, s, run, o, token, mask, answer, j);
    }
    RightAnswerDelivers(k, log, region, s, run, o, token, mask, answer, right);
    FirstDecisiveAttempt(run, request.input, s, o.artifact, o.artifact.superblock.password.value, mask, answer, 1, right);
  }

  /**
   * Without a passphrase the mask alone delivers exactly the plaintext, and nobody is asked; again a
   * message that is not text is refused.
   */
  lemma UnlocksWithoutPassphrase(k: Lock, options: LockOptions, d: Draws, log: set<Sealed>, region: Bytes, s: Bytes,
                                 run: Run, request: UnlockRequest, o: Opened, token: Token, answer: nat -> Result<Bytes>)
    requires LockedBy(k, options, d) && Damaged(k, log, region, s)
    requires Undisturbed(k, s, run, o, token)
    requires o.artifact.superblock.material.modulusN > 0 && options.password.None?
    ensures Outcome(run, o, token, None) == Expected(k, IsMessage(options))
    ensures Outcome(run, o, token, Some(answer)) == Outcome(run, o, token, None)
    ensures Prompts(run, request, o, token, answer) == []
  {
    hide LockedBy, Damaged, SolutionMask, Solved, Deliver, AttemptsFrom, PromptsFrom, Expected, Finished, PlannedBody;
    var mask := UnlockParts(k, options, d, log, region, s, run, o, token);
    MetadataComesBack(k, options, d, log, region, s, run, o, token);
    DeliversThePlaintext(k, log, region, s, run, o, token, 1);
  }

  /**
   * So not every plaintext comes back: the single byte 0xFF, locked without a filename, say from standard
   * input, can never be unlocked, not even undamaged and with the right passphrase.
   */
  lemma BinaryMessageIsLost(k: Lock, options: LockOptions, d: Draws, log: set<Sealed>, region: Bytes, s: Bytes,
                            run: Run, request: UnlockRequest, o: Opened, token: Token, answer: nat -> Result<Bytes>)
    requires LockedBy(k, options, d) && Damaged(k, log, region, s) && Undisturbed(k, s, run, o, token)
    requires o.artifact.superblock.material.modulusN > 0
    requires k.Plaintext() == [0xFF] && options.originalFilename == None && options.password == None
    ensures Outcome(run, o, token, None) == Failure(InvalidFormat)
  {
    hide LockedBy, Damaged, Outcome;
    UnlocksWithoutPassphrase(k, options, d, log, region, s, run, request, o, token, answer);
    assert !ValidUtf8([0xFF]);
    TextExactly([0xFF]);
  }

  /** Three wrong answers end in failed authentication, after three prompts. */
  lemma WrongPassphrasesFail(k: Lock, options: LockOptions, d: Draws, log: set<Sealed>, region: Bytes, s: Bytes,
                             run: Run, request: UnlockRequest, o: Opened, token: Token, answer: nat -> Result<Bytes>)
    requires LockedBy(k, options, d) && Damaged(k, log, region, s) && Undisturbed(k, s, run, o, token)
    requires o.artifact.superblock.material.modulusN > 0 && options.password.Some?
    requires forall j :: 1 <= j <= 3 ==>
      Wrong(k.prims, o.artifact.superblock, SolutionMask(k.prims.blake3, PuzzleOf(o.artifact.superblock)), log, answer(j))
    ensures Outcome(run, o, token, Some(answer)) == Failure(Crypto(PayloadAuthentication))
    ensures |Prompts(run, request, o, token, answer)| == 3
  {
    hide LockedBy, Damaged, SolutionMask, Solved, Deliver, Attempt, AttemptsFrom, PromptsFrom, Wrong, Finished, PlannedBody,
         RecoverKey;
    var mask := UnlockParts(k, options, d, log, region, s, run, o, token);
    forall j | 1 <= j <= 3
      ensures IsAuthenticationError(Attempt(run, s, o.artifact, o.artifact.superblock.password.value, mask, answer, j))
    {
      WrongAnswerFails(k, log, region, s, run, o, token, mask, answer, j);
    }
    WrongAnswerFails(k, log, region, s, run, o, token, mask, answer, 3);
    FirstDecisiveAttempt(run, request.input, s, o.artifact, o.artifact.superblock.password.value, mask, answer, 1,
                         3);
  }

  /**
   * An answer is a passphrase for which the derivation succeeds and does not collide with the one for the
   * passphrase of the lock, nor leads to the key of another lock.
   */
  ghost predicate Distinguishable(k: Lock, options: LockOptions, b: Body, mask: Key, log: set<Sealed>, answer: Result<Bytes>)
    requires b.password.Some? && options.password.Some?
  {
    var params := b.password.value.params;
    && answer.Success? && Derived(k.prims.kdf, params, mask, answer.value).Success?
    && (Derived(k.prims.kdf, params, mask, answer.value) == Derived(k.prims.kdf, params, mask, options.password.value) ==>
          answer.value == options.password.value)
    && (forall e :: e in log && e.key != k.request.key ==> KeyFrom(k.prims, b, mask, answer) != Success(e.key))
  }

  /** Every other passphrase is wrong. */
  lemma OtherPassphraseIsWrong(k: Lock, options: LockOptions, d: Draws, b: Body, mask: Key, log: set<Sealed>,
                               answer: Result<Bytes>)
    requires LockedBy(k, options, d) && options.password.Some? && b == Normalized(k.Planned()) && b.password.Some?
    requires PuzzleOf(b).modulusN > 0 && mask == SolutionMask(k.prims.blake3, PuzzleOf(b))
    requires Distinguishable(k, options, b, mask, log, answer) && answer.value != options.password.value
    ensures Wrong(k.prims, b, mask, log, answer)
  {
    hide LockedBy, SolutionMask, RecoverKey, PlannedBody;
    LockedKeyExactly(k, options, d, answer.value);
  }

  /**
   * The passphrase decides, and nothing else: the first of three answers that is the passphrase of the lock
   * delivers the plaintext, after that many prompts; when none is, the unlock fails authentication.
   */
  lemma PassphraseDecides(k: Lock, options: LockOptions, d: Draws, log: set<Sealed>, region: Bytes, s: Bytes,
                          run: Run, request: UnlockRequest, o: Opened, token: Token, answer: nat -> Result<Bytes>,
                          right: nat)
    requires LockedBy(k, options, d) && Damaged(k, log, region, s) && Undisturbed(k, s, run, o, token)
    requires options.password.Some?
    requires o.artifact.superblock.material.modulusN > 0 && o.artifact.superblock.password.Some?
    requires 1 <= right <= 4
    requires forall j :: 1 <= j < right ==>
      && Distinguishable(k, options, o.artifact.superblock, SolutionMask(k.prims.blake3, PuzzleOf(o.artifact.superblock)), log, answer(j))
      && answer(j) != Success(options.password.value)
    requires right <= 3 ==> answer(right) == Success(options.password.value)
    ensures Outcome(run, o, token, Some(answer))
         == if right <= 3 then Expected(k, IsMessage(options)) else Failure(Crypto(PayloadAuthentication))
    ensures |Prompts(run, request, o, token, answer)| == Min(right, 3)
  {
    hide LockedBy, Damaged, SolutionMask, Distinguishable, Wrong, Outcome, Prompts, Undisturbed, Expected, PlannedBody;
    var b := o.artifact.superblock;
    var mask := UnlockParts(k, options, d, log, region, s, run, o, token);
    forall j | 1 <= j < right
      ensures Wrong(k.prims, b, mask, log, answer(j))
    {
      assert Distinguishable(k, options, b, mask, log, answer(j));
      DistinguishableAnswers(k, options, b, mask, log, answer(j));
      OtherPassphraseIsWrong(k, options, d, b, mask, log, answer(j));
    }
    if right <= 3 {
      UnlocksWithPassphrase(k, options, d, log, region, s, run, request, o, token, answer, right);
    } else {
      WrongPassphrasesFail(k, options, d, log, region, s, run, request, o, token, answer);
    }
  }

  lemma DistinguishableAnswers(k: Lock, options: LockOptions, b: Body, mask: Key, log: set<Sealed>, answer: Result<Bytes>)
    requires b.password.Some? && options.password.Some? && Distinguishable(k, options, b, mask, log, answer)
    ensures answer.Success?
  {
  }

  /**
   * What the caller of the unlock is answered for a locked file: a message is the text of the answer, a file
   * is at the path of the answer, where there was none, and either is exactly the plaintext.
   */
  lemma AnswerIsThePlaintext(k: Lock, options: LockOptions, d: Draws, log: set<Sealed>, region: Bytes, run: Run,
                             files: map<Path, Bytes>, request: UnlockRequest, o: Opened, token: Token,
                             answer: nat -> Result<Bytes>, right: nat, r: Result<Response>, after: map<Path, Bytes>)
    requires LockedBy(k, options, d) && Damaged(k, log, region, o.file) && Undisturbed(k, o.file, run, o, token)
    requires Prepare(run, files, request) == Success(o) && o.artifact.superblock.material.modulusN > 0
    requires options.password.Some? ==> AnsweredAt(k, options, o, log, answer, right)
    requires Reports(r, after, files, o.path, Outcome(run, o, token, Some(answer)))
    requires IsMessage(options) ==> IsText(k.Plaintext())
    ensures r.Success? && r.value.recoveredBytes == |k.Plaintext()|
    ensures r.value.RecoveredText? <==> IsMessage(options)
    ensures r.value.RecoveredText? ==> r.value.text == k.Plaintext() && after == files
    ensures r.value.RecoveredFile? ==> r.value.path !in files && after == files[r.value.path := k.Plaintext()]
  {
    hide LockedBy, Damaged, Undisturbed, AnsweredAt, Outcome, Prepare, IsText, Reports, Prompts, PlannedBody;
    if options.password.Some? {
      UnlocksWithPassphrase(k, options, d, log, region, o.file, run, request, o, token, answer, right);
    } else {
      UnlocksWithoutPassphrase(k, options, d, log, region, o.file, run, request, o, token, answer);
    }
    MetadataComesBack(k, options, d, log, region, o.file, run, o, token);
    ResponseIsTheDelivery(run, files, request, o, Delivery(k.Plaintext(), |k.Plaintext()|), r, after);
  }

  // ---------------------------------------------------------------- exact or explicit failure

  /** All that has been sealed are these finished locks, made with the same primitives, each under its own key. */
  ghost predicate KnownLocks(prims: Primitives, locks: seq<Lock>, log: set<Sealed>) {
    && Ideal(prims.aead, log)
    && (forall i :: 0 <= i < |locks| ==> KnownLock(prims, locks[i], log))
    && (forall e :: e in log ==> exists i :: 0 <= i < |locks| && locks[i].request.key == e.key)
  }

  ghost predicate KnownLock(prims: Primitives, k: Lock, log: set<Sealed>) {
    Finished(k) && k.prims == prims && OnlyStreamUnderKey(log, k.Seal(), k.chunks)
  }

  /** What is delivered is the plaintext of the lock, under its superblock, unless the hash collides. */
  ghost predicate IsPlaintextOf(k: Lock, a: Artifact, d: Delivery) {
    && d.content == k.Plaintext() && PlannedBody(k.request).Success?
    && SuperblockDigest(k.prims.blake3, a.superblock) == Success(k.prims.blake3(BodyBytes(k.Planned())))
    && (a.superblock == Normalized(k.Planned()) || exists x, y :: x != y && k.prims.blake3(x) == k.prims.blake3(y))
  }

  lemma DeliveredIsPlaintextOf(k: Lock, log: set<Sealed>, s: Bytes, run: Run, a: Artifact, attempt: nat)
    requires Ideal(run.prims.aead, log) && KnownLock(run.prims, k, log)
    requires ReadArtifact(run.prims.crc, s) == Success(a) && Deliver(run, s, a, attempt, k.request.key).Success?
    ensures IsPlaintextOf(k, a, Deliver(run, s, a, attempt, k.request.key).value)
  {
    hide RecoverPayload, ValidUtf8, Finished, Ideal, ReadArtifact, Sealings, StreamFrom, SuperblockDigest, PlannedBody;
    FinishedIsPlanned(k);
    FinishedBody(k);
    PlannedDigest(k);
    ExactOrFails(k, log, s, run.decryptCancelled(attempt));
    OriginalDigestOriginalSuperblock(k, s);
  }

  lemma PlannedDigest(k: Lock)
    requires Finished(k)
    ensures PlannedBody(k.request).Success? && k.Seal().digest == k.prims.blake3(BodyBytes(k.Planned()))
    ensures SuperblockDigest(k.prims.blake3, k.Planned()) == Success(k.Seal().digest)
  {
    var _ := FinishedParts(k);
    hide PlannedBody, Validate, BodyBytes;
  }

  lemma UnknownKeysDeliverNothing(prims: Primitives, log: set<Sealed>, run: Run, s: Bytes, a: Artifact, attempt: nat, key: Key)
    requires Ideal(run.prims.aead, log) && forall e :: e in log ==> e.key != key
    ensures Deliver(run, s, a, attempt, key).Failure?
  {
    hide RecoverPayload, ValidUtf8, Ideal;
    UnknownKeyRecoversNothing(run.prims, log, s, a, key, run.decryptCancelled(attempt));
  }

  /**
   * Exact or explicit failure: whatever has been locked, whatever bytes a file has become, whatever superblock
   * they show, whoever types what, and however the run is cancelled, an unlock that succeeds delivers exactly
   * the plaintext of one of the locks, the one made under the key it came to, under that lock's superblock.
   */
  lemma ExactOrExplicitFailure(locks: seq<Lock>, log: set<Sealed>, run: Run, o: Opened, token: Token,
                               answer: Option<nat -> Result<Bytes>>) returns (i: nat)
    requires KnownLocks(run.prims, locks, log) && ReadArtifact(run.prims.crc, o.file) == Success(o.artifact)
    requires o.artifact.superblock.material.modulusN > 0 && Outcome(run, o, token, answer).Success?
    ensures i < |locks| && IsPlaintextOf(locks[i], o.artifact, Outcome(run, o, token, answer).value)
  {
    hide Outcome, PlannedBody, Ideal, Sealings, ReadArtifact, Deliver, KnownLock, IsPlaintextOf;
    var attempt, key := OutcomeIsDelivery(run, o, token, answer);
    if forall e :: e in log ==> e.key != key {
      UnknownKeysDeliverNothing(run.prims, log, run, o.file, o.artifact, attempt, key);
      assert false;
    }
    var e :| e in log && e.key == key;
    i :| 0 <= i < |locks| && locks[i].request.key == e.key;
    DeliveredIsPlaintextOf(locks[i], log, o.file, run, o.artifact, attempt);
  }

  /**
   * And while the superblock is the original one, or any with its digest, that lock is the original lock:
   * whatever has become of the payload region, whatever else has been locked with other keys and superblocks,
   * an unlock that succeeds delivers exactly the plaintext.
   */
  lemma OriginalSuperblockIsExact(k: Lock, log: set<Sealed>, run: Run, o: Opened, token: Token,
                                  answer: Option<nat -> Result<Bytes>>)
    requires Finished(k) && run.prims == k.prims && Ideal(k.prims.aead, log)
    requires OnlyStreamUnderKey(log, k.Seal(), k.chunks) && DigestUnderOneKey(log, k.Seal())
    requires ReadArtifact(k.prims.crc, o.file) == Success(o.artifact)
    requires SuperblockDigest(k.prims.blake3, o.artifact.superblock) == Success(k.Seal().digest)
    requires o.artifact.superblock.material.modulusN > 0 && Outcome(run, o, token, answer).Success?
    ensures Outcome(run, o, token, answer).value.content == k.Plaintext()
  {
    hide Outcome, PlannedBody, Ideal, Sealings, ReadArtifact, RecoverPayload, ValidUtf8, Finished, SuperblockDigest, BodyBytes,
         DigestUnderOneKey;
    FinishedIsPlanned(k);
    var attempt, key := OutcomeIsDelivery(run, o, token, answer);
    OriginalDigestIsExact(k, log, o.file, key, run.decryptCancelled(attempt));
  }

  /**
   * What the application shows as complete, after any run of keys, polls and worker steps over any number
   * of sessions, is exactly the plaintext of a lock: the file may be any bytes, the answers any text.
   */
  lemma ShownIsExact(locks: seq<Lock>, log: set<Sealed>, steps: seq<PromptProtocol.Step>)
    requires PromptProtocol.Follows(PromptProtocol.INITIAL, steps)
    requires var s := PromptProtocol.After(PromptProtocol.INITIAL, steps);
      s.screen.UnlockComplete? && (s.session.Some? ==> KnownLocks(s.session.value.run.prims, locks, log))
    ensures var s := PromptProtocol.After(PromptProtocol.INITIAL, steps);
      && s.session.Some?
      && var prepared := Prepare(s.session.value.run, s.session.value.files, s.session.value.request);
      && prepared.Success?
      && exists i :: 0 <= i < |locks| && IsPlaintextOf(locks[i], prepared.value.artifact, s.screen.delivery)
  {
    hide PromptProtocol.Follows, PromptProtocol.After, Outcome, Prepare, KnownLocks, IsPlaintextOf;
    PromptProtocol.SessionRefinesUnlock(steps);
    var s := PromptProtocol.After(PromptProtocol.INITIAL, steps);
    var session := s.session.value;
    PreparedArtifact(session.run, session.files, session.request);
    var o := Prepare(session.run, session.files, session.request).value;
    var i := ExactOrExplicitFailure(locks, log, session.run, o, session.token, Some(PromptProtocol.AnswersOf(s.answers)));
    assert IsPlaintextOf(locks[i], o.artifact, s.screen.delivery);
  }

  /**
   * And it is shown: when the session for a locked file comes to its end on screen, and the passphrase, if
   * there is one, was given after wrong ones only, the screen has the plaintext.
   */
  lemma LockedFileIsShown(k: Lock, options: LockOptions, d: Draws, log: set<Sealed>, region: Bytes, right: nat,
                          steps: seq<PromptProtocol.Step>, step: PromptProtocol.Step, session: PromptProtocol.Session,
                          o: Opened)
    requires PromptProtocol.Follows(PromptProtocol.INITIAL, steps)
    requires var s := PromptProtocol.After(PromptProtocol.INITIAL, steps);
      && PromptProtocol.Enabled(s, step) && s.screen.UnlockProgress? && s.session == Some(session)
      && !PromptProtocol.Apply(s, step).screen.UnlockProgress? && !step.UiDropped?
    requires Prepare(session.run, session.files, session.request) == Success(o) && o.artifact.superblock.material.modulusN > 0
    requires LockedBy(k, options, d) && Damaged(k, log, region, o.file)
    requires Undisturbed(k, o.file, session.run, o, session.token)
    requires var answers := PromptProtocol.AnswersOf(PromptProtocol.After(PromptProtocol.INITIAL, steps).answers);
      options.password.Some? ==> AnsweredAt(k, options, o, log, answers, right)
    requires IsMessage(options) ==> IsText(k.Plaintext())
    ensures PromptProtocol.Apply(PromptProtocol.After(PromptProtocol.INITIAL, steps), step).screen
         == PromptProtocol.UnlockComplete(Delivery(k.Plaintext(), |k.Plaintext()|))
  {
    hide LockedBy, Damaged, Undisturbed, AnsweredAt, Outcome, Prepare, IsText, Prompts, PromptProtocol.Follows,
         PromptProtocol.After, PromptProtocol.Enabled, PromptProtocol.Apply;
    PromptProtocol.EveryEndIsShown(steps, step);
    var answers := PromptProtocol.AnswersOf(PromptProtocol.After(PromptProtocol.INITIAL, steps).answers);
    if options.password.Some? {
      UnlocksWithPassphrase(k, options, d, log, region, o.file, session.run, session.request, o, session.token, answers, right);
    } else {
      UnlocksWithoutPassphrase(k, options, d, log, region, o.file, session.run, session.request, o, session.token, answers);
    }
  }
}

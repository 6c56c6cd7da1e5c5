// The hypotheses about the cipher and the codec can be met: every staged file has primitives under which
// it locks and under which the theorems about locking and unlocking apply.
module Instances {
  import opened Base
  import opened ChunkFrame
  import opened ProtectedStream
  import ReedSolomon
  import opened PolynomialCodec
  import PayloadRegion
  import opened SuperblockBody
  import opened Writer
  import opened EndToEnd
  import opened LockFlow
  import opened LockUnlock

  function PlainSeal(message: Bytes): Bytes { message + Zeros(AEAD_TAG_BYTES) }

  /** Opens exactly what is in the log. */
  ghost function CipherFor(log: set<Sealed>): Aead {
    Aead((k, n, a, m) => PlainSeal(m), (k, n, a, c) => OpenLogged(log, k, n, a, c))
  }

  ghost function OpenLogged(log: set<Sealed>, k: Key, n: Nonce, a: Bytes, c: Bytes): Option<Bytes> {
    if |c| >= AEAD_TAG_BYTES && Sealed(k, n, a, c[..|c| - AEAD_TAG_BYTES], c) in log then
      Some(c[..|c| - AEAD_TAG_BYTES])
    else None
  }

  lemma CipherIsIdeal(log: set<Sealed>)
    requires forall e :: e in log ==> e.ciphertext == PlainSeal(e.message)
    ensures AppendsTag(CipherFor(log)) && Ideal(CipherFor(log), log)
  {
    forall e | e in log
      ensures OpenLogged(log, e.key, e.nonce, e.aad, e.ciphertext) == Some(e.message)
    {
      assert e.ciphertext[..|e.ciphertext| - AEAD_TAG_BYTES] == e.message;
      assert Sealed(e.key, e.nonce, e.aad, e.message, e.ciphertext) == e;
    }
  }

  /** What is sealed depends on how the cipher seals, not on what it opens. */
  lemma {:induction false} SameSealings(s: Sealing, t: Sealing, index: nat, chunks: seq<Bytes>)
    requires s.key == t.key && s.digest == t.digest && s.nonces == t.nonces
    requires forall k, n, a, m :: s.aead.seal(k, n, a, m) == t.aead.seal(k, n, a, m) == PlainSeal(m)
    ensures Sealings(s, index, chunks) == Sealings(t, index, chunks)
    ensures forall e :: e in Sealings(s, index, chunks) ==> e.ciphertext == PlainSeal(e.message)
    decreases |chunks|
  {
    hide ChunkAad;
    if chunks != [] {
      SameSealings(s, t, index + 1, chunks[1..]);
      assert SealChunk(s, index, chunks[0], |chunks| == 1) == SealChunk(t, index, chunks[0], |chunks| == 1);
    }
  }

  /** For every stream there is an ideal cipher that has sealed this stream and nothing else. */
  lemma IdealCipherExists(key: Key, digest: Key, nonces: nat -> Nonce, chunks: seq<Bytes>) returns (aead: Aead)
    ensures AppendsTag(aead) && Ideal(aead, Sealings(Sealing(aead, key, digest, nonces), 0, chunks))
  {
    var silent := Sealing(CipherFor({}), key, digest, nonces);
    var log := Sealings(silent, 0, chunks);
    aead := CipherFor(log);
    SameSealings(silent, Sealing(aead, key, digest, nonces), 0, chunks);
    CipherIsIdeal(log);
  }

  lemma PlanIgnoresTheCipher(prims: Primitives, aead: Aead, options: LockOptions, d: Draws)
    requires d.p >= 2 && d.q >= 2
    ensures PlanLock(prims.(aead := aead), options, d) == PlanLock(prims, options, d)
  {
  }

  /**
   * Nothing is assumed in vain: whatever the checksum, hash and key derivation, every staged file below
   * 2^63 bytes whose superblock can be stored locks under some cipher with the polynomial code, in a way
   * that meets every hypothesis of the unlock theorems, the file as written being one they apply to.
   */
  lemma HypothesesAreMet(prims: Primitives, options: LockOptions, d: Draws, data: Bytes, limit: nat -> nat)
    returns (k: Lock, region: Bytes)
    requires d.Sound() && PlanLock(prims, options, d).Success? && prims.codec == PolynomialCode()
    requires |data| == options.plaintextBytes < 0x8000_0000_0000_0000
    requires Shortfall(|data|, limit, 0, DEFAULT_LOCK_CHUNK_SIZE_BYTES) < DEFAULT_LOCK_CHUNK_SIZE_BYTES
    requires PlannedBody(PlanLock(prims, options, d).value).Success?
    requires var b := PlannedBody(PlanLock(prims, options, d).value).value;
      HoldsText(b) && Storable(Normalized(b))
    ensures k.prims == prims.(aead := k.prims.aead) && LockedBy(k, options, d) && k.Plaintext() == data
    ensures Damaged(k, Sealings(k.Seal(), 0, k.chunks), region, k.file)
  {
    var q := PlanLock(prims, options, d).value;
    var b := PlannedBody(q).value;
    var chunks := Terminated(ReadChunks(data, limit, 0, DEFAULT_LOCK_CHUNK_SIZE_BYTES));
    var aead := IdealCipherExists(q.key, prims.blake3(BodyBytes(b)), d.nonces, chunks);
    PlanIgnoresTheCipher(prims, aead, options, d);
    PlanSizes(prims, options, d);
    hide PlanLock, PlannedBody, BodyBytes, Storable, HoldsText, Finished, Survivable, Ideal, AppendsTag, Sealings, ReadChunks,
         ReedSolomon.ErasureCode, PolynomialCode, PayloadRegion.EncodeRegion, Shortfall, StreamFrom;
    PolynomialsAreErasureCodes(DEFAULT_RS_DATA_SHARDS, DEFAULT_RS_PARITY_SHARDS);
    k := EveryFileLocks(prims.(aead := aead), options, d, data, limit, 0);
    region := UndamagedIsSurvivable(k);
  }
}


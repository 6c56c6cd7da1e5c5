// Wrapping the file key with the puzzle mask alone, or with a passphrase mixed in through a KDF.
module PasswordProtection {
  import opened Base

  // "TLCK-PASSWORD-WRAP-v1"
  const PASSWORD_WRAP_DOMAIN: Bytes :=
    [0x54, 0x4C, 0x43, 0x4B, 0x2D, 0x50, 0x41, 0x53, 0x53, 0x57, 0x4F, 0x52, 0x44, 0x2D, 0x57, 0x52, 0x41, 0x50, 0x2D,
     0x76, 0x31]

  datatype KeyProtectionAlgorithm = TimelockOnly | TimelockPlusArgon2idV1 {
    function StableId(): byte { if TimelockOnly? then 1 else 2 }
  }

  datatype PasswordKdfAlgorithm = Argon2id {
    function StableId(): byte { 1 }
  }

  datatype PasswordParams = PasswordParams(memoryKib: u32, iterations: u32, parallelism: u32, salt: Bytes) {
    predicate Valid() { salt != [] && memoryKib > 0 && iterations > 0 && parallelism > 0 }
  }

  datatype PasswordMetadata = PasswordMetadata(
    keyProtection: KeyProtectionAlgorithm, kdf: PasswordKdfAlgorithm, params: PasswordParams)

  /** Argon2id (section 3 of RFC 9106) on an input and a salt; it may reject its parameters. */
  type Kdf = (PasswordParams, Bytes) -> Result<Key>

  function KdfInput(mask: Key, passphrase: Bytes): Bytes { PASSWORD_WRAP_DOMAIN + mask + passphrase }

  /** The input of the key derivation determines mask and passphrase. */
  lemma KdfInputInjective(m: Key, p: Bytes, m': Key, p': Bytes)
    requires KdfInput(m, p) == KdfInput(m', p')
    ensures m == m' && p == p'
  {
    assert KdfInput(m, p)[21..53] == m && KdfInput(m', p')[21..53] == m';
    assert KdfInput(m, p)[53..] == p && KdfInput(m', p')[53..] == p';
  }

  function DeriveWrapKey(kdf: Kdf, params: PasswordParams, mask: Key, passphrase: Bytes): Result<Key> {
    if !params.Valid() then Failure(InvalidArgument)
    else kdf(params, KdfInput(mask, passphrase))
  }

  function WrapWithPassword(kdf: Kdf, key: Key, mask: Key, passphrase: Bytes, params: PasswordParams): Result<Key> {
    var wrapKey :- DeriveWrapKey(kdf, params, mask, passphrase);
    Success(Xor(key, wrapKey))
  }

  function UnwrapWithPassword(kdf: Kdf, wrapped: Key, mask: Key, passphrase: Bytes, params: PasswordParams): Result<Key> {
    var wrapKey :- DeriveWrapKey(kdf, params, mask, passphrase);
    Success(Xor(wrapped, wrapKey))
  }

  /** The wrapped key and the metadata stored with it: a passphrase, if given, must not be empty. */
  function KeyProtectionMaterial(kdf: Kdf, key: Key, mask: Key, password: Option<Bytes>, params: PasswordParams)
    : Result<(Key, Option<PasswordMetadata>)>
  {
    match password
    case None => Success((Xor(key, mask), None))
    case Some(passphrase) =>
      if passphrase == [] then Failure(InvalidArgument)
      else
        var wrapped :- WrapWithPassword(kdf, key, mask, passphrase, params);
        Success((wrapped, Some(PasswordMetadata(TimelockPlusArgon2idV1, Argon2id, params))))
  }

  /** The derivation is given the domain, all of the mask and all of the passphrase, and nothing else. */
  lemma DerivationInput(kdf: Kdf, params: PasswordParams, mask: Key, passphrase: Bytes)
    ensures DeriveWrapKey(kdf, params, mask, passphrase)
         == if params.salt != [] && params.memoryKib > 0 && params.iterations > 0 && params.parallelism > 0 then
              kdf(params, Ascii("TLCK-PASSWORD-WRAP-v1") + mask + passphrase)
            else Failure(InvalidArgument)
  {
    assert PASSWORD_WRAP_DOMAIN == Ascii("TLCK-PASSWORD-WRAP-v1");
  }

  /** What is stored: no metadata without a passphrase; an empty passphrase is refused; otherwise the parameters it was derived with. */
  lemma ProtectionExactly(kdf: Kdf, key: Key, mask: Key, password: Option<Bytes>, params: PasswordParams)
    ensures var r := KeyProtectionMaterial(kdf, key, mask, password, params);
      match password
      case None => r == Success((Xor(key, mask), None))
      case Some(passphrase) =>
        var derived := DeriveWrapKey(kdf, params, mask, passphrase);
        && (passphrase == [] ==> r == Failure(InvalidArgument))
        && (passphrase != [] && derived.Failure? ==> r == Failure(derived.error))
        && (passphrase != [] && derived.Success? ==>
              r == Success((Xor(key, derived.value), Some(PasswordMetadata(TimelockPlusArgon2idV1, Argon2id, params)))))
  {
    hide DeriveWrapKey, Xor;
  }

  /** The key an unlock recovers from stored material, given the mask and a passphrase. */
  function RecoverKey(kdf: Kdf, wrapped: Key, metadata: Option<PasswordMetadata>, mask: Key, passphrase: Bytes): Result<Key> {
    match metadata
    case None => Success(Xor(wrapped, mask))
    case Some(m) => UnwrapWithPassword(kdf, wrapped, mask, passphrase, m.params)
  }

  /** With the mask and the passphrase of the lock, unlock recovers exactly the file key. */
  lemma KeyIsRecovered(kdf: Kdf, key: Key, mask: Key, password: Option<Bytes>, params: PasswordParams)
    requires KeyProtectionMaterial(kdf, key, mask, password, params).Success?
    ensures var (wrapped, metadata) := KeyProtectionMaterial(kdf, key, mask, password, params).value;
      && (metadata.Some? <==> password.Some?)
      && (password.Some? ==> metadata.value.params == params && params.Valid())
      && RecoverKey(kdf, wrapped, metadata, mask, if password.Some? then password.value else []) == Success(key)
  {
    XorCancels(key, mask);
    if password.Some? {
      XorCancels(key, DeriveWrapKey(kdf, params, mask, password.value).value);
    }
  }

  /**
   * Exactly which mask and passphrase recover the key of a protected lock: those from which the derivation
   * gives what it gave at the lock. So, unless it collides on the two inputs, the mask and the passphrase of
   * the lock and no others do.
   */
  lemma RecoversExactly(kdf: Kdf, key: Key, mask: Key, passphrase: Bytes, params: PasswordParams,
                        mask': Key, passphrase': Bytes)
    requires KeyProtectionMaterial(kdf, key, mask, Some(passphrase), params).Success?
    ensures var (wrapped, metadata) := KeyProtectionMaterial(kdf, key, mask, Some(passphrase), params).value;
      var domain := Ascii("TLCK-PASSWORD-WRAP-v1");
      var derived, derived' := kdf(params, domain + mask + passphrase), kdf(params, domain + mask' + passphrase');
      var recovered := RecoverKey(kdf, wrapped, metadata, mask', passphrase');
      && derived.Success? && metadata.Some?
      && (recovered == Success(key) <==> derived' == derived)
      && (derived' != derived || domain + mask' + passphrase' == domain + mask + passphrase ==>
            (recovered == Success(key) <==> mask' == mask && passphrase' == passphrase))
      && (recovered.Success? <==> derived'.Success?)
  {
    DerivationInput(kdf, params, mask, passphrase);
    DerivationInput(kdf, params, mask', passphrase');
    var wrapped := KeyProtectionMaterial(kdf, key, mask, Some(passphrase), params).value.0;
    var derived, derived' := DeriveWrapKey(kdf, params, mask, passphrase).value, DeriveWrapKey(kdf, params, mask', passphrase');
    XorCancels(key, derived);
    if derived'.Success? && Xor(wrapped, derived'.value) == key {
      XorInjective(wrapped, derived, derived'.value);
    }
    if KdfInput(mask', passphrase') == KdfInput(mask, passphrase) {
      KdfInputInjective(mask', passphrase', mask, passphrase);
    }
    assert PASSWORD_WRAP_DOMAIN == Ascii("TLCK-PASSWORD-WRAP-v1");
    hide Xor;
  }

  /** Without a passphrase the mask alone matters: exactly the mask of the lock recovers the key. */
  lemma MaskRecoversExactly(kdf: Kdf, key: Key, mask: Key, params: PasswordParams, mask': Key, passphrase: Bytes)
    requires KeyProtectionMaterial(kdf, key, mask, None, params).Success?
    ensures var (wrapped, metadata) := KeyProtectionMaterial(kdf, key, mask, None, params).value;
      RecoverKey(kdf, wrapped, metadata, mask', passphrase) == Success(key) <==> mask' == mask
  {
    XorCancels(key, mask);
    if Xor(Xor(key, mask), mask') == key {
      XorInjective(Xor(key, mask), mask, mask');
    }
  }
}

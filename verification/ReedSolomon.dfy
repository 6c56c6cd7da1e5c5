// The erasure codec behind a contract: systematic, and any `data` of the shards determine all of them.
module ReedSolomon {
  import opened Base

  const MAX_TOTAL_SHARDS := 256

  /**
   * parity(d, p, data, j) is the j-th of the p parity shards of d data shards;
   * restore(d, p, shards, i) is the shard for the empty slot i, given at least d of d + p shards.
   */
  datatype Codec = Codec(
    parity: (nat, nat, seq<Bytes>, nat) -> Bytes,
    restore: (nat, nat, seq<Option<Bytes>>, nat) -> Bytes)

  predicate Supported(dataShards: nat, parityShards: nat) {
    dataShards > 0 && parityShards > 0 && dataShards + parityShards <= MAX_TOTAL_SHARDS
  }

  ghost predicate SameLength(shards: seq<Bytes>, length: nat) {
    forall i :: 0 <= i < |shards| ==> |shards[i]| == length
  }

  function Present(shards: seq<Option<Bytes>>): nat {
    if shards == [] then 0 else (if shards[0].Some? then 1 else 0) + Present(shards[1..])
  }

  /** `shards` is `all` with some shards erased. */
  ghost predicate Erasure(shards: seq<Option<Bytes>>, all: seq<Bytes>) {
    |shards| == |all| && forall i :: 0 <= i < |all| ==> shards[i] == None || shards[i] == Some(all[i])
  }

  function ParityShards(codec: Codec, d: nat, p: nat, data: seq<Bytes>): (parity: seq<Bytes>)
    ensures |parity| == p
  {
    seq(p, j requires 0 <= j < p => codec.parity(d, p, data, j))
  }

  function AllShards(codec: Codec, d: nat, p: nat, data: seq<Bytes>): (all: seq<Bytes>)
    ensures |all| == |data| + p
  {
    data + ParityShards(codec, d, p, data)
  }

  /** The shards that are present, and what the codec puts into the empty slots. */
  function Filled(codec: Codec, d: nat, p: nat, shards: seq<Option<Bytes>>): (all: seq<Bytes>)
    ensures |all| == |shards|
  {
    seq(|shards|, i requires 0 <= i < |shards| =>
      if shards[i].Some? then shards[i].value else codec.restore(d, p, shards, i))
  }

  /** The contract of the codec for d data and p parity shards: only of lengths and of what a reconstruction fills in. */
  ghost predicate ErasureCode(codec: Codec, d: nat, p: nat) {
    && (forall data: seq<Bytes>, length: nat :: |data| == d && length > 0 && SameLength(data, length) ==>
          SameLength(ParityShards(codec, d, p, data), length))
    && (forall data: seq<Bytes>, length: nat, shards: seq<Option<Bytes>> ::
          |data| == d && length > 0 && SameLength(data, length) &&
          Erasure(shards, AllShards(codec, d, p, data)) && Present(shards) >= d ==>
          Filled(codec, d, p, shards) == AllShards(codec, d, p, data))
  }

  /** All slots hold as many bytes, at least one. */
  predicate Uniform(slots: seq<Bytes>) {
    forall i :: 0 <= i < |slots| ==> |slots[i]| == |slots[0]| > 0
  }

  predicate UniformPresent(shards: seq<Option<Bytes>>) {
    forall i, j :: 0 <= i < |shards| && 0 <= j < |shards| && shards[i].Some? && shards[j].Some? ==>
      |shards[i].value| == |shards[j].value| > 0
  }

  /** Encodes d + p slots, of which the last p are to be overwritten. */
  function EncodeShards(codec: Codec, d: nat, p: nat, slots: seq<Bytes>): Result<seq<Bytes>> {
    if !Supported(d, p) then Failure(InvalidFormat)
    else if |slots| != d + p then Failure(InvalidFormat)
    else if !Uniform(slots) then Failure(InvalidFormat)
    else Success(AllShards(codec, d, p, slots[..d]))
  }

  /** Fills in the erased shards; too few present shards is a verification failure. */
  function ReconstructShards(codec: Codec, d: nat, p: nat, shards: seq<Option<Bytes>>): (r: Result<seq<Bytes>>)
    ensures r.Success? ==> |r.value| == d + p
  {
    if !Supported(d, p) then Failure(InvalidFormat)
    else if |shards| != d + p then Failure(InvalidFormat)
    else if !UniformPresent(shards) then Failure(InvalidFormat)
    else if Present(shards) < d then Failure(Verification)
    else Success(Filled(codec, d, p, shards))
  }

  /**
   * What is refused, and how: parameters, a number of shards or lengths that do not fit are format errors;
   * only then do too few shards count, and they are a verification error.
   */
  lemma ShardsRefused(codec: Codec, d: nat, p: nat, slots: seq<Bytes>, shards: seq<Option<Bytes>>)
    ensures EncodeShards(codec, d, p, slots).Failure? <==>
      d == 0 || p == 0 || d + p > 256 || |slots| != d + p || slots[0] == [] || exists i :: 0 <= i < |slots| && |slots[i]| != |slots[0]|
    ensures EncodeShards(codec, d, p, slots).Failure? ==> EncodeShards(codec, d, p, slots).error == InvalidFormat
    ensures ReconstructShards(codec, d, p, shards).Failure? ==>
      ReconstructShards(codec, d, p, shards).error
        == if d == 0 || p == 0 || d + p > 256 || |shards| != d + p || Some([]) in shards ||
              (exists i, j :: 0 <= i < |shards| && 0 <= j < |shards| && shards[i].Some? && shards[j].Some? &&
                              |shards[i].value| != |shards[j].value|)
           then InvalidFormat else Verification
    ensures ReconstructShards(codec, d, p, shards) == Failure(Verification) ==> Present(shards) < d
  {
    hide AllShards, Filled, Present;
    if Some([]) in shards {
      var i :| 0 <= i < |shards| && shards[i] == Some([]);
      assert !UniformPresent(shards);
    }
  }

  /** An encoding has all shards, of the length of the slots, the data shards first. */
  lemma EncodedShape(codec: Codec, d: nat, p: nat, slots: seq<Bytes>)
    requires ErasureCode(codec, d, p) && EncodeShards(codec, d, p, slots).Success?
    ensures var all := EncodeShards(codec, d, p, slots).value;
      |all| == d + p && SameLength(all, |slots[0]|) && all[..d] == slots[..d]
  {
    var data, length := slots[..d], |slots[0]|;
    assert SameLength(data, length);
    var parity, all := ParityShards(codec, d, p, data), AllShards(codec, d, p, data);
    assert SameLength(parity, length);
    assert forall i :: 0 <= i < |all| ==> all[i] == if i < d then data[i] else parity[i - d];
  }

  /** As long as no more shards are erased than there are parity shards, reconstruction gives the encoding back. */
  lemma ReconstructAfterErasure(codec: Codec, d: nat, p: nat, slots: seq<Bytes>, shards: seq<Option<Bytes>>)
    requires ErasureCode(codec, d, p) && EncodeShards(codec, d, p, slots).Success?
    requires Erasure(shards, EncodeShards(codec, d, p, slots).value) && Present(shards) >= d
    ensures ReconstructShards(codec, d, p, shards) == EncodeShards(codec, d, p, slots)
  {
    EncodedShape(codec, d, p, slots);
    assert SameLength(slots[..d], |slots[0]|);
    hide AllShards, Filled, Present;
  }

  // ---------------------------------------------------------------- in place

  /** Overwrites the slots after the data shards with parity; nothing else changes, and nothing at all on failure. */
  method EncodeShardsInPlace(codec: Codec, d: nat, p: nat, shards: array<Bytes>) returns (r: Result<()>)
    modifies shards
    ensures match EncodeShards(codec, d, p, old(shards[..]))
      case Failure(e) => r == Failure(e) && shards[..] == old(shards[..])
      case Success(all) => r == Success(()) && shards[..] == all
  {
    if !Supported(d, p) || shards.Length != d + p || !Uniform(shards[..]) {
      return Failure(InvalidFormat);
    }
    var data := shards[..d];
    ghost var parity := ParityShards(codec, d, p, data);
    for j := 0 to p
      invariant shards[..d] == data && shards[d..d + j] == parity[..j]
    {
      shards[d + j] := codec.parity(d, p, data, j);
      assert shards[d..d + (j + 1)] == shards[d..d + j] + [parity[j]];
    }
    assert shards[..] == shards[..d] + shards[d..d + p];
    r := Success(());
  }

  /** Fills the empty slots and leaves the others; nothing changes when too few shards are present. */
  method ReconstructShardsInPlace(codec: Codec, d: nat, p: nat, shards: array<Option<Bytes>>) returns (r: Result<()>)
    modifies shards
    ensures match ReconstructShards(codec, d, p, old(shards[..]))
      case Failure(e) => r == Failure(e) && shards[..] == old(shards[..])
      case Success(all) =>
        r == Success(()) && |all| == shards.Length && forall i :: 0 <= i < |all| ==> shards[i] == Some(all[i])
  {
    hide UniformPresent, Present;
    if !Supported(d, p) || shards.Length != d + p || !UniformPresent(shards[..]) {
      return Failure(InvalidFormat);
    }
    var given := shards[..];
    if Present(given) < d {
      return Failure(Verification);
    }
    ghost var all := Filled(codec, d, p, given);
    for i := 0 to shards.Length
      invariant forall j :: 0 <= j < i ==> shards[j] == Some(all[j])
      invariant forall j :: i <= j < shards.Length ==> shards[j] == given[j]
    {
      if shards[i].None? {
        shards[i] := Some(codec.restore(d, p, given, i));
      }
    }
    r := Success(());
  }
}

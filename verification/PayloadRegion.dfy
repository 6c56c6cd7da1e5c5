// The stored payload region: shard records with checksums, striping, padding, erasure recovery.
module PayloadRegion {
  import opened Base
  import opened NumberTheory
  import opened ReedSolomon

  type Checksum = Bytes -> u32

  // ---------------------------------------------------------------- shard records

  const CRC_BYTES := 4

  function EncodeShardRecord(crc: Checksum, shard: Bytes): Bytes {
    Le(crc(shard), CRC_BYTES) + shard
  }

  /** A record whose checksum does not match counts as erased. */
  function ShardOf(crc: Checksum, record: Bytes): Option<Bytes> {
    if |record| >= CRC_BYTES && crc(record[CRC_BYTES..]) == FromLe(record[..CRC_BYTES]) then Some(record[CRC_BYTES..])
    else None
  }

  function DecodeShardRecord(crc: Checksum, record: Bytes, shardLen: nat): Result<Option<Bytes>> {
    if |record| != shardLen + CRC_BYTES then Failure(InvalidFormat) else Success(ShardOf(crc, record))
  }

  lemma ShardRecordRoundTrip(crc: Checksum, shard: Bytes)
    ensures DecodeShardRecord(crc, EncodeShardRecord(crc, shard), |shard|) == Success(Some(shard))
  {
    var record := EncodeShardRecord(crc, shard);
    assert record[CRC_BYTES..] == shard && record[..CRC_BYTES] == Le(crc(shard), CRC_BYTES);
    Widths();
    LeRoundTrip(crc(shard), CRC_BYTES);
  }

  // ---------------------------------------------------------------- layout

  datatype Layout = Layout(dataShards: u16, parityShards: u16, shardBytes: u32) {
    function TotalShards(): nat { dataShards + parityShards }

    function DataBytesPerStripe(): nat { dataShards * shardBytes }

    function ShardRecordLen(): (n: nat)
      ensures n > 0
    {
      shardBytes + CRC_BYTES
    }

    function StripeRecordLen(): nat { TotalShards() * ShardRecordLen() }

    predicate Valid() { dataShards > 0 && parityShards > 0 && shardBytes > 0 }
  }

  lemma LayoutPositive(l: Layout)
    requires l.Valid()
    ensures l.DataBytesPerStripe() > 0 && l.StripeRecordLen() > 0
  {
    MulMonotone(l.dataShards, 1, l.shardBytes);
    MulMonotone(l.TotalShards(), 1, l.ShardRecordLen());
  }

  /** An empty stream still fills one stripe. */
  function StripeCount(totalLen: nat, dataBytesPerStripe: nat): nat
    requires dataBytesPerStripe > 0
  {
    if totalLen == 0 then 1 else CeilDiv(totalLen, dataBytesPerStripe)
  }

  function EncodedPayloadRegionLen(streamLen: nat, l: Layout): Result<nat> {
    if !l.Valid() then Failure(InvalidFormat)
    else
      LayoutPositive(l);
      Success(StripeCount(streamLen, l.DataBytesPerStripe()) * l.StripeRecordLen())
  }

  // ---------------------------------------------------------------- cutting into equal pieces

  /** The whole pieces of `size` bytes, in order; a shorter remainder is dropped. */
  function Pieces(bytes: Bytes, size: nat): seq<Bytes>
    requires size > 0
  {
    if |bytes| < size then [] else [bytes[..size]] + Pieces(bytes[size..], size)
  }

  /** n pieces of `size` bytes are cut from n * size bytes, and put together they are those bytes. */
  lemma {:induction false} PiecesExact(bytes: Bytes, size: nat, n: nat)
    requires size > 0 && |bytes| == n * size
    ensures |Pieces(bytes, size)| == n && Concat(Pieces(bytes, size)) == bytes
    ensures SameLength(Pieces(bytes, size), size)
  {
    if n > 0 {
      MulMonotone(size, 1, n);
      assert (n - 1) * size == n * size - size;
      PiecesExact(bytes[size..], size, n - 1);
      assert Pieces(bytes, size)[1..] == Pieces(bytes[size..], size);
    }
  }

  lemma {:induction false} PiecesOfConcat(pieces: seq<Bytes>, size: nat)
    requires size > 0 && SameLength(pieces, size)
    ensures Pieces(Concat(pieces), size) == pieces && |Concat(pieces)| == |pieces| * size
  {
    if pieces != [] {
      var rest := pieces[1..];
      assert forall i :: 0 <= i < |rest| ==> rest[i] == pieces[i + 1];
      PiecesOfConcat(rest, size);
      assert |pieces| * size == |rest| * size + size;
      var all := Concat(pieces);
      assert all[..size] == pieces[0] && all[size..] == Concat(rest);
    }
  }

  // ---------------------------------------------------------------- encoding

  /** The storage parameters: checksum, codec and layout. */
  datatype Storage = Storage(crc: Checksum, codec: Codec, layout: Layout)

  function Records(crc: Checksum, shards: seq<Bytes>): seq<Bytes> {
    seq(|shards|, i requires 0 <= i < |shards| => EncodeShardRecord(crc, shards[i]))
  }

  /** The bytes followed by zeros up to the given length. */
  function PadTo(bytes: Bytes, length: nat): (padded: Bytes)
    requires |bytes| <= length
    ensures |padded| == length && padded[..|bytes|] == bytes
  {
    bytes + Zeros(length - |bytes|)
  }

  /** The stream padded to whole stripes. */
  function Padded(stream: Bytes, l: Layout): (padded: Bytes)
    requires l.Valid()
    ensures |stream| <= |padded| && padded[..|stream|] == stream
  {
    LayoutPositive(l);
    StripesCover(|stream|, l.DataBytesPerStripe());
    PadTo(stream, StripeCount(|stream|, l.DataBytesPerStripe()) * l.DataBytesPerStripe())
  }

  lemma StripesCover(total: nat, stripe: nat)
    requires stripe > 0
    ensures total <= StripeCount(total, stripe) * stripe
  {
    if total > 0 {
      var q := (total + stripe - 1) / stripe;
      assert total + stripe - 1 == stripe * q + (total + stripe - 1) % stripe;
      MulCommutes(stripe, q);
    }
  }

  /** The data shards of a stripe, followed by zeros for the parity shards. */
  function Slots(stripe: Bytes, l: Layout): seq<Bytes>
    requires l.Valid()
  {
    Pieces(stripe, l.shardBytes) + seq(l.parityShards, _ => Zeros(l.shardBytes))
  }

  function EncodeStripe(s: Storage, stripe: Bytes): Result<Bytes>
    requires s.layout.Valid()
  {
    match EncodeShards(s.codec, s.layout.dataShards, s.layout.parityShards, Slots(stripe, s.layout))
    case Failure(e) => Failure(e)
    case Success(all) => Success(Concat(Records(s.crc, all)))
  }

  /** All stripes of a padded stream, in order. */
  function EncodeStripes(s: Storage, padded: Bytes): Result<Bytes>
    requires s.layout.Valid()
    decreases |padded|
  {
    LayoutPositive(s.layout);
    var size := s.layout.DataBytesPerStripe();
    if |padded| < size then Success([])
    else
      match EncodeStripe(s, padded[..size])
      case Failure(e) => Failure(e)
      case Success(head) =>
        match EncodeStripes(s, padded[size..])
        case Failure(e) => Failure(e)
        case Success(tail) => Success(head + tail)
  }

  function EncodeRegion(s: Storage, stream: Bytes): Result<Bytes> {
    if !s.layout.Valid() then Failure(InvalidFormat) else EncodeStripes(s, Padded(stream, s.layout))
  }

  // ---------------------------------------------------------------- reconstruction

  /** Decoding every record of a stripe; records are cut to the right length, so none is malformed. */
  function DecodeRecords(crc: Checksum, records: seq<Bytes>): (shards: seq<Option<Bytes>>)
    ensures |shards| == |records|
  {
    seq(|records|, i requires 0 <= i < |records| => ShardOf(crc, records[i]))
  }

  function ReconstructStripe(s: Storage, stored: Bytes): Result<Bytes>
  {
    var l := s.layout;
    var shards := DecodeRecords(s.crc, Pieces(stored, l.ShardRecordLen()));
    match ReconstructShards(s.codec, l.dataShards, l.parityShards, shards)
    case Failure(e) => Failure(e)
    case Success(all) => Success(Concat(all[..l.dataShards]))
  }

  function ReconstructStripes(s: Storage, region: Bytes): Result<Bytes>
    requires s.layout.Valid()
    decreases |region|
  {
    LayoutPositive(s.layout);
    var size := s.layout.StripeRecordLen();
    if |region| < size then Success([])
    else
      match ReconstructStripe(s, region[..size])
      case Failure(e) => Failure(e)
      case Success(head) =>
        match ReconstructStripes(s, region[size..])
        case Failure(e) => Failure(e)
        case Success(tail) => Success(head + tail)
  }

  /** The stored region back to the stream of the recorded length. */
  function ReconstructRegion(s: Storage, region: Bytes, streamLen: nat): Result<Bytes> {
    if !s.layout.Valid() then Failure(InvalidFormat)
    else
      LayoutPositive(s.layout);
      if |region| % s.layout.StripeRecordLen() != 0 then Failure(Verification)
      else
        match ReconstructStripes(s, region)
        case Failure(e) => Failure(e)
        case Success(recovered) =>
          if |recovered| < streamLen then Failure(Verification) else Success(recovered[..streamLen])
  }

  // ---------------------------------------------------------------- damage within the parity budget

  /** A stored record is intact, or damaged in a way its checksum shows. */
  predicate IntactOrDetected(crc: Checksum, original: Bytes, stored: Bytes) {
    |stored| == |original| && (stored == original || (|stored| >= 4 && crc(stored[4..]) != FromLe(stored[..4])))
  }

  function DamagedRecords(original: seq<Bytes>, stored: seq<Bytes>): nat
    requires |original| == |stored|
  {
    if original == [] then 0
    else (if original[0] == stored[0] then 0 else 1) + DamagedRecords(original[1..], stored[1..])
  }

  ghost predicate StripeSurvives(s: Storage, original: Bytes, stored: Bytes) {
    var a, b := Pieces(original, s.layout.ShardRecordLen()), Pieces(stored, s.layout.ShardRecordLen());
    && |a| == |b|
    && (forall i :: 0 <= i < |a| ==> IntactOrDetected(s.crc, a[i], b[i]))
    && DamagedRecords(a, b) <= s.layout.parityShards
  }

  /** In every stripe at most `parity` records are damaged, each visibly. */
  ghost predicate RegionSurvives(s: Storage, original: Bytes, stored: Bytes)
    requires s.layout.Valid()
    decreases |original|
  {
    LayoutPositive(s.layout);
    var size := s.layout.StripeRecordLen();
    |original| == |stored| &&
    (|original| >= size ==>
      StripeSurvives(s, original[..size], stored[..size]) && RegionSurvives(s, original[size..], stored[size..]))
  }

  lemma RecordShape(crc: Checksum, all: seq<Bytes>, length: nat)
    requires SameLength(all, length)
    ensures |Records(crc, all)| == |all| && SameLength(Records(crc, all), length + CRC_BYTES)
  {
  }

  /** Decoding damaged records erases exactly shards that were damaged, and never alters one. */
  lemma {:induction false} DecodeDamaged(crc: Checksum, all: seq<Bytes>, stored: seq<Bytes>)
    requires |all| == |stored|
    requires forall i :: 0 <= i < |all| ==> IntactOrDetected(crc, EncodeShardRecord(crc, all[i]), stored[i])
    ensures Erasure(DecodeRecords(crc, stored), all)
    ensures Present(DecodeRecords(crc, stored)) >= |all| - DamagedRecords(Records(crc, all), stored)
  {
    if all != [] {
      ShardRecordRoundTrip(crc, all[0]);
      assert forall i :: 0 <= i < |all| - 1 ==> all[1..][i] == all[i + 1] && stored[1..][i] == stored[i + 1];
      DecodeDamaged(crc, all[1..], stored[1..]);
      var shards := DecodeRecords(crc, stored);
      assert shards[1..] == DecodeRecords(crc, stored[1..]);
      assert Records(crc, all)[1..] == Records(crc, all[1..]);
      assert shards[0] == None || shards[0] == Some(all[0]);
      forall i | 0 <= i < |all|
        ensures shards[i] == None || shards[i] == Some(all[i])
      {
        if i > 0 {
          assert shards[1..][i - 1] == shards[i];
        }
      }
    }
  }

  /** The slots of a full stripe are uniform, so encoding fails for unsupported shard counts alone. */
  lemma SlotsEncode(s: Storage, stripe: Bytes)
    requires s.layout.Valid() && |stripe| == s.layout.DataBytesPerStripe()
    ensures var l, slots := s.layout, Slots(stripe, s.layout);
      && |slots| == l.TotalShards() && SameLength(slots, l.shardBytes) && Concat(slots[..l.dataShards]) == stripe
      && (EncodeShards(s.codec, l.dataShards, l.parityShards, slots).Success? <==> Supported(l.dataShards, l.parityShards))
  {
    hide Pieces;
    var l := s.layout;
    PiecesExact(stripe, l.shardBytes, l.dataShards);
    assert Slots(stripe, l)[..l.dataShards] == Pieces(stripe, l.shardBytes);
  }

  /** A stripe with damage within the budget gives its data back. */
  lemma StripeRecovers(s: Storage, stripe: Bytes, original: Bytes, stored: Bytes)
    requires s.layout.Valid() && |stripe| == s.layout.DataBytesPerStripe()
    requires ErasureCode(s.codec, s.layout.dataShards, s.layout.parityShards)
    requires EncodeStripe(s, stripe) == Success(original) && StripeSurvives(s, original, stored)
    ensures ReconstructStripe(s, stored) == Success(stripe)
  {
    hide Pieces, AllShards, ReconstructShards, Slots;
    var l, slots := s.layout, Slots(stripe, s.layout);
    SlotsEncode(s, stripe);
    var all := EncodeShards(s.codec, l.dataShards, l.parityShards, slots).value;
    EncodedShape(s.codec, l.dataShards, l.parityShards, slots);
    RecordShape(s.crc, all, l.shardBytes);
    PiecesOfConcat(Records(s.crc, all), l.ShardRecordLen());
    var records := Pieces(stored, l.ShardRecordLen());
    StoredShards(s.crc, all, records);
    DecodeDamaged(s.crc, all, records);
    ReconstructAfterErasure(s.codec, l.dataShards, l.parityShards, slots, DecodeRecords(s.crc, records));
  }

  lemma StoredShards(crc: Checksum, all: seq<Bytes>, records: seq<Bytes>)
    requires |all| == |records|
    requires forall i :: 0 <= i < |all| ==> IntactOrDetected(crc, Records(crc, all)[i], records[i])
    ensures forall i :: 0 <= i < |all| ==> IntactOrDetected(crc, EncodeShardRecord(crc, all[i]), records[i])
  {
    assert forall i :: 0 <= i < |all| ==> Records(crc, all)[i] == EncodeShardRecord(crc, all[i]);
  }

  lemma EncodedStripeLength(s: Storage, stripe: Bytes)
    requires s.layout.Valid() && |stripe| == s.layout.DataBytesPerStripe()
    requires ErasureCode(s.codec, s.layout.dataShards, s.layout.parityShards)
    requires EncodeStripe(s, stripe).Success?
    ensures |EncodeStripe(s, stripe).value| == s.layout.StripeRecordLen()
  {
    hide Pieces, AllShards, Slots;
    var l, slots := s.layout, Slots(stripe, s.layout);
    SlotsEncode(s, stripe);
    EncodedShape(s.codec, l.dataShards, l.parityShards, slots);
    var all := EncodeShards(s.codec, l.dataShards, l.parityShards, slots).value;
    RecordShape(s.crc, all, l.shardBytes);
    PiecesOfConcat(Records(s.crc, all), l.ShardRecordLen());
  }

  /** n stripes are stored in n stripe records, and come back from any damage within the budget. */
  lemma {:induction false} StripesRecover(s: Storage, padded: Bytes, n: nat, original: Bytes, stored: Bytes)
    requires s.layout.Valid() && |padded| == n * s.layout.DataBytesPerStripe()
    requires ErasureCode(s.codec, s.layout.dataShards, s.layout.parityShards)
    requires EncodeStripes(s, padded) == Success(original)
    ensures |original| == n * s.layout.StripeRecordLen()
    ensures RegionSurvives(s, original, stored) ==> ReconstructStripes(s, stored) == Success(padded)
  {
    LayoutPositive(s.layout);
    if n > 0 {
      var size, recordLen := s.layout.DataBytesPerStripe(), s.layout.StripeRecordLen();
      CountDown(n, size);
      CountDown(n, recordLen);
      var head, tail := EncodeStripe(s, padded[..size]).value, EncodeStripes(s, padded[size..]).value;
      EncodedStripeLength(s, padded[..size]);
      assert original[..recordLen] == head && original[recordLen..] == tail;
      if RegionSurvives(s, original, stored) {
        StripesRecover(s, padded[size..], n - 1, tail, stored[recordLen..]);
        StripeRecovers(s, padded[..size], head, stored[..recordLen]);
        assert padded[..size] + padded[size..] == padded;
      } else {
        StripesRecover(s, padded[size..], n - 1, tail, tail);
      }
    } else {
      assert padded == [];
    }
  }

  lemma CountDown(n: nat, size: nat)
    requires n > 0
    ensures n * size == size + (n - 1) * size
  {
  }

  /**
   * Round trip under erasures: when every stripe has at most `parity` records damaged, each showing in
   * its checksum, and the others intact, reconstruction returns exactly the encoded stream.
   */
  lemma ReconstructAfterDamage(s: Storage, stream: Bytes, original: Bytes, stored: Bytes)
    requires s.layout.Valid() && ErasureCode(s.codec, s.layout.dataShards, s.layout.parityShards)
    requires EncodeRegion(s, stream) == Success(original) && RegionSurvives(s, original, stored)
    ensures ReconstructRegion(s, stored, |stream|) == Success(stream)
  {
    var l := s.layout;
    LayoutPositive(l);
    var n := StripeCount(|stream|, l.DataBytesPerStripe());
    StripesRecover(s, Padded(stream, l), n, original, stored);
    MulCommutes(n, l.StripeRecordLen());
    MultipleIsZero(l.StripeRecordLen(), n);
  }

  lemma {:induction false} NoRecordDamaged(records: seq<Bytes>)
    ensures DamagedRecords(records, records) == 0
  {
    if records != [] {
      NoRecordDamaged(records[1..]);
    }
  }

  /** An undamaged region is within every budget. */
  lemma {:induction false} UndamagedRegion(s: Storage, region: Bytes)
    requires s.layout.Valid()
    ensures RegionSurvives(s, region, region)
    decreases |region|
  {
    LayoutPositive(s.layout);
    var size := s.layout.StripeRecordLen();
    if |region| >= size {
      NoRecordDamaged(Pieces(region[..size], s.layout.ShardRecordLen()));
      UndamagedRegion(s, region[size..]);
    }
  }

  /** The encoded region has exactly the predicted length. */
  lemma EncodedLengthIsPredicted(s: Storage, stream: Bytes)
    requires ErasureCode(s.codec, s.layout.dataShards, s.layout.parityShards)
    requires EncodeRegion(s, stream).Success?
    ensures EncodedPayloadRegionLen(|stream|, s.layout) == Success(|EncodeRegion(s, stream).value|)
  {
    var l, original := s.layout, EncodeRegion(s, stream).value;
    LayoutPositive(l);
    StripesRecover(s, Padded(stream, l), StripeCount(|stream|, l.DataBytesPerStripe()), original, original);
  }

  /** Encoding fails for unsupported shard counts and nothing else. */
  lemma EncodingSucceeds(s: Storage, stream: Bytes)
    requires s.layout.Valid()
    ensures EncodeRegion(s, stream).Success? <==> s.layout.dataShards + s.layout.parityShards <= 256
    ensures EncodeRegion(s, stream).Failure? ==> EncodeRegion(s, stream).error == InvalidFormat
  {
    var l := s.layout;
    LayoutPositive(l);
    var n, size := StripeCount(|stream|, l.DataBytesPerStripe()), l.DataBytesPerStripe();
    assert n > 0 by {
      if |stream| > 0 { StripesCover(|stream|, size); }
    }
    MulMonotone(size, 1, n);
    MulCommutes(n, size);
    StripesEncode(s, Padded(stream, l));
  }

  lemma {:induction false} StripesEncode(s: Storage, padded: Bytes)
    requires s.layout.Valid()
    ensures EncodeStripes(s, padded).Success? <==>
      |padded| < s.layout.DataBytesPerStripe() || Supported(s.layout.dataShards, s.layout.parityShards)
    ensures EncodeStripes(s, padded).Failure? ==> EncodeStripes(s, padded).error == InvalidFormat
    decreases |padded|
  {
    LayoutPositive(s.layout);
    if |padded| >= s.layout.DataBytesPerStripe() {
      SlotsEncode(s, padded[..s.layout.DataBytesPerStripe()]);
      hide EncodeShards, Slots;
      StripesEncode(s, padded[s.layout.DataBytesPerStripe()..]);
    }
  }

  // ---------------------------------------------------------------- when reconstruction fails

  /** How many records hold the checksum of their shard. */
  function Matching(crc: Checksum, records: seq<Bytes>): nat {
    if records == [] then 0
    else
      (if |records[0]| >= 4 && crc(records[0][4..]) == FromLe(records[0][..4]) then 1 else 0) + Matching(crc, records[1..])
  }

  lemma {:induction false} MatchingArePresent(crc: Checksum, records: seq<Bytes>)
    ensures Present(DecodeRecords(crc, records)) == Matching(crc, records)
  {
    if records != [] {
      MatchingArePresent(crc, records[1..]);
      assert DecodeRecords(crc, records)[1..] == DecodeRecords(crc, records[1..]);
    }
  }

  /** Every stripe still has as many undamaged records as it has data shards. */
  predicate WithinBudget(s: Storage, region: Bytes)
    requires s.layout.Valid()
    decreases |region|
  {
    LayoutPositive(s.layout);
    var size := s.layout.StripeRecordLen();
    |region| >= size ==>
      Matching(s.crc, Pieces(region[..size], s.layout.ShardRecordLen())) >= s.layout.dataShards &&
      WithinBudget(s, region[size..])
  }

  /** Whatever is stored, the shards of a stripe are as many as they should be and have one length. */
  lemma DecodedShards(crc: Checksum, stripe: Bytes, l: Layout)
    requires l.Valid() && |stripe| == l.StripeRecordLen()
    ensures var shards := DecodeRecords(crc, Pieces(stripe, l.ShardRecordLen()));
      |shards| == l.TotalShards() && UniformPresent(shards)
  {
    PiecesExact(stripe, l.ShardRecordLen(), l.TotalShards());
  }

  /** For arbitrary stored bytes, reconstruction of the stripes succeeds exactly when no stripe is over its budget. */
  lemma {:induction false} ReconstructionSucceeds(s: Storage, region: Bytes)
    requires s.layout.Valid() && Supported(s.layout.dataShards, s.layout.parityShards)
    ensures ReconstructStripes(s, region).Success? <==> WithinBudget(s, region)
    ensures ReconstructStripes(s, region).Failure? ==> ReconstructStripes(s, region).error == Verification
    decreases |region|
  {
    var l := s.layout;
    LayoutPositive(l);
    var size := l.StripeRecordLen();
    if |region| >= size {
      DecodedShards(s.crc, region[..size], l);
      MatchingArePresent(s.crc, Pieces(region[..size], l.ShardRecordLen()));
      hide DecodeRecords, Pieces, UniformPresent, Matching;
      ReconstructionSucceeds(s, region[size..]);
    }
  }

  /**
   * What the reconstruction of a region reports: parameters out of range are a format error, everything
   * else that goes wrong a verification error; success has the recorded length and no stripe over budget.
   */
  lemma RegionReports(s: Storage, region: Bytes, streamLen: nat)
    ensures var r, l := ReconstructRegion(s, region, streamLen), s.layout;
      && (l.dataShards == 0 || l.parityShards == 0 || l.shardBytes == 0 ==> r == Failure(InvalidFormat))
      && (l.Valid() && |region| % l.StripeRecordLen() != 0 ==> r == Failure(Verification))
      && (l.Valid() && l.dataShards + l.parityShards <= 256 && r.Failure? ==> r.error == Verification)
      && (l.Valid() && l.dataShards + l.parityShards <= 256 && r.Success? ==> |r.value| == streamLen && WithinBudget(s, region))
  {
    if s.layout.Valid() {
      LayoutPositive(s.layout);
      if s.layout.dataShards + s.layout.parityShards <= 256 {
        ReconstructionSucceeds(s, region);
      }
    }
  }

  // ---------------------------------------------------------------- the loops

  /** The result with `out` put in front. */
  function Prefixed(out: Bytes, r: Result<Bytes>): Result<Bytes> {
    match r
    case Failure(e) => Failure(e)
    case Success(tail) => Success(out + tail)
  }

  function ShardAt(stripe: Bytes, start: nat, size: nat): (shard: Bytes)
    ensures |shard| == size
  {
    var end := Min(|stripe|, start + size);
    if start < |stripe| then stripe[start..end] + Zeros(size - (end - start)) else Zeros(size)
  }

  /** The zero-padded shard that starts at `start` is the next piece of the padded stripe. */
  lemma ShardStep(stripe: Bytes, length: nat, start: nat, size: nat, shards: seq<Bytes>)
    requires size > 0 && |stripe| <= length && start + size <= length
    ensures var padded := PadTo(stripe, length);
      (shards + [ShardAt(stripe, start, size)]) + Pieces(padded[start + size..], size)
        == shards + Pieces(padded[start..], size)
  {
    var padded := PadTo(stripe, length);
    assert ShardAt(stripe, start, size) == padded[start..][..size];
    assert padded[start..][size..] == padded[start + size..];
  }

  /** Cuts one stripe of the stream into zero-padded shards. */
  method CutShards(stripe: Bytes, l: Layout) returns (shards: seq<Bytes>)
    requires l.Valid() && |stripe| <= l.DataBytesPerStripe()
    ensures shards == Pieces(PadTo(stripe, l.DataBytesPerStripe()), l.shardBytes)
  {
    var size: nat, count: nat := l.shardBytes, l.dataShards;
    ghost var padded := PadTo(stripe, l.DataBytesPerStripe());
    shards := [];
    assert padded[0..] == padded && [] + Pieces(padded, size) == Pieces(padded, size);
    for index := 0 to count
      invariant index * size <= |padded| == count * size
      invariant shards + Pieces(padded[index * size..], size) == Pieces(padded, size)
    {
      CountUp(index, count, size);
      ShardStep(stripe, |padded|, index * size, size, shards);
      shards := shards + [ShardAt(stripe, index * size, size)];
    }
    assert Pieces(padded[count * size..], size) == [] && shards + [] == shards;
  }

  /** Writes the shards' records one after the other. */
  method WriteRecords(crc: Checksum, shards: seq<Bytes>) returns (out: Bytes)
    ensures out == Concat(Records(crc, shards))
  {
    out := [];
    for i := 0 to |shards|
      invariant out + Concat(Records(crc, shards[i..])) == Concat(Records(crc, shards))
    {
      assert Records(crc, shards[i..])[1..] == Records(crc, shards[i + 1..]);
      AppendAssociates(out, EncodeShardRecord(crc, shards[i]), Concat(Records(crc, shards[i + 1..])));
      out := out + EncodeShardRecord(crc, shards[i]);
    }
  }

  lemma NothingInFront(r: Result<Bytes>)
    ensures Prefixed([], r) == r
  {
    if r.Success? {
      assert [] + r.value == r.value;
    }
  }

  lemma NothingToEncode(s: Storage, rest: Bytes, out: Bytes)
    requires s.layout.Valid() && |rest| < s.layout.DataBytesPerStripe()
    ensures Prefixed(out, EncodeStripes(s, rest)) == Success(out)
  {
    assert out + [] == out;
  }

  lemma NothingToReconstruct(s: Storage, rest: Bytes, out: Bytes)
    requires s.layout.Valid() && |rest| < s.layout.StripeRecordLen()
    ensures Prefixed(out, ReconstructStripes(s, rest)) == Success(out)
  {
    assert out + [] == out;
  }

  lemma EncodeStep(s: Storage, padded: Bytes, out: Bytes)
    requires s.layout.Valid() && |padded| >= s.layout.DataBytesPerStripe()
    ensures var size := s.layout.DataBytesPerStripe();
      match EncodeStripe(s, padded[..size])
      case Failure(e) => Prefixed(out, EncodeStripes(s, padded)) == Failure(e)
      case Success(head) =>
        Prefixed(out, EncodeStripes(s, padded)) == Prefixed(out + head, EncodeStripes(s, padded[size..]))
  {
    LayoutPositive(s.layout);
    var size := s.layout.DataBytesPerStripe();
    if EncodeStripe(s, padded[..size]).Success? && EncodeStripes(s, padded[size..]).Success? {
      AppendAssociates(out, EncodeStripe(s, padded[..size]).value, EncodeStripes(s, padded[size..]).value);
    }
  }

  /** The stripe that starts at `start`, padded, is the next stripe of the padded stream. */
  lemma EncodeStepAt(s: Storage, stream: Bytes, start: nat, out: Bytes)
    requires s.layout.Valid() && start <= |stream|
    requires start + s.layout.DataBytesPerStripe() <= |Padded(stream, s.layout)|
    ensures var size := s.layout.DataBytesPerStripe();
      var rest := Prefixed(out, EncodeStripes(s, Padded(stream, s.layout)[start..]));
      match EncodeStripe(s, PadTo(stream[start..Min(|stream|, start + size)], size))
      case Failure(e) => rest == Failure(e)
      case Success(head) => rest == Prefixed(out + head, EncodeStripes(s, Padded(stream, s.layout)[start + size..]))
  {
    var size, padded := s.layout.DataBytesPerStripe(), Padded(stream, s.layout);
    assert padded[start..][..size] == PadTo(stream[start..Min(|stream|, start + size)], size);
    assert padded[start..][size..] == padded[start + size..];
    EncodeStep(s, padded[start..], out);
  }

  method EncodeOneStripe(s: Storage, stripe: Bytes) returns (r: Result<Bytes>)
    requires s.layout.Valid() && |stripe| <= s.layout.DataBytesPerStripe()
    ensures r == EncodeStripe(s, PadTo(stripe, s.layout.DataBytesPerStripe()))
  {
    var l := s.layout;
    var data := CutShards(stripe, l);
    ghost var slots := Slots(PadTo(stripe, l.DataBytesPerStripe()), l);
    var shards := new Bytes[|data| + l.parityShards](i requires 0 <= i < |data| + l.parityShards =>
      if i < |data| then data[i] else Zeros(l.shardBytes));
    assert shards[..] == slots;
    var encoded := EncodeShardsInPlace(s.codec, l.dataShards, l.parityShards, shards);
    if encoded.Failure? {
      return Failure(encoded.error);
    }
    var records := WriteRecords(s.crc, shards[..]);
    r := Success(records);
  }

  /** Encoding stripe by stripe. */
  method EncodePayloadRegion(s: Storage, stream: Bytes) returns (r: Result<Bytes>)
    ensures r == EncodeRegion(s, stream)
  {
    if !s.layout.Valid() {
      return Failure(InvalidFormat);
    }
    LayoutPositive(s.layout);
    var size := s.layout.DataBytesPerStripe();
    var stripeCount := StripeCount(|stream|, size);
    ghost var padded := Padded(stream, s.layout);
    var out, start: nat := [], 0;
    assert padded[0..] == padded;
    NothingInFront(EncodeStripes(s, padded));
    for index := 0 to stripeCount
      invariant start == index * size <= |padded| == stripeCount * size
      invariant Prefixed(out, EncodeStripes(s, padded[start..])) == EncodeRegion(s, stream)
    {
      CountUp(index, stripeCount, size);
      StripeStartsInside(|stream|, size, index);
      EncodeStepAt(s, stream, start, out);
      var records :- EncodeOneStripe(s, stream[start..Min(|stream|, start + size)]);
      out, start := out + records, start + size;
    }
    NothingToEncode(s, padded[start..], out);
    r := Success(out);
  }

  lemma CountUp(index: nat, count: nat, size: nat)
    requires index < count
    ensures index * size + size == (index + 1) * size <= count * size
  {
    MulMonotone(size, index + 1, count);
  }

  /** Every stripe but the one of an empty stream starts inside the stream. */
  lemma StripeStartsInside(total: nat, size: nat, index: nat)
    requires size > 0 && index < StripeCount(total, size)
    ensures index * size <= total
  {
    if total > 0 {
      var q := (total + size - 1) / size;
      assert size * q <= total + size - 1;
      MulMonotone(size, index + 1, q);
      assert size * (index + 1) == size * index + size;
    }
  }

  /** Decodes the records of one stripe. */
  method DecodeStripeRecords(crc: Checksum, stripe: Bytes, l: Layout) returns (shards: seq<Option<Bytes>>)
    requires |stripe| == l.StripeRecordLen()
    ensures shards == DecodeRecords(crc, Pieces(stripe, l.ShardRecordLen()))
  {
    var records := Pieces(stripe, l.ShardRecordLen());
    PiecesExact(stripe, l.ShardRecordLen(), l.TotalShards());
    shards := [];
    for i := 0 to |records|
      invariant |shards| == i
      invariant forall k :: 0 <= k < i ==> shards[k] == ShardOf(crc, records[k])
    {
      var decoded := DecodeShardRecord(crc, records[i], l.shardBytes);
      shards := shards + [if decoded.Success? then decoded.value else None];
    }
  }

  /** Appends the first shards, the data shards, of a reconstructed stripe. */
  method TakeData(shards: array<Option<Bytes>>, dataShards: nat, ghost all: seq<Bytes>) returns (out: Bytes)
    requires dataShards <= |all| == shards.Length && forall i :: 0 <= i < |all| ==> shards[i] == Some(all[i])
    ensures out == Concat(all[..dataShards])
  {
    out := [];
    ghost var data := all[..dataShards];
    for i := 0 to dataShards
      invariant out + Concat(data[i..]) == Concat(data)
    {
      assert data[i..][1..] == data[i + 1..] && data[i..][0] == all[i];
      AppendAssociates(out, all[i], Concat(data[i + 1..]));
      out := out + shards[i].value;
    }
  }

  lemma ReconstructStep(s: Storage, region: Bytes, out: Bytes)
    requires s.layout.Valid() && |region| >= s.layout.StripeRecordLen()
    ensures var size := s.layout.StripeRecordLen();
      match ReconstructStripe(s, region[..size])
      case Failure(e) => Prefixed(out, ReconstructStripes(s, region)) == Failure(e)
      case Success(head) =>
        Prefixed(out, ReconstructStripes(s, region)) == Prefixed(out + head, ReconstructStripes(s, region[size..]))
  {
    LayoutPositive(s.layout);
    var size := s.layout.StripeRecordLen();
    if ReconstructStripe(s, region[..size]).Success? && ReconstructStripes(s, region[size..]).Success? {
      AppendAssociates(out, ReconstructStripe(s, region[..size]).value, ReconstructStripes(s, region[size..]).value);
    }
  }

  method ReconstructOneStripe(s: Storage, stored: Bytes) returns (r: Result<Bytes>)
    requires |stored| == s.layout.StripeRecordLen()
    ensures r == ReconstructStripe(s, stored)
  {
    var l := s.layout;
    var decoded := DecodeStripeRecords(s.crc, stored, l);
    var shards := new Option<Bytes>[|decoded|](i requires 0 <= i < |decoded| => decoded[i]);
    assert shards[..] == decoded;
    var filled := ReconstructShardsInPlace(s.codec, l.dataShards, l.parityShards, shards);
    if filled.Failure? {
      return Failure(filled.error);
    }
    ghost var all := ReconstructShards(s.codec, l.dataShards, l.parityShards, decoded).value;
    var data := TakeData(shards, l.dataShards, all);
    r := Success(data);
  }

  /** Reconstruction stripe by stripe, trimmed to the recorded stream length. */
  method ReconstructPayloadRegion(s: Storage, region: Bytes, streamLen: nat) returns (r: Result<Bytes>)
    ensures r == ReconstructRegion(s, region, streamLen)
  {
    if !s.layout.Valid() {
      return Failure(InvalidFormat);
    }
    LayoutPositive(s.layout);
    var size := s.layout.StripeRecordLen();
    if |region| % size != 0 {
      return Failure(Verification);
    }
    var recovered, rest := [], region;
    NothingInFront(ReconstructStripes(s, region));
    while |rest| >= size
      invariant Prefixed(recovered, ReconstructStripes(s, rest)) == ReconstructStripes(s, region)
    {
      ReconstructStep(s, rest, recovered);
      var data :- ReconstructOneStripe(s, rest[..size]);
      recovered, rest := recovered + data, rest[size..];
    }
    NothingToReconstruct(s, rest, recovered);
    if |recovered| < streamLen {
      return Failure(Verification);
    }
    r := Success(recovered[..streamLen]);
  }
}

// The stored bytes, field by field, as docs/binary-file-format.md lays them out.
module Format {
  import opened Base
  import opened NumberTheory
  import opened ChunkFrame
  import opened ProtectedStream
  import ReedSolomon
  import opened PayloadRegion
  import opened PasswordProtection
  import opened SuperblockBody
  import opened Superblock
  import opened Notice
  import opened Reader

  // ---------------------------------------------------------------- the file

  lemma Magics()
    ensures FILE_MAGIC == Ascii("TLCK") && START_MAGIC == Ascii("TLSB") && END_MAGIC == Ascii("TLEB")
    ensures AAD_DOMAIN == Ascii("TLCK-CHUNK-AD-v1")
  {
  }

  /** Sections 1 and 2: magic and notice, start superblock, payload region, end superblock. */
  lemma FileLayout(crc: Superblock.Checksum, notice: Bytes, body: Bytes, region: Bytes)
    ensures var noticePart := Ascii("TLCK") + Le(|notice|, 2) + notice;
      var start := Ascii("TLSB") + Le(|body|, 4) + Le(crc(body), 4) + body;
      var end := body + (Le(crc(body), 4) + Le(|body|, 4) + Ascii("TLEB"));
      ArtifactBytes(crc, notice, body, region) == noticePart + (start + (region + end))
  {
    hide Le, Ascii;
    Magics();
  }

  /** Section 3: the fields of the superblock body, in their order and widths. */
  lemma BodyLayout(b: Body)
    ensures var f, m := b.fixed, b.material;
      var sizes := [f.bodyVersion] + Le(f.flags, 2) + Le(f.payloadPlaintextBytes, 8) + Le(f.protectedStreamLen, 8)
        + Le(f.payloadRegionLen, 8) + Le(f.aeadChunkSizeBytes, 4);
      var codecs := [f.aeadCipherId] + [f.rsAlgorithmId] + Le(f.rsDataShards, 2) + Le(f.rsParityShards, 2)
        + Le(f.rsShardBytes, 4) + [f.timelockAlgorithmId];
      var (present, target) := match f.targetSeconds case None => (0, 0) case Some(t) => (1, t);
      var puzzle := Le(f.iterations, 8) + Le(f.modulusBits, 2) + [present] + Le(target, 8) + Le(f.createdAtUnixSeconds, 8);
      var name := match b.originalFilename case None => [] case Some(name) => name;
      var names := (Le(|name|, 2) + name, Le(|b.hardwareProfile|, 2) + b.hardwareProfile);
      var n, a := ToBe(m.modulusN), ToBe(m.baseA);
      var material := (Le(|n|, 4) + n) + ((Le(|a|, 4) + a) + m.wrappedKey);
      BodyBytes(b) == (sizes + codecs + puzzle) + (names.0 + (names.1 + (material + ProtectionLayout(b.password))))
  {
    hide Le, ToBe;
  }

  /** The extension of version 2. */
  function ProtectionLayout(password: Option<PasswordMetadata>): Bytes {
    match password
    case None => []
    case Some(p) =>
      [if p.keyProtection.TimelockOnly? then 1 else 2] + [1] + Le(p.params.memoryKib, 4) + Le(p.params.iterations, 4)
        + Le(p.params.parallelism, 4) + (Le(|p.params.salt|, 2) + p.params.salt)
  }

  // ---------------------------------------------------------------- the protected stream

  /** Section 4: what a chunk is bound to. */
  lemma AadLayout(digest: Key, index: u64, plaintextLen: u32, isLast: bool)
    ensures ChunkAad(digest, index, plaintextLen, isLast)
         == Ascii("TLCK-CHUNK-AD-v1") + digest + Le(index, 8) + Le(plaintextLen, 4) + [if isLast then 1 else 0]
  {
    hide Le, Ascii;
    Magics();
  }

  lemma StreamHead(s: Sealing, index: nat, chunks: seq<Bytes>)
    requires AppendsTag(s.aead) && chunks != []
    ensures var head := ChunkBytes(s, index, chunks[0], |chunks| == 1);
      StreamFrom(s, index, chunks) == head + StreamFrom(s, index + 1, chunks[1..]) && |head| == 57 + |chunks[0]|
  {
    hide Le, ChunkAad;
    FrameFields(ChunkHeader(s, index, chunks[0], |chunks| == 1), SealChunk(s, index, chunks[0], |chunks| == 1).ciphertext);
  }

  lemma {:induction false} StreamSuffix(s: Sealing, index: nat, chunks: seq<Bytes>, i: nat) returns (at: nat)
    requires AppendsTag(s.aead) && i <= |chunks|
    ensures at == |Concat(chunks[..i])| + 57 * i <= |StreamFrom(s, index, chunks)|
    ensures StreamFrom(s, index, chunks)[at..] == StreamFrom(s, index + i, chunks[i..])
    decreases i
  {
    hide StreamFrom, ChunkBytes, AppendsTag;
    if i == 0 {
      at := 0;
      assert chunks[..0] == [] && chunks[0..] == chunks;
    } else {
      var rest := StreamSuffix(s, index + 1, chunks[1..], i - 1);
      StreamHead(s, index, chunks);
      var head := ChunkBytes(s, index, chunks[0], |chunks| == 1);
      at := |head| + rest;
      assert chunks[..i][0] == chunks[0] && chunks[..i][1..] == chunks[1..][..i - 1];
      assert chunks[1..][i - 1..] == chunks[i..];
      DropHead(head, StreamFrom(s, index + 1, chunks[1..]), rest);
    }
  }

  lemma DropHead(head: Bytes, tail: Bytes, n: nat)
    requires n <= |tail|
    ensures (head + tail)[|head| + n..] == tail[n..]
  {
  }

  /**
   * Section 5, layer A: chunk i lies after the chunks before it and 57 bytes for each of them, as the frame
   * of its own index, terminal flag, lengths and nonce, with the chunk sealed under all of these.
   */
  lemma ChunkAt(s: Sealing, chunks: seq<Bytes>, i: nat) returns (at: nat)
    requires AppendsTag(s.aead) && i < |chunks| <= 0x1_0000_0000_0000_0000 && FitFrames(chunks)
    ensures at == |Concat(chunks[..i])| + 57 * i
    ensures var chunk, isLast := chunks[i], if i == |chunks| - 1 then 1 else 0;
      var aad := Ascii("TLCK-CHUNK-AD-v1") + s.digest + Le(i, 8) + Le(|chunk|, 4) + [isLast];
      var frame := Le(i, 8) + [isLast] + Le(|chunk|, 4) + Le(|chunk| + 16, 4) + s.nonces(i)
        + s.aead.seal(s.key, s.nonces(i), aad, chunk);
      && at + |frame| <= |StreamFrom(s, 0, chunks)| && StreamFrom(s, 0, chunks)[at..at + |frame|] == frame
      && |frame| == |chunk| + 57
  {
    hide Le, Ascii, ChunkBytes, StreamFrom, ChunkAad, AppendsTag;
    at := StreamSuffix(s, 0, chunks, i);
    StreamHead(s, i, chunks[i..]);
    AadLayout(s.digest, i, |chunks[i]|, i == |chunks| - 1);
    FrameIs(s, i, chunks[i], i == |chunks| - 1);
    var head := ChunkBytes(s, i, chunks[i], i == |chunks| - 1);
    assert chunks[i..][0] == chunks[i];
    assert StreamFrom(s, 0, chunks)[at..at + |head|] == StreamFrom(s, 0, chunks)[at..][..|head|];
  }

  lemma HeaderIs(s: Sealing, i: nat, chunk: Bytes, isLast: bool)
    requires AppendsTag(s.aead) && i < 0x1_0000_0000_0000_0000 && |chunk| + 16 < 0x1_0000_0000
    ensures ChunkHeader(s, i, chunk, isLast) == FrameHeader(i, isLast, |chunk|, |chunk| + 16, s.nonces(i))
    ensures var c := SealChunk(s, i, chunk, isLast).ciphertext;
      && |c| == |chunk| + 16
      && c == s.aead.seal(s.key, s.nonces(i), ChunkAad(s.digest, i, |chunk|, isLast), chunk)
  {
    hide ChunkAad;
  }

  lemma FrameIs(s: Sealing, i: nat, chunk: Bytes, isLast: bool)
    requires AppendsTag(s.aead) && i < 0x1_0000_0000_0000_0000 && |chunk| + 16 < 0x1_0000_0000
    ensures ChunkBytes(s, i, chunk, isLast)
         == Le(i, 8) + [if isLast then 1 else 0] + Le(|chunk|, 4) + Le(|chunk| + 16, 4) + s.nonces(i)
              + s.aead.seal(s.key, s.nonces(i), ChunkAad(s.digest, i, |chunk|, isLast), chunk)
    ensures |ChunkBytes(s, i, chunk, isLast)| == |chunk| + 57
  {
    hide Le, ChunkAad, SealChunk, ChunkHeader, AppendsTag;
    HeaderIs(s, i, chunk, isLast);
  }

  // ---------------------------------------------------------------- the payload region

  /** Data shard j of stripe i: its share of the stream, and zeros behind the end of the stream. */
  function DataShard(stream: Bytes, l: Layout, i: nat, j: nat): (shard: Bytes)
    ensures |shard| == l.shardBytes
  {
    seq(l.shardBytes, k requires 0 <= k < l.shardBytes =>
      var at := (i * l.dataShards + j) * l.shardBytes + k;
      if 0 <= at < |stream| then stream[at] else 0)
  }

  function DataShards(stream: Bytes, l: Layout, i: nat): (shards: seq<Bytes>)
    ensures |shards| == l.dataShards
  {
    seq(l.dataShards, j requires 0 <= j < l.dataShards => DataShard(stream, l, i, j))
  }

  lemma {:induction false} PieceAt(bytes: Bytes, size: nat, j: nat)
    requires size > 0 && (j + 1) * size <= |bytes|
    ensures 0 <= j * size && j < |Pieces(bytes, size)| && Pieces(bytes, size)[j] == bytes[j * size..(j + 1) * size]
    decreases j
  {
    if j > 0 {
      assert j * size == (j - 1) * size + size && (j + 1) * size == j * size + size;
      assert j * size >= size by { MulMonotone(size, 1, j); }
      PieceAt(bytes[size..], size, j - 1);
      assert bytes[size..][(j - 1) * size..j * size] == bytes[j * size..(j + 1) * size];
    }
  }

  lemma {:induction false} StripeAt(s: Storage, padded: Bytes, n: nat, region: Bytes, i: nat)
    requires s.layout.Valid() && |padded| == n * s.layout.DataBytesPerStripe() && i < n
    requires ReedSolomon.ErasureCode(s.codec, s.layout.dataShards, s.layout.parityShards)
    requires EncodeStripes(s, padded) == Success(region)
    ensures var size, length := s.layout.DataBytesPerStripe(), s.layout.StripeRecordLen();
      && 0 <= i * size <= (i + 1) * size <= |padded| && 0 <= i * length <= (i + 1) * length <= |region|
      && EncodeStripe(s, padded[i * size..(i + 1) * size]) == Success(region[i * length..(i + 1) * length])
    decreases i
  {
    var size, length := s.layout.DataBytesPerStripe(), s.layout.StripeRecordLen();
    LayoutPositive(s.layout);
    CountDown(n, size);
    CountDown(n, length);
    StripesRecover(s, padded, n, region, region);
    EncodedStripeLength(s, padded[..size]);
    var head, tail := EncodeStripe(s, padded[..size]).value, EncodeStripes(s, padded[size..]).value;
    assert region[..length] == head && region[length..] == tail;
    if i > 0 {
      StripeAt(s, padded[size..], n - 1, tail, i - 1);
      CountDown(i, size);
      CountDown(i, length);
      CountDown(i + 1, size);
      CountDown(i + 1, length);
      SliceOfRest(padded, size, (i - 1) * size, i * size);
      SliceOfRest(region, length, (i - 1) * length, i * length);
    }
  }

  lemma SliceOfRest(bytes: Bytes, from: nat, low: nat, high: nat)
    requires from <= |bytes| && low <= high <= |bytes| - from
    ensures bytes[from..][low..high] == bytes[from + low..from + high]
  {
  }

  /** The data slots of a padded stripe are its data shards. */
  lemma StripeSlots(s: Storage, stream: Bytes, i: nat)
    requires s.layout.Valid() && i < StripeCount(|stream|, s.layout.DataBytesPerStripe())
    ensures var size := s.layout.DataBytesPerStripe();
      && 0 <= i * size <= (i + 1) * size <= |Padded(stream, s.layout)|
      && var slots := Slots(Padded(stream, s.layout)[i * size..(i + 1) * size], s.layout);
      |slots| == s.layout.TotalShards() && slots[..s.layout.dataShards] == DataShards(stream, s.layout, i)
  {
    var l, padded := s.layout, Padded(stream, s.layout);
    var size := l.DataBytesPerStripe();
    LayoutPositive(l);
    MulMonotone(size, i + 1, StripeCount(|stream|, size));
    var stripe := padded[i * size..(i + 1) * size];
    assert |stripe| == size by { CountDown(i + 1, size); }
    PiecesExact(stripe, l.shardBytes, l.dataShards);
    forall j | 0 <= j < l.dataShards
      ensures Slots(stripe, l)[j] == DataShard(stream, l, i, j)
    {
      SlotIsShard(stream, l, i, j);
    }
  }

  lemma SlotIsShard(stream: Bytes, l: Layout, i: nat, j: nat)
    requires l.Valid() && j < l.dataShards && i < StripeCount(|stream|, l.DataBytesPerStripe())
    requires 0 <= i * l.DataBytesPerStripe() <= (i + 1) * l.DataBytesPerStripe() <= |Padded(stream, l)|
    ensures var stripe := Padded(stream, l)[i * l.DataBytesPerStripe()..(i + 1) * l.DataBytesPerStripe()];
      j < |Pieces(stripe, l.shardBytes)| && Pieces(stripe, l.shardBytes)[j] == DataShard(stream, l, i, j)
  {
    var size, padded := l.DataBytesPerStripe(), Padded(stream, l);
    var stripe := padded[i * size..(i + 1) * size];
    CountDown(i + 1, size);
    MulMonotone(l.shardBytes, j + 1, l.dataShards);
    MulCommutes(l.shardBytes, j + 1);
    MulCommutes(l.shardBytes, l.dataShards);
    PieceAt(stripe, l.shardBytes, j);
    var piece, shard := Pieces(stripe, l.shardBytes)[j], DataShard(stream, l, i, j);
    CountDown(j + 1, l.shardBytes);
    forall k | 0 <= k < l.shardBytes
      ensures piece[k] == shard[k]
    {
      Distribute(i, l.dataShards, j, l.shardBytes);
      var at := i * size + (j * l.shardBytes + k);
      assert piece[k] == stripe[j * l.shardBytes + k] == padded[at];
      PaddedByte(stream, l, at);
    }
  }

  lemma Distribute(i: nat, d: nat, j: nat, size: nat)
    ensures (i * d + j) * size == i * (d * size) + j * size
  {
  }

  /** What is stored behind the stream is zeros. */
  lemma PaddedByte(stream: Bytes, l: Layout, at: nat)
    requires l.Valid() && at < |Padded(stream, l)|
    ensures Padded(stream, l)[at] == if at < |stream| then stream[at] else 0
  {
  }

  /**
   * Section 5, layer B: record j of stripe i lies after all records before it, as the checksum of its shard
   * and the shard; the data shards are the stream in order, zero-padded, and the parity shards that follow
   * them are those of just these data shards.
   */
  lemma RecordAt(s: Storage, stream: Bytes, region: Bytes, i: nat, j: nat)
    requires s.layout.Valid() && ReedSolomon.ErasureCode(s.codec, s.layout.dataShards, s.layout.parityShards)
    requires EncodeRegion(s, stream) == Success(region)
    requires i < StripeCount(|stream|, s.layout.DataBytesPerStripe()) && j < s.layout.dataShards + s.layout.parityShards
    ensures var l := s.layout;
      var data := DataShards(stream, l, i);
      var shard := if j < l.dataShards then data[j] else s.codec.parity(l.dataShards, l.parityShards, data, j - l.dataShards);
      var at := (i * (l.dataShards + l.parityShards) + j) * (4 + l.shardBytes);
      && |shard| == l.shardBytes && 0 <= at <= |region| - (4 + l.shardBytes)
      && region[at..at + 4 + l.shardBytes] == Le(s.crc(shard), 4) + shard
  {
    hide EncodeStripe, Slots, ReedSolomon.ErasureCode, DataShards, StripeCount, EncodeRegion, Le;
    var l := s.layout;
    var stripe, stored := StoredStripe(s, stream, region, i);
    RecordInStripe(s, stripe, stored, j);
    RecordSlice(region, i, l.TotalShards(), j, l.ShardRecordLen());
  }

  /** Stripe i of the region is the encoding of slots that begin with its data shards. */
  lemma StoredStripe(s: Storage, stream: Bytes, region: Bytes, i: nat) returns (stripe: Bytes, stored: Bytes)
    requires s.layout.Valid() && ReedSolomon.ErasureCode(s.codec, s.layout.dataShards, s.layout.parityShards)
    requires EncodeRegion(s, stream) == Success(region) && i < StripeCount(|stream|, s.layout.DataBytesPerStripe())
    ensures var l := s.layout;
      && |stripe| == l.DataBytesPerStripe() && EncodeStripe(s, stripe) == Success(stored)
      && |Slots(stripe, l)| == l.TotalShards() && Slots(stripe, l)[..l.dataShards] == DataShards(stream, l, i)
      && 0 <= i * l.StripeRecordLen() <= (i + 1) * l.StripeRecordLen() <= |region|
      && stored == region[i * l.StripeRecordLen()..(i + 1) * l.StripeRecordLen()]
  {
    hide EncodeStripe, Padded, Slots, ReedSolomon.ErasureCode, DataShards, StripeCount, EncodeStripes;
    var l := s.layout;
    var size, length := l.DataBytesPerStripe(), l.StripeRecordLen();
    PaddedLength(stream, l);
    StripeAt(s, Padded(stream, l), StripeCount(|stream|, size), region, i);
    StripeSlots(s, stream, i);
    CountDown(i + 1, size);
    stripe, stored := Padded(stream, l)[i * size..(i + 1) * size], region[i * length..(i + 1) * length];
  }

  lemma RecordSlice(region: Bytes, i: nat, total: nat, j: nat, size: nat)
    requires j < total && 0 <= i * (total * size) <= (i + 1) * (total * size) <= |region|
    ensures var low, high, at := i * (total * size), (i + 1) * (total * size), (i * total + j) * size;
      && 0 <= j * size && j * size + size <= high - low && 0 <= at == low + j * size && at + size <= |region|
      && region[low..high][j * size..j * size + size] == region[at..at + size]
  {
    CountDown(i + 1, total * size);
    Distribute(i, total, j, size);
    MulMonotone(size, j + 1, total);
    MulCommutes(size, j + 1);
    MulCommutes(size, total);
    CountDown(j + 1, size);
    assert j * size >= 0;
    InnerSlice(region, i * (total * size), (i + 1) * (total * size), j * size, size);
  }

  lemma InnerSlice(bytes: Bytes, low: nat, high: nat, at: nat, size: nat)
    requires low <= high <= |bytes| && at + size <= high - low
    ensures bytes[low..high][at..at + size] == bytes[low + at..low + at + size]
  {
    var outer, inner := bytes[low..high], bytes[low + at..low + at + size];
    assert forall k :: 0 <= k < size ==> outer[at..at + size][k] == outer[at + k] == inner[k];
  }

  lemma PaddedLength(stream: Bytes, l: Layout)
    requires l.Valid()
    ensures |Padded(stream, l)| == StripeCount(|stream|, l.DataBytesPerStripe()) * l.DataBytesPerStripe()
  {
  }

  lemma RecordInStripe(s: Storage, stripe: Bytes, stored: Bytes, j: nat)
    requires s.layout.Valid() && ReedSolomon.ErasureCode(s.codec, s.layout.dataShards, s.layout.parityShards)
    requires |stripe| == s.layout.DataBytesPerStripe() && EncodeStripe(s, stripe) == Success(stored)
    requires j < s.layout.TotalShards() && |Slots(stripe, s.layout)| == s.layout.TotalShards()
    ensures var l := s.layout;
      var data := Slots(stripe, l)[..l.dataShards];
      var shard := if j < l.dataShards then data[j] else s.codec.parity(l.dataShards, l.parityShards, data, j - l.dataShards);
      var at := j * l.ShardRecordLen();
      && |shard| == l.shardBytes && |stored| == l.StripeRecordLen() && 0 <= at <= |stored| - l.ShardRecordLen()
      && stored[at..at + l.ShardRecordLen()] == Le(s.crc(shard), 4) + shard
  {
    var l, slots := s.layout, Slots(stripe, s.layout);
    SlotsEncode(s, stripe);
    hide Slots, Pieces, ReedSolomon.ErasureCode;
    ReedSolomon.EncodedShape(s.codec, l.dataShards, l.parityShards, slots);
    var all := ReedSolomon.EncodeShards(s.codec, l.dataShards, l.parityShards, slots).value;
    RecordShape(s.crc, all, l.shardBytes);
    PiecesOfConcat(Records(s.crc, all), l.ShardRecordLen());
    MulMonotone(l.ShardRecordLen(), j + 1, l.TotalShards());
    MulCommutes(l.ShardRecordLen(), j + 1);
    MulCommutes(l.ShardRecordLen(), l.TotalShards());
    CountDown(j + 1, l.ShardRecordLen());
    PieceAt(stored, l.ShardRecordLen(), j);
  }
}

// Chunked authenticated encryption of the payload: the protected stream.
module ProtectedStream {
  import opened Base
  import opened Streams
  import opened ChunkFrame
  import opened NumberTheory

  // ---------------------------------------------------------------- the cipher

  /** The AEAD as two functions of key, nonce, associated data and message or ciphertext. */
  datatype Aead = Aead(
    seal: (Key, Nonce, Bytes, Bytes) -> Bytes,
    open: (Key, Nonce, Bytes, Bytes) -> Option<Bytes>)

  /** One sealing: the only tuples an ideal cipher opens. */
  datatype Sealed = Sealed(key: Key, nonce: Nonce, aad: Bytes, message: Bytes, ciphertext: Bytes)

  /** A ciphertext is its message plus the 16-byte tag (section 2.8 of RFC 8439). */
  ghost predicate AppendsTag(aead: Aead) {
    forall k, n, a, m :: |aead.seal(k, n, a, m)| == |m| + AEAD_TAG_BYTES
  }

  /** Decryption returns a message exactly when that tuple was sealed. */
  ghost predicate Ideal(aead: Aead, log: set<Sealed>) {
    && (forall e :: e in log ==> aead.open(e.key, e.nonce, e.aad, e.ciphertext) == Some(e.message))
    && (forall k, n, a, c :: aead.open(k, n, a, c).Some? ==> Sealed(k, n, a, aead.open(k, n, a, c).value, c) in log)
  }

  // ---------------------------------------------------------------- the stream that encryption writes

  datatype ChunkStats = ChunkStats(chunkCount: nat, plaintextBytes: nat)

  /** The successive nonempty reads of a source; the i-th read hands over at most limit(i) bytes. */
  function ReadChunks(data: Bytes, limit: nat -> nat, call: nat, chunkSize: nat): (chunks: seq<Bytes>)
    requires chunkSize > 0
    decreases |data|
  {
    if data == [] then []
    else
      var n := ReadSize(chunkSize, |data|, limit(call));
      [data[..n]] + ReadChunks(data[n..], limit, call + 1, chunkSize)
  }

  /** An empty plaintext still has one, terminal, chunk. */
  function Terminated(chunks: seq<Bytes>): (r: seq<Bytes>)
    ensures |r| > 0
  {
    if chunks == [] then [[]] else chunks
  }

  /** Chunk lengths a stream may have: nothing above the chunk size, nothing empty but a lone terminal chunk. */
  ghost predicate WellSized(chunks: seq<Bytes>, chunkSize: nat) {
    forall i :: 0 <= i < |chunks| ==> |chunks[i]| <= chunkSize && (i < |chunks| - 1 ==> |chunks[i]| > 0)
  }

  /** A file key, the superblock digest it is used with, and the nonces drawn for the chunks. */
  datatype Sealing = Sealing(aead: Aead, key: Key, digest: Key, nonces: nat -> Nonce)

  function SealChunk(s: Sealing, index: nat, chunk: Bytes, isLast: bool): Sealed {
    var aad := ChunkAad(s.digest, index % 0x1_0000_0000_0000_0000, |chunk| % 0x1_0000_0000, isLast);
    Sealed(s.key, s.nonces(index), aad, chunk, s.aead.seal(s.key, s.nonces(index), aad, chunk))
  }

  /** The frame of a chunk; lengths are cast to u32. */
  function ChunkHeader(s: Sealing, index: nat, chunk: Bytes, isLast: bool): FrameHeader {
    FrameHeader(index % 0x1_0000_0000_0000_0000, isLast, |chunk| % 0x1_0000_0000,
                |SealChunk(s, index, chunk, isLast).ciphertext| % 0x1_0000_0000, s.nonces(index))
  }

  function ChunkBytes(s: Sealing, index: nat, chunk: Bytes, isLast: bool): Bytes {
    EncodeFrame(ChunkHeader(s, index, chunk, isLast), SealChunk(s, index, chunk, isLast).ciphertext)
  }

  /** The stream for the chunks from `index` on; the last of them is marked terminal. */
  function StreamFrom(s: Sealing, index: nat, chunks: seq<Bytes>): Bytes
    decreases |chunks|
  {
    if chunks == [] then []
    else ChunkBytes(s, index, chunks[0], |chunks| == 1) + StreamFrom(s, index + 1, chunks[1..])
  }

  /** No chunk is so long that its ciphertext length does not fit u32. */
  ghost predicate FitFrames(chunks: seq<Bytes>) {
    forall i :: 0 <= i < |chunks| ==> |chunks[i]| + AEAD_TAG_BYTES < 0x1_0000_0000
  }

  lemma {:induction false} ReadChunksConcat(data: Bytes, limit: nat -> nat, call: nat, chunkSize: nat)
    requires chunkSize > 0
    ensures var chunks := ReadChunks(data, limit, call, chunkSize);
      && Concat(chunks) == data
      && (forall i :: 0 <= i < |chunks| ==> 0 < |chunks[i]| <= chunkSize)
    decreases |data|
  {
    if data != [] {
      var n := ReadSize(chunkSize, |data|, limit(call));
      ReadChunksConcat(data[n..], limit, call + 1, chunkSize);
      assert ReadChunks(data, limit, call, chunkSize)[1..] == ReadChunks(data[n..], limit, call + 1, chunkSize);
      assert data[..n] + data[n..] == data;
    }
  }

  /** Whatever the schedule of short reads, the chunks are the plaintext cut into pieces. */
  lemma ReadChunksSound(data: Bytes, limit: nat -> nat, call: nat, chunkSize: nat)
    requires chunkSize > 0
    ensures var chunks := Terminated(ReadChunks(data, limit, call, chunkSize));
      Concat(chunks) == data && WellSized(chunks, chunkSize)
  {
    ReadChunksConcat(data, limit, call, chunkSize);
  }

  /** A reader that fills the buffer until the end of input. */
  ghost predicate FillsBuffer(limit: nat -> nat, chunkSize: nat) {
    forall i :: limit(i) >= chunkSize
  }

  /** By how many bytes the reads of that many bytes stay below the buffer, altogether. */
  function Shortfall(available: nat, limit: nat -> nat, call: nat, chunkSize: nat): nat
    requires chunkSize > 0
    decreases available
  {
    if available == 0 then 0
    else
      var n := ReadSize(chunkSize, available, limit(call));
      chunkSize - n + Shortfall(available - n, limit, call + 1, chunkSize)
  }

  lemma {:induction false} ChunksAndShortfall(data: Bytes, limit: nat -> nat, call: nat, chunkSize: nat)
    requires chunkSize > 0
    ensures chunkSize * |ReadChunks(data, limit, call, chunkSize)| == |data| + Shortfall(|data|, limit, call, chunkSize)
    ensures FillsBuffer(limit, chunkSize) ==> Shortfall(|data|, limit, call, chunkSize) < chunkSize
    decreases |data|
  {
    if data != [] {
      var n := ReadSize(chunkSize, |data|, limit(call));
      ChunksAndShortfall(data[n..], limit, call + 1, chunkSize);
      var k := |ReadChunks(data[n..], limit, call + 1, chunkSize)|;
      assert chunkSize * (k + 1) == chunkSize * k + chunkSize;
      if FillsBuffer(limit, chunkSize) && n == |data| {
        assert Shortfall(0, limit, call + 1, chunkSize) == 0;
      }
    }
  }

  /**
   * No schedule needs fewer chunks than the plaintext length over the chunk size, and one needs exactly
   * as many just when its reads together stay below the buffer by less than one chunk.
   */
  lemma ChunkCount(data: Bytes, limit: nat -> nat, call: nat, chunkSize: nat)
    requires chunkSize > 0
    ensures |ReadChunks(data, limit, call, chunkSize)| >= CeilDiv(|data|, chunkSize)
    ensures |ReadChunks(data, limit, call, chunkSize)| == CeilDiv(|data|, chunkSize) <==>
              Shortfall(|data|, limit, call, chunkSize) < chunkSize
    ensures FillsBuffer(limit, chunkSize) ==> |ReadChunks(data, limit, call, chunkSize)| == CeilDiv(|data|, chunkSize)
  {
    var k := |ReadChunks(data, limit, call, chunkSize)|;
    ChunksAndShortfall(data, limit, call, chunkSize);
    CeilDivIsLeast(|data|, chunkSize, k);
  }

  lemma CeilDivIsLeast(a: nat, c: nat, k: nat)
    requires c > 0 && c * k >= a
    ensures k >= CeilDiv(a, c)
    ensures c * k < a + c <==> k == CeilDiv(a, c)
  {
    var q := CeilDiv(a, c);
    assert c * q <= a + c - 1;
    if q > k {
      MulMonotone(c, k + 1, q);
      assert c * (k + 1) == c * k + c;
    }
    if c * k < a + c {
      DivModUnique(a + c - 1, c, k, a + c - 1 - c * k);
    }
  }

  /** Every chunk costs a 41-byte header and a 16-byte tag. */
  lemma {:induction false} StreamLength(s: Sealing, index: nat, chunks: seq<Bytes>)
    requires AppendsTag(s.aead)
    ensures |StreamFrom(s, index, chunks)| == |Concat(chunks)| + 57 * |chunks|
    decreases |chunks|
  {
    if chunks != [] {
      StreamLength(s, index + 1, chunks[1..]);
    }
  }

  // ---------------------------------------------------------------- encrypting

  lemma StreamCons(s: Sealing, index: nat, chunk: Bytes, rest: seq<Bytes>)
    ensures StreamFrom(s, index, [chunk] + rest)
         == ChunkBytes(s, index, chunk, rest == []) + StreamFrom(s, index + 1, rest)
  {
    assert ([chunk] + rest)[1..] == rest;
  }

  lemma FitCons(chunk: Bytes, rest: seq<Bytes>)
    ensures FitFrames([chunk] + rest) <==> |chunk| + AEAD_TAG_BYTES < 0x1_0000_0000 && FitFrames(rest)
    ensures rest == [] ==> FitFrames(rest)
  {
    var all := [chunk] + rest;
    assert forall i :: 0 <= i < |rest| ==> all[i + 1] == rest[i];
    assert all[0] == chunk;
  }

  /** Sealing a chunk and writing its frame; refused when the length does not fit. */
  method WriteChunk(writer: ByteWriter, s: Sealing, index: nat, chunk: Bytes, isLast: bool) returns (r: Result<()>)
    requires AppendsTag(s.aead)
    modifies writer
    ensures r == if |chunk| + AEAD_TAG_BYTES < 0x1_0000_0000 then Success(()) else Failure(InvalidArgument)
    ensures r.Success? ==> writer.written == old(writer.written) + ChunkBytes(s, index, chunk, isLast)
  {
    var sealed := SealChunk(s, index, chunk, isLast);
    assert |sealed.ciphertext| == |chunk| + AEAD_TAG_BYTES;
    r := WriteChunkFrame(writer, ChunkHeader(s, index, chunk, isLast), sealed.ciphertext);
  }

  /** One read of a chunk; an empty one ends the input. */
  method ReadChunk(reader: ByteReader, chunkSize: nat) returns (chunk: Bytes)
    requires reader.Valid() && chunkSize > 0
    modifies reader
    ensures reader.Valid() && |chunk| + |reader.Remaining()| == |old(reader.Remaining())|
    ensures chunk == [] ==> reader.Remaining() == []
    ensures ReadChunks(old(reader.Remaining()), reader.limit, old(reader.calls), chunkSize)
         == if chunk == [] then [] else [chunk] + ReadChunks(reader.Remaining(), reader.limit, reader.calls, chunkSize)
  {
    chunk := reader.Read(chunkSize);
  }

  /** Writing the frame of one chunk moves it from the stream still to come to the stream written. */
  lemma StreamStep(s: Sealing, index: nat, chunk: Bytes, rest: seq<Bytes>, written: Bytes, whole: Bytes)
    requires written + StreamFrom(s, index, [chunk] + rest) == whole
    ensures (written + ChunkBytes(s, index, chunk, rest == [])) + StreamFrom(s, index + 1, rest) == whole
    ensures rest == [] ==> written + ChunkBytes(s, index, chunk, true) == whole
  {
    StreamCons(s, index, chunk, rest);
  }

  /** The look-ahead loop, entered with a first nonempty chunk in hand. */
  method EncryptChunks(reader: ByteReader, writer: ByteWriter, s: Sealing, chunkSize: nat, first: Bytes,
                       cancelled: nat -> bool, ghost all: seq<Bytes>)
    returns (r: Result<ChunkStats>)
    requires reader.Valid() && AppendsTag(s.aead) && chunkSize > 0
    requires all == [first] + ReadChunks(reader.Remaining(), reader.limit, reader.calls, chunkSize)
    modifies reader, writer
    ensures r.Success? ==> writer.written == old(writer.written) + StreamFrom(s, 0, all) && FitFrames(all)
    ensures r.Success? ==> r.value == ChunkStats(|all|, |first| + |old(reader.Remaining())|)
    ensures r.Success? ==> forall i :: 1 <= i <= |all| ==> !cancelled(i)
    ensures r.Failure? ==> (r.error == Cancelled && exists i :: cancelled(i)) || (r.error == InvalidArgument && !FitFrames(all))
  {
    hide StreamFrom, ChunkBytes, AppendsTag, FitFrames, ReadChunks, Concat;
    ghost var whole, rest := writer.written + StreamFrom(s, 0, all), all[1..];
    var current, index, plaintextWritten := first, 0, 0;
    while true
      invariant reader.Valid()
      invariant rest == ReadChunks(reader.Remaining(), reader.limit, reader.calls, chunkSize)
      invariant plaintextWritten + |current| + |reader.Remaining()| == |first| + |old(reader.Remaining())|
      invariant index + 1 + |rest| == |all|
      invariant forall i :: 1 <= i <= index ==> !cancelled(i)
      invariant writer.written + StreamFrom(s, index, [current] + rest) == whole
      invariant FitFrames([current] + rest) <==> FitFrames(all)
      decreases |rest|
    {
      if cancelled(index + 1) {
        return Failure(Cancelled);
      }
      var next := ReadChunk(reader, chunkSize);
      var isLast := next == [];
      StreamStep(s, index, current, rest, writer.written, whole);
      FitCons(current, rest);
      var _ :- WriteChunk(writer, s, index, current, isLast);
      index, plaintextWritten := index + 1, plaintextWritten + |current|;
      if isLast {
        break;
      }
      current, rest := next, rest[1..];
    }
    r := Success(ChunkStats(index, plaintextWritten));
  }

  lemma LoneTerminal(s: Sealing)
    ensures StreamFrom(s, 0, Terminated([])) == ChunkBytes(s, 0, [], true) && FitFrames(Terminated([]))
  {
    var none: seq<Bytes> := [];
    StreamCons(s, 0, [], none);
    assert [[]] + none == [[]];
  }

  /**
   * Encrypts with one chunk of look-ahead. The i-th look at the token is cancelled(i): before the
   * first read, then before every chunk.
   */
  method EncryptProtectedStream(reader: ByteReader, writer: ByteWriter, s: Sealing, chunkSize: nat,
                                cancelled: nat -> bool)
    returns (r: Result<ChunkStats>)
    requires reader.Valid() && AppendsTag(s.aead)
    modifies reader, writer
    ensures chunkSize == 0 ==> r == Failure(InvalidArgument)
    ensures r.Success? ==> chunkSize > 0
    ensures r.Success? ==>
      var chunks := Terminated(ReadChunks(old(reader.Remaining()), reader.limit, old(reader.calls), chunkSize));
      && writer.written == old(writer.written) + StreamFrom(s, 0, chunks)
      && r.value == ChunkStats(|chunks|, |old(reader.Remaining())|)
      && FitFrames(chunks)
      && !cancelled(0) && (old(reader.Remaining()) != [] ==> forall i :: 0 <= i <= |chunks| ==> !cancelled(i))
    ensures chunkSize > 0 && r.Failure? ==>
      (r.error == Cancelled && exists i :: cancelled(i)) ||
      (r.error == InvalidArgument &&
        !FitFrames(Terminated(ReadChunks(old(reader.Remaining()), reader.limit, old(reader.calls), chunkSize))))
  {
    hide StreamFrom, ChunkBytes, AppendsTag, FitFrames;
    if chunkSize == 0 {
      return Failure(InvalidArgument);
    }
    if cancelled(0) {
      return Failure(Cancelled);
    }
    ghost var all := ReadChunks(reader.Remaining(), reader.limit, reader.calls, chunkSize);
    var current := ReadChunk(reader, chunkSize);
    if current == [] {
      LoneTerminal(s);
      var w := WriteChunk(writer, s, 0, [], true);
      return if w.Success? then Success(ChunkStats(1, 0)) else Failure(InvalidArgument);
    }
    r := EncryptChunks(reader, writer, s, chunkSize, current, cancelled, all);
  }

  // ---------------------------------------------------------------- decrypting

  /** What a decryption is run with; cancelled(i) is the i-th look at the token. */
  datatype Opening = Opening(aead: Aead, key: Key, digest: Key, chunkSize: u32, expectedPlaintext: u64,
                             cancelled: nat -> bool)

  /** The result of a decryption and everything it wrote, on success and on failure. */
  datatype Decryption = Decryption(result: Result<ChunkStats>, written: Bytes)

  /** The next frame of a stream, validated against its position; the end of the input is an error here. */
  function NextFrame(stream: Bytes, chunkSize: u32, index: nat): (r: Result<ParsedFrame>)
    ensures r.Success? ==> ParseFrame(stream) == Success(Some(r.value)) && |r.value.rest| < |stream|
  {
    match ParseFrame(stream)
    case Failure(e) => Failure(e)
    case Success(None) => Failure(InvalidFormat)
    case Success(Some(f)) =>
      if FrameAccepted(f.header, |f.ciphertext|, chunkSize, index) then Success(f) else Failure(InvalidFormat)
  }

  function OpenFrame(o: Opening, f: ParsedFrame): Option<Bytes> {
    o.aead.open(o.key, f.header.nonce,
                ChunkAad(o.digest, f.header.index, f.header.plaintextLen, f.header.isLast), f.ciphertext)
  }

  /** Authenticating a validated frame. */
  function OpenChunk(o: Opening, f: ParsedFrame): Result<Bytes> {
    match OpenFrame(o, f)
    case None => Failure(Crypto(PayloadAuthentication))
    case Some(plaintext) => if |plaintext| != f.header.plaintextLen then Failure(InvalidFormat) else Success(plaintext)
  }

  /** Nothing may follow the terminal chunk. */
  function AtEnd(rest: Bytes): Result<()> {
    match ParseFrame(rest)
    case Failure(e) => Failure(e)
    case Success(Some(_)) => Failure(InvalidFormat)
    case Success(None) => Success(())
  }

  /** After the terminal chunk the total length must be the recorded one. */
  function FinishDecryption(o: Opening, rest: Bytes, index: nat, written: Bytes): Decryption {
    match AtEnd(rest)
    case Failure(e) => Decryption(Failure(e), written)
    case Success(_) =>
      if |written| != o.expectedPlaintext then Decryption(Failure(InvalidFormat), written)
      else Decryption(Success(ChunkStats(index, |written|)), written)
  }

  /** Decrypting the frames of `stream` from position `index` on, after `written` has been written. */
  function DecryptFrom(o: Opening, stream: Bytes, index: nat, written: Bytes): Decryption
    decreases |stream|
  {
    if o.cancelled(index + 1) then Decryption(Failure(Cancelled), written)
    else
      match NextFrame(stream, o.chunkSize, index)
      case Failure(e) => Decryption(Failure(e), written)
      case Success(f) =>
        match OpenChunk(o, f)
        case Failure(e) => Decryption(Failure(e), written)
        case Success(plaintext) =>
          if f.header.isLast then FinishDecryption(o, f.rest, index + 1, written + plaintext)
          else DecryptFrom(o, f.rest, index + 1, written + plaintext)
  }

  function Decrypt(o: Opening, stream: Bytes): Decryption {
    if o.cancelled(0) then Decryption(Failure(Cancelled), []) else DecryptFrom(o, stream, 0, [])
  }

  /** Reads and validates one frame. */
  method ReadNextFrame(reader: ByteReader, chunkSize: u32, index: nat) returns (r: Result<ParsedFrame>)
    requires reader.Valid()
    modifies reader
    ensures reader.Valid()
    ensures r == NextFrame(old(reader.Remaining()), chunkSize, index)
    ensures r.Success? ==> reader.Remaining() == r.value.rest && |reader.Remaining()| < |old(reader.Remaining())|
  {
    var maybe :- ReadChunkFrame(reader);
    if maybe == None {
      return Failure(InvalidFormat);
    }
    var (header, ciphertext) := maybe.value;
    if !FrameAccepted(header, |ciphertext|, chunkSize, index) {
      return Failure(InvalidFormat);
    }
    r := Success(ParsedFrame(header, ciphertext, reader.data[reader.position..]));
  }

  /** The read that must find the end of the input. */
  method ReadEnd(reader: ByteReader) returns (r: Result<()>)
    requires reader.Valid()
    modifies reader
    ensures r == AtEnd(old(reader.Remaining()))
  {
    var trailing :- ReadChunkFrame(reader);
    r := if trailing.Some? then Failure(InvalidFormat) else Success(());
  }

  datatype OpenedChunk = OpenedChunk(plaintext: Bytes, isLast: bool)

  /** One turn of the frame loop: look at the token, read and validate a frame, authenticate it. */
  method DecryptNext(reader: ByteReader, o: Opening, index: nat, ghost written: Bytes)
    returns (r: Result<OpenedChunk>)
    requires reader.Valid()
    modifies reader
    ensures reader.Valid()
    ensures r.Success? ==> |reader.Remaining()| < |old(reader.Remaining())|
    ensures DecryptFrom(o, old(reader.Remaining()), index, written)
         == if r.Failure? then Decryption(Failure(r.error), written)
            else if r.value.isLast then FinishDecryption(o, reader.Remaining(), index + 1, written + r.value.plaintext)
            else DecryptFrom(o, reader.Remaining(), index + 1, written + r.value.plaintext)
  {
    if o.cancelled(index + 1) {
      return Failure(Cancelled);
    }
    var frame :- ReadNextFrame(reader, o.chunkSize, index);
    var plaintext :- OpenChunk(o, frame);
    r := Success(OpenedChunk(plaintext, frame.header.isLast));
  }

  /** The frame loop: stops after the terminal chunk or at the first error. */
  method DecryptChunks(reader: ByteReader, writer: ByteWriter, o: Opening)
    returns (r: Result<ChunkStats>, ghost out: Bytes)
    requires reader.Valid()
    modifies reader, writer
    ensures reader.Valid() && writer.written == old(writer.written) + out
    ensures r.Failure? ==> DecryptFrom(o, old(reader.Remaining()), 0, []) == Decryption(Failure(r.error), out)
    ensures r.Success? ==> r.value.plaintextBytes == |out|
    ensures r.Success? ==>
      DecryptFrom(o, old(reader.Remaining()), 0, []) == FinishDecryption(o, reader.Remaining(), r.value.chunkCount, out)
  {
    ghost var whole := DecryptFrom(o, reader.Remaining(), 0, []);
    var index, plaintextWritten, sawLast := 0, 0, false;
    out := [];
    while !sawLast
      invariant reader.Valid()
      invariant writer.written == old(writer.written) + out && plaintextWritten == |out|
      invariant whole == if sawLast then FinishDecryption(o, reader.Remaining(), index, out)
                         else DecryptFrom(o, reader.Remaining(), index, out)
      decreases !sawLast, |reader.Remaining()|
    {
      var next := DecryptNext(reader, o, index, out);
      if next.Failure? {
        return Failure(next.error), out;
      }
      var plaintext := next.value.plaintext;
      AppendAssociates(old(writer.written), out, plaintext);
      writer.WriteAll(plaintext);
      out := out + plaintext;
      plaintextWritten, index := plaintextWritten + |plaintext|, index + 1;
      sawLast := next.value.isLast;
    }
    r := Success(ChunkStats(index, plaintextWritten));
  }

  /** The validating decryption of a reader into a writer computes Decrypt, for every schedule of reads. */
  method DecryptProtectedStream(reader: ByteReader, writer: ByteWriter, o: Opening) returns (r: Result<ChunkStats>)
    requires reader.Valid()
    modifies reader, writer
    ensures r == Decrypt(o, old(reader.Remaining())).result
    ensures writer.written == old(writer.written) + Decrypt(o, old(reader.Remaining())).written
  {
    if o.cancelled(0) {
      return Failure(Cancelled);
    }
    var chunks, out := DecryptChunks(reader, writer, o);
    var stats :- chunks;
    var _ :- ReadEnd(reader);
    if stats.plaintextBytes != o.expectedPlaintext {
      return Failure(InvalidFormat);
    }
    r := Success(stats);
  }

  // ---------------------------------------------------------------- decrypt after encrypt

  ghost predicate OpeningOf(o: Opening, s: Sealing) {
    o.aead == s.aead && o.key == s.key && o.digest == s.digest
  }

  /** The sealings made for the chunks from `index` on. */
  ghost function Sealings(s: Sealing, index: nat, chunks: seq<Bytes>): set<Sealed>
    decreases |chunks|
  {
    if chunks == [] then {}
    else {SealChunk(s, index, chunks[0], |chunks| == 1)} + Sealings(s, index + 1, chunks[1..])
  }

  lemma SealedChunkAccepted(s: Sealing, index: nat, chunk: Bytes, isLast: bool, chunkSize: u32)
    requires AppendsTag(s.aead)
    requires |chunk| <= chunkSize && |chunk| + AEAD_TAG_BYTES < 0x1_0000_0000 && index < 0x1_0000_0000_0000_0000
    requires isLast || |chunk| > 0
    ensures var header, c := ChunkHeader(s, index, chunk, isLast), SealChunk(s, index, chunk, isLast).ciphertext;
      && header.ciphertextLen == |c| >= AEAD_TAG_BYTES && header.isLast == isLast
      && FrameAccepted(header, |c|, chunkSize, index)
  {
    hide ChunkAad;
    assert |SealChunk(s, index, chunk, isLast).ciphertext| == |chunk| + AEAD_TAG_BYTES;
  }

  /** The frame of a sealed chunk is the next frame of the stream. */
  lemma SealedChunkFrames(s: Sealing, index: nat, chunk: Bytes, isLast: bool, rest: Bytes, chunkSize: u32)
    requires AppendsTag(s.aead)
    requires |chunk| <= chunkSize && |chunk| + AEAD_TAG_BYTES < 0x1_0000_0000 && index < 0x1_0000_0000_0000_0000
    requires isLast || |chunk| > 0
    ensures NextFrame(ChunkBytes(s, index, chunk, isLast) + rest, chunkSize, index)
         == Success(ParsedFrame(ChunkHeader(s, index, chunk, isLast), SealChunk(s, index, chunk, isLast).ciphertext, rest))
  {
    var header, e := ChunkHeader(s, index, chunk, isLast), SealChunk(s, index, chunk, isLast);
    SealedChunkAccepted(s, index, chunk, isLast, chunkSize);
    hide SealChunk, ChunkHeader, FrameAccepted, EncodeFrame;
    FrameRoundTrip(header, e.ciphertext, rest);
  }

  /** It opens to the chunk. */
  lemma SealedChunkOpens(o: Opening, s: Sealing, log: set<Sealed>, index: nat, chunk: Bytes, isLast: bool, rest: Bytes)
    requires OpeningOf(o, s) && AppendsTag(s.aead) && Ideal(s.aead, log) && SealChunk(s, index, chunk, isLast) in log
    requires |chunk| <= o.chunkSize && |chunk| + AEAD_TAG_BYTES < 0x1_0000_0000 && index < 0x1_0000_0000_0000_0000
    requires isLast || |chunk| > 0
    ensures var r := NextFrame(ChunkBytes(s, index, chunk, isLast) + rest, o.chunkSize, index);
      r.Success? && r.value.header.isLast == isLast && r.value.rest == rest && OpenChunk(o, r.value) == Success(chunk)
  {
    hide NextFrame, ChunkBytes, ChunkAad;
    SealedChunkFrames(s, index, chunk, isLast, rest, o.chunkSize);
    SealedOpens(o.aead, log, SealChunk(s, index, chunk, isLast));
  }

  /** Under a key that sealed nothing the first frame fails authentication. */
  lemma OtherKeyFailsAuthentication(o: Opening, s: Sealing, log: set<Sealed>, chunks: seq<Bytes>)
    requires o.aead == s.aead && AppendsTag(s.aead) && Ideal(s.aead, log) && forall e :: e in log ==> e.key != o.key
    requires chunks != [] && WellSized(chunks, o.chunkSize) && FitFrames(chunks)
    requires !o.cancelled(0) && !o.cancelled(1)
    ensures Decrypt(o, StreamFrom(s, 0, chunks)) == Decryption(Failure(Crypto(PayloadAuthentication)), [])
  {
    hide NextFrame, ChunkBytes;
    SealedChunkFrames(s, 0, chunks[0], |chunks| == 1, StreamFrom(s, 1, chunks[1..]), o.chunkSize);
  }

  lemma SealedOpens(aead: Aead, log: set<Sealed>, e: Sealed)
    requires Ideal(aead, log) && e in log
    ensures aead.open(e.key, e.nonce, e.aad, e.ciphertext) == Some(e.message)
  {
  }

  lemma {:induction false} DecryptStreamFrom(o: Opening, s: Sealing, log: set<Sealed>, index: nat, chunks: seq<Bytes>,
                                             written: Bytes, total: nat)
    requires OpeningOf(o, s) && AppendsTag(s.aead) && Ideal(s.aead, log) && Sealings(s, index, chunks) <= log
    requires chunks != [] && WellSized(chunks, o.chunkSize) && FitFrames(chunks)
    requires index + |chunks| == total <= 0x1_0000_0000_0000_0000
    requires |written| + |Concat(chunks)| == o.expectedPlaintext
    requires forall i :: !o.cancelled(i)
    ensures DecryptFrom(o, StreamFrom(s, index, chunks), index, written)
         == Decryption(Success(ChunkStats(total, o.expectedPlaintext)), written + Concat(chunks))
    decreases |chunks|
  {
    var chunk, rest, isLast := chunks[0], chunks[1..], |chunks| == 1;
    var stream := StreamFrom(s, index, chunks);
    assert stream == ChunkBytes(s, index, chunk, isLast) + StreamFrom(s, index + 1, rest);
    SealedChunkOpens(o, s, log, index, chunk, isLast, StreamFrom(s, index + 1, rest));
    var f := NextFrame(stream, o.chunkSize, index).value;
    DecryptStep(o, stream, index, written, f, chunk);
    ConcatStep(written, chunks);
    if !isLast {
      WellSizedRest(chunks, o.chunkSize);
      DecryptStreamFrom(o, s, log, index + 1, rest, written + chunk, total);
    }
  }

  lemma ConcatStep(written: Bytes, chunks: seq<Bytes>)
    requires chunks != []
    ensures written + Concat(chunks) == (written + chunks[0]) + Concat(chunks[1..])
    ensures |chunks| == 1 ==> written + Concat(chunks) == written + chunks[0]
  {
    AppendAssociates(written, chunks[0], Concat(chunks[1..]));
    if |chunks| == 1 {
      assert Concat(chunks[1..]) == [];
      assert chunks[0] + [] == chunks[0];
    }
  }

  lemma DecryptStep(o: Opening, stream: Bytes, index: nat, written: Bytes, f: ParsedFrame, plaintext: Bytes)
    requires !o.cancelled(index + 1) && NextFrame(stream, o.chunkSize, index) == Success(f)
    requires OpenChunk(o, f) == Success(plaintext)
    ensures DecryptFrom(o, stream, index, written)
         == if f.header.isLast then FinishDecryption(o, f.rest, index + 1, written + plaintext)
            else DecryptFrom(o, f.rest, index + 1, written + plaintext)
  {
  }

  lemma WellSizedRest(chunks: seq<Bytes>, chunkSize: nat)
    requires chunks != [] && WellSized(chunks, chunkSize) && FitFrames(chunks)
    ensures WellSized(chunks[1..], chunkSize) && FitFrames(chunks[1..])
  {
    assert forall i :: 0 <= i < |chunks| - 1 ==> chunks[1..][i] == chunks[i + 1];
  }

  /** Decrypting a sealed stream gives its chunks put together. */
  lemma DecryptSealedStream(o: Opening, s: Sealing, log: set<Sealed>, chunks: seq<Bytes>)
    requires OpeningOf(o, s) && AppendsTag(s.aead) && Ideal(s.aead, log) && Sealings(s, 0, chunks) <= log
    requires chunks != [] && WellSized(chunks, o.chunkSize) && FitFrames(chunks)
    requires |chunks| <= 0x1_0000_0000_0000_0000 && |Concat(chunks)| == o.expectedPlaintext
    requires forall i :: !o.cancelled(i)
    ensures Decrypt(o, StreamFrom(s, 0, chunks))
         == Decryption(Success(ChunkStats(|chunks|, o.expectedPlaintext)), Concat(chunks))
  {
    hide DecryptFrom, StreamFrom, Sealings;
    DecryptStreamFrom(o, s, log, 0, chunks, [], |chunks|);
    assert [] + Concat(chunks) == Concat(chunks);
  }

  /** Decrypting what was encrypted gives the plaintext and the same counts, for any cut into chunks. */
  lemma DecryptAfterEncrypt(o: Opening, s: Sealing, log: set<Sealed>, data: Bytes, limit: nat -> nat, call: nat)
    requires o.chunkSize > 0 && FitFrames(Terminated(ReadChunks(data, limit, call, o.chunkSize)))
    requires OpeningOf(o, s) && AppendsTag(s.aead) && Ideal(s.aead, log)
    requires Sealings(s, 0, Terminated(ReadChunks(data, limit, call, o.chunkSize))) <= log
    requires o.expectedPlaintext == |data|
    requires forall i :: !o.cancelled(i)
    ensures var chunks := Terminated(ReadChunks(data, limit, call, o.chunkSize));
      Decrypt(o, StreamFrom(s, 0, chunks)) == Decryption(Success(ChunkStats(|chunks|, |data|)), data)
  {
    var chunks := Terminated(ReadChunks(data, limit, call, o.chunkSize));
    ReadChunksSound(data, limit, call, o.chunkSize);
    AtMostOnePerByte(data, limit, call, o.chunkSize);
    DecryptSealedStream(o, s, log, chunks);
  }

  lemma AtMostOnePerByte(data: Bytes, limit: nat -> nat, call: nat, chunkSize: nat)
    requires chunkSize > 0
    ensures |ReadChunks(data, limit, call, chunkSize)| <= |data|
  {
    ReadChunksConcat(data, limit, call, chunkSize);
    ChunkTotal(ReadChunks(data, limit, call, chunkSize));
  }

  lemma {:induction false} ChunkTotal(chunks: seq<Bytes>)
    requires forall i :: 0 <= i < |chunks| ==> |chunks[i]| > 0
    ensures |chunks| <= |Concat(chunks)|
  {
    if chunks != [] {
      ChunkTotal(chunks[1..]);
    }
  }

  // ---------------------------------------------------------------- nothing else decrypts

  /** The log's entries under this key are exactly the chunks of one stream. */
  ghost predicate OnlyStreamUnderKey(log: set<Sealed>, s: Sealing, chunks: seq<Bytes>) {
    (set e | e in log && e.key == s.key) == Sealings(s, 0, chunks)
  }

  lemma {:induction false} SealingIndex(s: Sealing, index: nat, chunks: seq<Bytes>, e: Sealed) returns (i: nat)
    requires e in Sealings(s, index, chunks)
    ensures i < |chunks| && e == SealChunk(s, index + i, chunks[i], i == |chunks| - 1)
    decreases |chunks|
  {
    if e == SealChunk(s, index, chunks[0], |chunks| == 1) {
      i := 0;
    } else {
      var k := SealingIndex(s, index + 1, chunks[1..], e);
      i := k + 1;
    }
  }

  lemma OpenedIsSealed(aead: Aead, s: Sealing, log: set<Sealed>, chunks: seq<Bytes>, nonce: Nonce, aad: Bytes, c: Bytes)
    returns (i: nat)
    requires aead == s.aead && Ideal(aead, log) && OnlyStreamUnderKey(log, s, chunks)
    requires aead.open(s.key, nonce, aad, c).Some?
    ensures i < |chunks| && aead.open(s.key, nonce, aad, c).value == chunks[i]
    ensures aad == SealChunk(s, i, chunks[i], i == |chunks| - 1).aad
  {
    hide ChunkAad;
    var e := Sealed(s.key, nonce, aad, aead.open(s.key, nonce, aad, c).value, c);
    assert e in log;
    assert e in set e' | e' in log && e'.key == s.key;
    i := SealingIndex(s, 0, chunks, e);
  }

  /** A frame that opens carries the chunk its index names, and is terminal just when that chunk is the last. */
  lemma OpenedFrameIsChunk(o: Opening, s: Sealing, log: set<Sealed>, chunks: seq<Bytes>, f: ParsedFrame)
    requires o.aead == s.aead && o.key == s.key && Ideal(s.aead, log) && OnlyStreamUnderKey(log, s, chunks)
    requires |chunks| <= 0x1_0000_0000_0000_0000
    requires OpenFrame(o, f).Some?
    ensures o.digest == s.digest && f.header.index < |chunks|
    ensures OpenFrame(o, f).value == chunks[f.header.index]
    ensures f.header.isLast <==> f.header.index == |chunks| - 1
  {
    hide ChunkAad;
    var h := f.header;
    var i := OpenedIsSealed(o.aead, s, log, chunks, h.nonce, ChunkAad(o.digest, h.index, h.plaintextLen, h.isLast),
                            f.ciphertext);
    AadInjective(o.digest, h.index, h.plaintextLen, h.isLast,
                 s.digest, i, |chunks[i]| % 0x1_0000_0000, i == |chunks| - 1);
  }

  lemma {:induction false} AcceptedFrom(o: Opening, s: Sealing, log: set<Sealed>, chunks: seq<Bytes>,
                                        stream: Bytes, index: nat, written: Bytes)
    requires o.aead == s.aead && o.key == s.key && Ideal(s.aead, log) && OnlyStreamUnderKey(log, s, chunks)
    requires |chunks| <= 0x1_0000_0000_0000_0000 && index <= |chunks|
    requires DecryptFrom(o, stream, index, written).result.Success?
    ensures o.digest == s.digest
    ensures DecryptFrom(o, stream, index, written).written == written + Concat(chunks[index..])
    ensures DecryptFrom(o, stream, index, written).result.value.chunkCount == |chunks|
    decreases |stream|
  {
    var f := NextFrame(stream, o.chunkSize, index).value;
    OpenedFrameIsChunk(o, s, log, chunks, f);
    assert chunks[index..][1..] == chunks[index + 1..];
    ConcatStep(written, chunks[index..]);
    if !f.header.isLast {
      AcceptedFrom(o, s, log, chunks, f.rest, index + 1, written + chunks[index]);
    }
  }

  /**
   * Exact or explicit failure: under a key that sealed one stream, ANY bytes either fail to decrypt
   * or give exactly the plaintext of that stream, and then under the digest it was sealed with.
   */
  lemma OnlyTheOriginalDecrypts(o: Opening, s: Sealing, log: set<Sealed>, chunks: seq<Bytes>, stream: Bytes)
    requires o.aead == s.aead && o.key == s.key && Ideal(s.aead, log) && OnlyStreamUnderKey(log, s, chunks)
    requires |chunks| <= 0x1_0000_0000_0000_0000
    requires Decrypt(o, stream).result.Success?
    ensures o.digest == s.digest && Decrypt(o, stream).written == Concat(chunks)
    ensures Decrypt(o, stream).result.value == ChunkStats(|chunks|, |Concat(chunks)|)
  {
    AcceptedFrom(o, s, log, chunks, stream, 0, []);
    assert chunks[0..] == chunks;
    WrittenIsCounted(o, stream, 0, []);
  }

  lemma {:induction false} ConcatNext(chunks: seq<Bytes>, i: nat)
    requires i < |chunks|
    ensures Concat(chunks[..i + 1]) == Concat(chunks[..i]) + chunks[i]
  {
    if i == 0 {
      var first := chunks[..1];
      assert first[0] == chunks[0] && first[1..] == [] && chunks[..0] == [];
      assert Concat(first) == chunks[0] + Concat(first[1..]);
    } else {
      ConcatNext(chunks[1..], i - 1);
      assert chunks[..i + 1][1..] == chunks[1..][..i] && chunks[..i][1..] == chunks[1..][..i - 1];
      AppendAssociates(chunks[0], Concat(chunks[1..][..i - 1]), chunks[i]);
    }
  }

  lemma {:induction false} ConcatPrefix(chunks: seq<Bytes>, j: nat)
    requires j <= |chunks|
    ensures Concat(chunks[..j]) <= Concat(chunks)
  {
    if j > 0 {
      ConcatPrefix(chunks[1..], j - 1);
      assert chunks[..j][1..] == chunks[1..][..j - 1];
    }
  }

  lemma {:induction false} WrittenIsPrefixFrom(o: Opening, s: Sealing, log: set<Sealed>, chunks: seq<Bytes>,
                                              stream: Bytes, index: nat) returns (j: nat)
    requires o.aead == s.aead && o.key == s.key && Ideal(s.aead, log) && OnlyStreamUnderKey(log, s, chunks)
    requires |chunks| <= 0x1_0000_0000_0000_0000 && index <= |chunks|
    ensures j <= |chunks|
    ensures DecryptFrom(o, stream, index, Concat(chunks[..index])).written == Concat(chunks[..j])
    decreases |stream|
  {
    j := index;
    var r := NextFrame(stream, o.chunkSize, index);
    if !o.cancelled(index + 1) && r.Success? && OpenChunk(o, r.value).Success? {
      var f := r.value;
      OpenedFrameIsChunk(o, s, log, chunks, f);
      ConcatNext(chunks, index);
      j := index + 1;
      if !f.header.isLast {
        j := WrittenIsPrefixFrom(o, s, log, chunks, f.rest, index + 1);
      }
    }
  }

  /**
   * Failure does not let anything else through either: from ANY bytes, what has been written when decryption
   * stops, for whatever reason, are the first chunks of the plaintext of the one stream sealed under the key.
   */
  lemma WrittenIsPrefix(o: Opening, s: Sealing, log: set<Sealed>, chunks: seq<Bytes>, stream: Bytes) returns (j: nat)
    requires o.aead == s.aead && o.key == s.key && Ideal(s.aead, log) && OnlyStreamUnderKey(log, s, chunks)
    requires |chunks| <= 0x1_0000_0000_0000_0000
    ensures j <= |chunks| && Decrypt(o, stream).written == Concat(chunks[..j]) <= Concat(chunks)
  {
    hide DecryptFrom;
    assert chunks[..0] == [];
    j := 0;
    if !o.cancelled(0) {
      j := WrittenIsPrefixFrom(o, s, log, chunks, stream, 0);
    }
    ConcatPrefix(chunks, j);
  }

  lemma NoFrameCancels(o: Opening, stream: Bytes, index: nat, written: Bytes)
    ensures NextFrame(stream, o.chunkSize, index).Failure? ==> NextFrame(stream, o.chunkSize, index).error in {Io, InvalidFormat}
    ensures var r := FinishDecryption(o, stream, index, written).result;
      && (r.Failure? ==> r.error in {Io, InvalidFormat}) && (r.Success? ==> r.value.chunkCount == index)
  {
  }

  lemma {:induction false} TokenFrom(o: Opening, stream: Bytes, index: nat, written: Bytes)
    ensures var r := DecryptFrom(o, stream, index, written).result;
      && (r.Success? ==> r.value.chunkCount > index && forall i :: index < i <= r.value.chunkCount ==> !o.cancelled(i))
      && (r == Failure(Cancelled) ==> exists i :: i > index && o.cancelled(i))
    decreases |stream|
  {
    hide NextFrame, FinishDecryption, OpenFrame;
    NoFrameCancels(o, stream, index, written);
    var r := NextFrame(stream, o.chunkSize, index);
    if !o.cancelled(index + 1) && r.Success? && OpenChunk(o, r.value).Success? {
      var plaintext := OpenChunk(o, r.value).value;
      if r.value.header.isLast {
        NoFrameCancels(o, r.value.rest, index + 1, written + plaintext);
      } else {
        TokenFrom(o, r.value.rest, index + 1, written + plaintext);
      }
    }
  }

  /**
   * The token is obeyed and nothing else counts as cancellation: a decryption succeeds only if no look, before
   * the first frame and before every frame, found it set, and is cancelled only if one did.
   */
  lemma TokenIsObeyed(o: Opening, stream: Bytes)
    ensures var r := Decrypt(o, stream).result;
      && (r.Success? ==> forall i :: 0 <= i <= r.value.chunkCount ==> !o.cancelled(i))
      && (r == Failure(Cancelled) ==> exists i :: o.cancelled(i))
    ensures o.cancelled(0) ==> Decrypt(o, stream) == Decryption(Failure(Cancelled), [])
  {
    TokenFrom(o, stream, 0, []);
    hide DecryptFrom;
  }

  lemma {:induction false} WrittenIsCounted(o: Opening, stream: Bytes, index: nat, written: Bytes)
    requires DecryptFrom(o, stream, index, written).result.Success?
    ensures var d := DecryptFrom(o, stream, index, written);
      |d.written| == d.result.value.plaintextBytes == o.expectedPlaintext
    decreases |stream|
  {
    var f := NextFrame(stream, o.chunkSize, index).value;
    if !f.header.isLast {
      WrittenIsCounted(o, f.rest, index + 1, written + OpenFrame(o, f).value);
    }
  }

  /** Under a key that sealed nothing, whatever gets as far as decryption fails authentication. */
  lemma UnknownKeyNeverDecrypts(o: Opening, log: set<Sealed>, stream: Bytes)
    requires Ideal(o.aead, log) && forall e :: e in log ==> e.key != o.key
    ensures Decrypt(o, stream).result.Failure? && Decrypt(o, stream).written == []
  {
  }

  /** No other key has been used with this digest. */
  ghost predicate DigestUnderOneKey(log: set<Sealed>, s: Sealing) {
    forall e :: e in log && e.key != s.key ==> |e.aad| < 48 || e.aad[16..48] != s.digest
  }

  /** Under a digest that only one key was used with, any other key fails, whatever else it has sealed. */
  lemma OnlyItsKeyDecrypts(o: Opening, s: Sealing, log: set<Sealed>, stream: Bytes)
    requires Ideal(o.aead, log) && DigestUnderOneKey(log, s) && o.digest == s.digest && o.key != s.key
    ensures Decrypt(o, stream).result.Failure? && Decrypt(o, stream).written == []
  {
    var r := NextFrame(stream, o.chunkSize, 0);
    if r.Success? {
      AadFields(o.digest, r.value.header.index, r.value.header.plaintextLen, r.value.header.isLast);
    }
    hide NextFrame, ChunkAad;
  }

  // ---------------------------------------------------------------- structural scan

  function FinishScan(rest: Bytes, index: nat, total: nat): Result<ChunkStats> {
    match AtEnd(rest)
    case Failure(e) => Failure(e)
    case Success(_) => Success(ChunkStats(index, total))
  }

  function ScanFrom(chunkSize: u32, stream: Bytes, index: nat, total: nat): Result<ChunkStats>
    decreases |stream|
  {
    match NextFrame(stream, chunkSize, index)
    case Failure(e) => Failure(e)
    case Success(f) =>
      if f.header.isLast then FinishScan(f.rest, index + 1, total + f.header.plaintextLen)
      else ScanFrom(chunkSize, f.rest, index + 1, total + f.header.plaintextLen)
  }

  function Scan(chunkSize: u32, stream: Bytes): Result<ChunkStats> {
    ScanFrom(chunkSize, stream, 0, 0)
  }

  /** The scan loop over a reader, for every schedule of reads. */
  method ScanProtectedStreamStructural(reader: ByteReader, chunkSize: u32) returns (r: Result<ChunkStats>)
    requires reader.Valid()
    modifies reader
    ensures r == Scan(chunkSize, old(reader.Remaining()))
  {
    var index: nat, plaintextBytes: nat, sawLast := 0, 0, false;
    ghost var whole := Scan(chunkSize, reader.Remaining());
    while !sawLast
      invariant reader.Valid()
      invariant whole == if sawLast then FinishScan(reader.Remaining(), index, plaintextBytes)
                         else ScanFrom(chunkSize, reader.Remaining(), index, plaintextBytes)
      decreases !sawLast, |reader.Remaining()|
    {
      var frame :- ReadNextFrame(reader, chunkSize, index);
      plaintextBytes, index := plaintextBytes + frame.header.plaintextLen, index + 1;
      sawLast := frame.header.isLast;
    }
    var _ :- ReadEnd(reader);
    r := Success(ChunkStats(index, plaintextBytes));
  }

  /** Messages are as long as their ciphertext without the tag. */
  ghost predicate StripsTag(aead: Aead) {
    forall k, n, a, c :: aead.open(k, n, a, c).Some? ==> |aead.open(k, n, a, c).value| + AEAD_TAG_BYTES == |c|
  }

  lemma {:induction false} ScanFollowsDecrypt(o: Opening, stream: Bytes, index: nat, written: Bytes, total: nat)
    requires total == |written|
    requires DecryptFrom(o, stream, index, written).result.Success?
    ensures ScanFrom(o.chunkSize, stream, index, total) == DecryptFrom(o, stream, index, written).result
    decreases |stream|
  {
    var f := NextFrame(stream, o.chunkSize, index).value;
    var plaintext := OpenChunk(o, f).value;
    assert |written + plaintext| == total + f.header.plaintextLen;
    if !f.header.isLast {
      ScanFollowsDecrypt(o, f.rest, index + 1, written + plaintext, total + f.header.plaintextLen);
    }
  }

  /** A validated frame of a tag-stripping cipher opens to a message of the announced length, or not at all. */
  lemma OpenedLength(o: Opening, stream: Bytes, index: nat)
    requires StripsTag(o.aead) && NextFrame(stream, o.chunkSize, index).Success?
    ensures var f := NextFrame(stream, o.chunkSize, index).value;
      match OpenChunk(o, f)
      case Success(plaintext) => |plaintext| == f.header.plaintextLen
      case Failure(e) => e == Crypto(PayloadAuthentication)
  {
    AcceptedLengths(stream, o.chunkSize, index);
  }

  lemma {:induction false} DecryptFollowsScan(o: Opening, stream: Bytes, index: nat, written: Bytes, total: nat)
    requires StripsTag(o.aead) && total == |written|
    requires ScanFrom(o.chunkSize, stream, index, total).Success?
    requires ScanFrom(o.chunkSize, stream, index, total).value.plaintextBytes == o.expectedPlaintext
    ensures var d := DecryptFrom(o, stream, index, written).result;
      d.Success? || d.error == Cancelled || d.error == Crypto(PayloadAuthentication)
    decreases |stream|
  {
    OpenedLength(o, stream, index);
    var f := NextFrame(stream, o.chunkSize, index).value;
    if OpenChunk(o, f).Success? {
      var plaintext := OpenChunk(o, f).value;
      assert |written + plaintext| == total + f.header.plaintextLen;
      if !f.header.isLast {
        DecryptFollowsScan(o, f.rest, index + 1, written + plaintext, total + f.header.plaintextLen);
      }
    }
  }

  /**
   * Whatever decryption accepts the scan accepts with the same counts; when the scan accepts a stream
   * of the recorded length, only authentication or cancellation can still make decryption fail.
   */
  lemma ScanRefinesDecrypt(o: Opening, stream: Bytes)
    ensures var d, scanned := Decrypt(o, stream).result, Scan(o.chunkSize, stream);
      && (d.Success? ==> scanned == d)
      && (scanned.Success? && scanned.value.plaintextBytes == o.expectedPlaintext && StripsTag(o.aead) ==>
            d.Success? || d.error == Cancelled || d.error == Crypto(PayloadAuthentication))
  {
    if Decrypt(o, stream).result.Success? {
      ScanFollowsDecrypt(o, stream, 0, [], 0);
    }
    var scanned := Scan(o.chunkSize, stream);
    if scanned.Success? && scanned.value.plaintextBytes == o.expectedPlaintext && StripsTag(o.aead) {
      DecryptFollowsScan(o, stream, 0, [], 0);
    }
  }
}

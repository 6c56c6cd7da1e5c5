// Framing of one encrypted chunk and the associated data that binds it to its place.
module ChunkFrame {
  import opened Base
  import opened Streams

  const AEAD_TAG_BYTES := 16
  const HEADER_BYTES := 41

  type Nonce = s: Bytes | |s| == 24 witness seq(24, _ => 0)

  datatype FrameHeader = FrameHeader(index: u64, isLast: bool, plaintextLen: u32, ciphertextLen: u32, nonce: Nonce)

  datatype ParsedFrame = ParsedFrame(header: FrameHeader, ciphertext: Bytes, rest: Bytes)

  function EncodeFrame(header: FrameHeader, ciphertext: Bytes): Bytes {
    Le(header.index, 8) + [Flag(header.isLast)] + Le(header.plaintextLen, 4) + Le(header.ciphertextLen, 4)
      + header.nonce + ciphertext
  }

  function HeaderAt(bytes: Bytes): FrameHeader
    requires |bytes| >= HEADER_BYTES
  {
    Widths();
    FromLeBound(bytes[..8]);
    FromLeBound(bytes[9..13]);
    FromLeBound(bytes[13..17]);
    FrameHeader(FromLe(bytes[..8]), bytes[8] != 0, FromLe(bytes[9..13]), FromLe(bytes[13..17]), bytes[17..41])
  }

  /** One frame off the front of the input: nothing at its end, an error when it breaks off inside a frame. */
  function ParseFrame(bytes: Bytes): (r: Result<Option<ParsedFrame>>)
    ensures r.Success? && r.value.Some? ==> |r.value.value.rest| < |bytes|
    ensures bytes != [] ==> r != Success(None)
  {
    if bytes == [] then Success(None)
    else if |bytes| < 8 then Failure(InvalidFormat)
    else if |bytes| < 17 then Failure(Io)
    else
      var ciphertextLen := FromLe(bytes[13..17]);
      if ciphertextLen < AEAD_TAG_BYTES then Failure(InvalidFormat)
      else if |bytes| < HEADER_BYTES + ciphertextLen then Failure(Io)
      else
        var end := HEADER_BYTES + ciphertextLen;
        Success(Some(ParsedFrame(HeaderAt(bytes), bytes[HEADER_BYTES..end], bytes[end..])))
  }

  lemma FrameFields(header: FrameHeader, tail: Bytes)
    ensures var bytes := EncodeFrame(header, tail);
      && |bytes| == HEADER_BYTES + |tail| && bytes[HEADER_BYTES..] == tail
      && bytes[..8] == Le(header.index, 8) && bytes[8] == Flag(header.isLast)
      && bytes[9..13] == Le(header.plaintextLen, 4) && bytes[13..17] == Le(header.ciphertextLen, 4)
      && bytes[17..41] == header.nonce
  {
  }

  /** Reading back what was written gives the header, the ciphertext and the untouched rest. */
  lemma FrameRoundTrip(header: FrameHeader, ciphertext: Bytes, rest: Bytes)
    requires header.ciphertextLen == |ciphertext| >= AEAD_TAG_BYTES
    ensures ParseFrame(EncodeFrame(header, ciphertext) + rest)
         == Success(Some(ParsedFrame(header, ciphertext, rest)))
  {
    var bytes := EncodeFrame(header, ciphertext + rest);
    assert EncodeFrame(header, ciphertext) + rest == bytes;
    FrameFields(header, ciphertext + rest);
    Widths();
    LeRoundTrip(header.index, 8);
    LeRoundTrip(header.plaintextLen, 4);
    LeRoundTrip(header.ciphertextLen, 4);
    var end := HEADER_BYTES + |ciphertext|;
    assert bytes[end..] == bytes[HEADER_BYTES..][|ciphertext|..];
    assert bytes[HEADER_BYTES..end] == bytes[HEADER_BYTES..][..|ciphertext|];
  }

  /**
   * Any nonzero terminal flag is accepted: writing a parsed frame again gives the same bytes exactly
   * when the flag was stored as zero or one.
   */
  lemma FrameReencoded(bytes: Bytes)
    requires ParseFrame(bytes).Success? && ParseFrame(bytes).value.Some?
    ensures var f := ParseFrame(bytes).value.value;
      EncodeFrame(f.header, f.ciphertext) + f.rest == bytes <==> bytes[8] <= 1
  {
    hide Le, FromLe, Flag;
    var f := ParseFrame(bytes).value.value;
    LeOfFromLe(bytes[..8]);
    LeOfFromLe(bytes[9..13]);
    LeOfFromLe(bytes[13..17]);
    SevenParts(bytes, HEADER_BYTES + |f.ciphertext|);
    FlagIsByte(bytes[8]);
    var printed := EncodeFrame(f.header, f.ciphertext) + f.rest;
    assert printed == bytes[..8] + [Flag(bytes[8] != 0)] + bytes[9..13] + bytes[13..17] + bytes[17..41]
                        + bytes[HEADER_BYTES..HEADER_BYTES + |f.ciphertext|] + bytes[HEADER_BYTES + |f.ciphertext|..];
    assert printed[8] == Flag(bytes[8] != 0);
  }

  lemma FlagIsByte(b: byte)
    ensures Flag(b != 0) == b <==> b <= 1
  {
  }

  lemma SevenParts(s: Bytes, end: nat)
    requires HEADER_BYTES <= end <= |s|
    ensures s == s[..8] + [s[8]] + s[9..13] + s[13..17] + s[17..41] + s[HEADER_BYTES..end] + s[end..]
  {
  }

  /** A terminal frame parses to the same whatever nonzero value its flag byte has. */
  lemma TerminalFlagIsNotUnique(header: FrameHeader, ciphertext: Bytes, rest: Bytes, flag: byte)
    requires header.isLast && header.ciphertextLen == |ciphertext| >= AEAD_TAG_BYTES && flag != 0
    ensures ParseFrame(EncodeFrame(header, ciphertext)[8 := flag] + rest)
         == Success(Some(ParsedFrame(header, ciphertext, rest)))
  {
    var written, bytes := EncodeFrame(header, ciphertext) + rest, EncodeFrame(header, ciphertext)[8 := flag] + rest;
    FrameRoundTrip(header, ciphertext, rest);
    FrameFields(header, ciphertext);
    hide EncodeFrame;
    assert written[8] == 1;
    assert |bytes| == |written| && forall i :: 0 <= i < |bytes| && i != 8 ==> bytes[i] == written[i];
    FlagAlone(written, bytes);
  }

  /** Parsing looks at the flag byte for being zero or not alone. */
  lemma FlagAlone(a: Bytes, b: Bytes)
    requires |a| == |b| >= HEADER_BYTES && (a[8] == 0 <==> b[8] == 0)
    requires forall i :: 0 <= i < |a| && i != 8 ==> a[i] == b[i]
    ensures ParseFrame(a) == ParseFrame(b)
  {
    hide FromLe;
    assert a[..8] == b[..8] && a[9..13] == b[9..13] && a[13..17] == b[13..17] && a[17..41] == b[17..41];
    var end := HEADER_BYTES + FromLe(a[13..17]);
    if end <= |a| {
      assert a[HEADER_BYTES..end] == b[HEADER_BYTES..end] && a[end..] == b[end..];
    }
  }

  /**
   * A frame that breaks off is never taken for a shorter one: inside the index field it is a format error,
   * anywhere behind it an unexpected end of the input.
   */
  lemma TruncatedFrame(header: FrameHeader, ciphertext: Bytes, n: nat)
    requires header.ciphertextLen == |ciphertext| >= AEAD_TAG_BYTES && n < |EncodeFrame(header, ciphertext)|
    ensures ParseFrame(EncodeFrame(header, ciphertext)[..n])
         == if n == 0 then Success(None) else if n < 8 then Failure(InvalidFormat) else Failure(Io)
  {
    FrameFields(header, ciphertext);
    hide EncodeFrame, Le;
    var frame, bytes := EncodeFrame(header, ciphertext), EncodeFrame(header, ciphertext)[..n];
    if n >= 17 {
      assert bytes[13..17] == frame[13..17];
      Widths();
      LeRoundTrip(header.ciphertextLen, 4);
    }
  }

  /** A ciphertext shorter than its tag is a format error as soon as its length has been read. */
  lemma TaglessFrame(header: FrameHeader, tail: Bytes)
    requires header.ciphertextLen < 16
    ensures ParseFrame(EncodeFrame(header, tail)) == Failure(InvalidFormat)
  {
    FrameFields(header, tail);
    hide EncodeFrame, Le;
    Widths();
    LeRoundTrip(header.ciphertextLen, 4);
  }

  /** The u32 sum of the check wraps around. */
  predicate FrameAccepted(header: FrameHeader, ciphertextBytes: nat, chunkSize: u32, expectedIndex: nat) {
    && header.index == expectedIndex
    && header.plaintextLen <= chunkSize
    && header.ciphertextLen == (header.plaintextLen + AEAD_TAG_BYTES) % 0x1_0000_0000
    && ciphertextBytes % 0x1_0000_0000 == header.ciphertextLen
    && (header.isLast || header.plaintextLen > 0)
  }

  /** An accepted frame that was parsed has its tag: the wrapped sum never passes. */
  lemma AcceptedLengths(bytes: Bytes, chunkSize: u32, expectedIndex: nat)
    requires ParseFrame(bytes).Success? && ParseFrame(bytes).value.Some?
    requires var f := ParseFrame(bytes).value.value;
      FrameAccepted(f.header, |f.ciphertext|, chunkSize, expectedIndex)
    ensures var f := ParseFrame(bytes).value.value;
      |f.ciphertext| == f.header.ciphertextLen == f.header.plaintextLen + AEAD_TAG_BYTES
  {
  }

  // ---------------------------------------------------------------- associated data

  // "TLCK-CHUNK-AD-v1"
  const AAD_DOMAIN: Bytes :=
    [0x54, 0x4C, 0x43, 0x4B, 0x2D, 0x43, 0x48, 0x55, 0x4E, 0x4B, 0x2D, 0x41, 0x44, 0x2D, 0x76, 0x31]

  function ChunkAad(digest: Key, index: u64, plaintextLen: u32, isLast: bool): Bytes {
    AAD_DOMAIN + digest + Le(index, 8) + Le(plaintextLen, 4) + [Flag(isLast)]
  }

  /** The associated data determines the digest, the index, the length and the terminal flag. */
  lemma AadInjective(d: Key, i: u64, n: u32, l: bool, d': Key, i': u64, n': u32, l': bool)
    requires ChunkAad(d, i, n, l) == ChunkAad(d', i', n', l')
    ensures d == d' && i == i' && n == n' && l == l'
  {
    AadFields(d, i, n, l);
    AadFields(d', i', n', l');
    Widths();
    LeInjective(i, i', 8);
    LeInjective(n, n', 4);
  }

  lemma AadFields(d: Key, i: u64, n: u32, l: bool)
    ensures var aad := ChunkAad(d, i, n, l);
      && |aad| == 61 && aad[16..48] == d && aad[48..56] == Le(i, 8) && aad[56..60] == Le(n, 4) && aad[60] == Flag(l)
  {
  }

  // ---------------------------------------------------------------- reading and writing

  method WriteChunkFrame(writer: ByteWriter, header: FrameHeader, ciphertext: Bytes) returns (r: Result<()>)
    modifies writer
    ensures header.ciphertextLen != |ciphertext| ==> r == Failure(InvalidArgument) && writer.written == old(writer.written)
    ensures header.ciphertextLen == |ciphertext| ==>
      r == Success(()) && writer.written == old(writer.written) + EncodeFrame(header, ciphertext)
  {
    if header.ciphertextLen != |ciphertext| {
      return Failure(InvalidArgument);
    }
    writer.WriteAll(Le(header.index, 8));
    writer.WriteAll([Flag(header.isLast)]);
    writer.WriteAll(Le(header.plaintextLen, 4));
    writer.WriteAll(Le(header.ciphertextLen, 4));
    writer.WriteAll(header.nonce);
    writer.WriteAll(ciphertext);
    r := Success(());
  }

  /** The first field: nothing at the end of input, an error for a partial field. */
  method ReadExactOrEof(reader: ByteReader, width: nat) returns (r: Result<Option<Bytes>>)
    requires reader.Valid() && width > 0
    modifies reader
    ensures reader.Valid()
    ensures old(reader.Remaining()) == [] ==> r == Success(None)
    ensures 0 < |old(reader.Remaining())| < width ==> r == Failure(InvalidFormat)
    ensures width <= |old(reader.Remaining())| ==>
      r == Success(Some(old(reader.Remaining())[..width])) && reader.Remaining() == old(reader.Remaining())[width..]
  {
    var filled := reader.Fill(width);
    if |filled| < width {
      return if |filled| == 0 then Success(None) else Failure(InvalidFormat);
    }
    r := Success(Some(filled));
  }

  /** The index, terminal flag and two lengths, in order. */
  method ReadFixedFields(reader: ByteReader) returns (r: Result<Option<Bytes>>)
    requires reader.Valid()
    modifies reader
    ensures reader.Valid()
    ensures old(reader.Remaining()) == [] ==> r == Success(None)
    ensures 0 < |old(reader.Remaining())| < 8 ==> r == Failure(InvalidFormat)
    ensures 8 <= |old(reader.Remaining())| < 17 ==> r == Failure(Io)
    ensures 17 <= |old(reader.Remaining())| ==>
      r == Success(Some(old(reader.Remaining())[..17])) && reader.Remaining() == old(reader.Remaining())[17..]
  {
    ghost var input := reader.Remaining();
    var index :- ReadExactOrEof(reader, 8);
    if index == None {
      return Success(None);
    }
    var isLast :- reader.ReadExact(1);
    assert index.value + isLast == input[..9] && reader.Remaining() == input[9..];
    var plaintextLen :- reader.ReadExact(4);
    assert index.value + isLast + plaintextLen == input[..13] && reader.Remaining() == input[13..];
    var ciphertextLen :- reader.ReadExact(4);
    assert index.value + isLast + plaintextLen + ciphertextLen == input[..17] && reader.Remaining() == input[17..];
    r := Success(Some(index.value + isLast + plaintextLen + ciphertextLen));
  }

  /** Reading a frame through any schedule of short reads parses the front of the remaining input. */
  method ReadChunkFrame(reader: ByteReader) returns (r: Result<Option<(FrameHeader, Bytes)>>)
    requires reader.Valid()
    modifies reader
    ensures reader.Valid()
    ensures r.Failure? ==> ParseFrame(old(reader.Remaining())) == Failure(r.error)
    ensures r == Success(None) ==> ParseFrame(old(reader.Remaining())) == Success(None)
    ensures r.Success? && r.value.Some? ==>
      ParseFrame(old(reader.Remaining()))
        == Success(Some(ParsedFrame(r.value.value.0, r.value.value.1, reader.Remaining())))
  {
    ghost var input := reader.Remaining();
    var maybeFields :- ReadFixedFields(reader);
    if maybeFields == None {
      return Success(None);
    }
    var fields := maybeFields.value;
    assert fields[13..17] == input[13..17];
    var ciphertextLen := FromLe(fields[13..17]);
    if ciphertextLen < AEAD_TAG_BYTES {
      return Failure(InvalidFormat);
    }
    var nonce :- reader.ReadExact(24);
    assert fields + nonce == input[..41] && reader.Remaining() == input[41..];
    var ciphertext :- reader.ReadExact(ciphertextLen);
    HeaderOfPrefix(input);
    assert ciphertext == input[41..41 + ciphertextLen] && reader.Remaining() == input[41 + ciphertextLen..];
    r := Success(Some((HeaderAt(fields + nonce), ciphertext)));
  }

  lemma HeaderOfPrefix(bytes: Bytes)
    requires |bytes| >= HEADER_BYTES
    ensures HeaderAt(bytes[..41]) == HeaderAt(bytes)
  {
    var p := bytes[..41];
    assert p[..8] == bytes[..8] && p[9..13] == bytes[9..13] && p[13..17] == bytes[13..17] && p[17..41] == bytes[17..41];
  }
}

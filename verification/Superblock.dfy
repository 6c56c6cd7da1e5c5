// The two framed copies of the superblock body, and how a reader chooses between them.
module Superblock {
  import opened Base
  import opened Streams
  import opened SuperblockBody

  type Checksum = Bytes -> u32

  const START_MAGIC: Bytes := [0x54, 0x4C, 0x53, 0x42]  // "TLSB"
  const END_MAGIC: Bytes := [0x54, 0x4C, 0x45, 0x42]    // "TLEB"
  const FRAME_BYTES := 12

  datatype ValidatedCopy = ValidatedCopy(body: Body, bodyBytes: Bytes, totalLen: nat)

  function StartFrame(crc: Checksum, bodyBytes: Bytes): Bytes {
    START_MAGIC + Le(|bodyBytes|, 4) + Le(crc(bodyBytes), 4) + bodyBytes
  }

  function EndFrame(crc: Checksum, bodyBytes: Bytes): Bytes {
    bodyBytes + (Le(crc(bodyBytes), 4) + Le(|bodyBytes|, 4) + END_MAGIC)
  }

  function EncodeStartCopy(crc: Checksum, b: Body): Result<Bytes> {
    var bodyBytes :- EncodeBody(b);
    Success(StartFrame(crc, bodyBytes))
  }

  function EncodeEndCopy(crc: Checksum, b: Body): Result<Bytes> {
    var bodyBytes :- EncodeBody(b);
    Success(EndFrame(crc, bodyBytes))
  }

  /** A body whose checksum matches and which parses. */
  function ValidateCopy(crc: Checksum, bodyBytes: Bytes, expected: nat): Result<ValidatedCopy> {
    if crc(bodyBytes) != expected then Failure(InvalidFormat)
    else
      var body :- DecodeBody(bodyBytes);
      Success(ValidatedCopy(body, bodyBytes, FRAME_BYTES + |bodyBytes|))
  }

  /** The start copy at the front of the input; anything may follow it. */
  function DecodeStartCopy(crc: Checksum, s: Bytes): (r: Result<ValidatedCopy>)
    ensures r.Success? ==> FRAME_BYTES <= r.value.totalLen <= |s| && s[..4] == START_MAGIC
  {
    if |s| < FRAME_BYTES || s[..4] != START_MAGIC then Failure(InvalidFormat)
    else
      var len := IntAt(s, 4, 4);
      if len > MAX_BODY_BYTES then Failure(InvalidFormat)
      else if |s| < FRAME_BYTES + len then Failure(InvalidFormat)
      else ValidateCopy(crc, s[FRAME_BYTES..FRAME_BYTES + len], IntAt(s, 8, 4))
  }

  /** An end copy that is the whole input. */
  function DecodeEndCopy(crc: Checksum, s: Bytes): (r: Result<ValidatedCopy>)
    ensures r.Success? ==> r.value.totalLen == |s|
  {
    if |s| < FRAME_BYTES || s[|s| - 4..] != END_MAGIC then Failure(InvalidFormat)
    else
      var len := IntAt(s, |s| - 8, 4);
      if len > MAX_BODY_BYTES then Failure(InvalidFormat)
      else if |s| != len + FRAME_BYTES then Failure(InvalidFormat)
      else ValidateCopy(crc, s[..|s| - FRAME_BYTES], IntAt(s, |s| - 12, 4))
  }

  /** One usable copy is enough; two must agree byte for byte. */
  function ChooseCopy(start: Option<ValidatedCopy>, end: Option<ValidatedCopy>): Result<ValidatedCopy> {
    match (start, end)
    case (Some(s), Some(e)) => if s.bodyBytes == e.bodyBytes then Success(s) else Failure(InvalidFormat)
    case (Some(s), None) => Success(s)
    case (None, Some(e)) => Success(e)
    case (None, None) => Failure(InvalidFormat)
  }

  lemma StartFrameFields(crc: Checksum, bodyBytes: Bytes, rest: Bytes)
    requires |bodyBytes| <= MAX_BODY_BYTES
    ensures var s, n := StartFrame(crc, bodyBytes) + rest, |bodyBytes|;
      && |StartFrame(crc, bodyBytes)| == FRAME_BYTES + n && s[..4] == START_MAGIC
      && IntAt(s, 4, 4) == n && IntAt(s, 8, 4) == crc(bodyBytes) && s[FRAME_BYTES..FRAME_BYTES + n] == bodyBytes
  {
    var s := StartFrame(crc, bodyBytes) + rest;
    Widths();
    assert s[4..8] == Le(|bodyBytes|, 4) && s[8..12] == Le(crc(bodyBytes), 4);
    IntAtOf(s, 4, |bodyBytes|, 4);
    IntAtOf(s, 8, crc(bodyBytes), 4);
  }

  lemma StartCopyRoundTrip(crc: Checksum, b: Body, bodyBytes: Bytes, rest: Bytes)
    requires DecodeBody(bodyBytes) == Success(b)
    ensures |StartFrame(crc, bodyBytes)| == FRAME_BYTES + |bodyBytes|
    ensures DecodeStartCopy(crc, StartFrame(crc, bodyBytes) + rest)
         == Success(ValidatedCopy(b, bodyBytes, FRAME_BYTES + |bodyBytes|))
  {
    DecodedSize(bodyBytes);
    hide DecodeBody;
    StartFrameFields(crc, bodyBytes, rest);
  }

  lemma EndFrameFields(crc: Checksum, bodyBytes: Bytes, before: Bytes, s: Bytes)
    requires |bodyBytes| <= MAX_BODY_BYTES && s == before + EndFrame(crc, bodyBytes)
    ensures |EndFrame(crc, bodyBytes)| == |bodyBytes| + FRAME_BYTES
    ensures |s| == |before| + |bodyBytes| + FRAME_BYTES && s[|s| - 4..] == END_MAGIC
    ensures IntAt(s, |s| - 8, 4) == |bodyBytes| && IntAt(s, |s| - 12, 4) == crc(bodyBytes)
    ensures s[|before|..|s| - FRAME_BYTES] == bodyBytes
  {
    Widths();
    assert s[|s| - 12..|s| - 8] == Le(crc(bodyBytes), 4) && s[|s| - 8..|s| - 4] == Le(|bodyBytes|, 4);
    IntAtOf(s, |s| - 12, crc(bodyBytes), 4);
    IntAtOf(s, |s| - 8, |bodyBytes|, 4);
  }

  lemma EndCopyRoundTrip(crc: Checksum, b: Body, bodyBytes: Bytes)
    requires DecodeBody(bodyBytes) == Success(b)
    ensures |EndFrame(crc, bodyBytes)| == FRAME_BYTES + |bodyBytes|
    ensures DecodeEndCopy(crc, EndFrame(crc, bodyBytes))
         == Success(ValidatedCopy(b, bodyBytes, FRAME_BYTES + |bodyBytes|))
  {
    DecodedSize(bodyBytes);
    hide DecodeBody;
    assert [] + EndFrame(crc, bodyBytes) == EndFrame(crc, bodyBytes);
    EndFrameFields(crc, bodyBytes, [], EndFrame(crc, bodyBytes));
  }

  lemma StartCopyIsFrame(crc: Checksum, s: Bytes)
    requires DecodeStartCopy(crc, s).Success?
    ensures var copy := DecodeStartCopy(crc, s).value;
      && |copy.bodyBytes| <= MAX_BODY_BYTES && copy.totalLen == FRAME_BYTES + |copy.bodyBytes| <= |s|
      && s[..copy.totalLen] == StartFrame(crc, copy.bodyBytes) && DecodeBody(copy.bodyBytes) == Success(copy.body)
  {
    hide DecodeBody, Le, IntAt;
    LeOfIntAt(s, 4, 4);
    LeOfIntAt(s, 8, 4);
    var n := FRAME_BYTES + IntAt(s, 4, 4);
    FourPieces(s, 4, 8, 12, n);
  }

  lemma FourPieces(s: Bytes, i: nat, j: nat, k: nat, n: nat)
    requires i <= j <= k <= n <= |s|
    ensures s[..n] == s[..i] + s[i..j] + s[j..k] + s[k..n]
  {
  }

  lemma EndCopyIsFrame(crc: Checksum, s: Bytes)
    requires DecodeEndCopy(crc, s).Success?
    ensures var copy := DecodeEndCopy(crc, s).value;
      && |copy.bodyBytes| <= MAX_BODY_BYTES && copy.totalLen == FRAME_BYTES + |copy.bodyBytes|
      && s == EndFrame(crc, copy.bodyBytes) && DecodeBody(copy.bodyBytes) == Success(copy.body)
  {
    hide DecodeBody, Le, IntAt;
    var n := |s| - FRAME_BYTES;
    LeOfIntAt(s, n, 4);
    LeOfIntAt(s, n + 4, 4);
    assert s == s[..n] + (s[n..n + 4] + s[n + 4..n + 8] + s[n + 8..]);
  }

  /** A start copy decodes exactly when the input begins with the frame of a body of at most 1 MiB that decodes. */
  lemma StartCopyExactly(crc: Checksum, s: Bytes, body: Body, bodyBytes: Bytes)
    ensures DecodeStartCopy(crc, s) == Success(ValidatedCopy(body, bodyBytes, FRAME_BYTES + |bodyBytes|)) <==>
      StartFrame(crc, bodyBytes) <= s && DecodeBody(bodyBytes) == Success(body)
  {
    hide DecodeBody, DecodeStartCopy, Le;
    if DecodeStartCopy(crc, s) == Success(ValidatedCopy(body, bodyBytes, FRAME_BYTES + |bodyBytes|)) {
      StartCopyIsFrame(crc, s);
    }
    if StartFrame(crc, bodyBytes) <= s && DecodeBody(bodyBytes) == Success(body) {
      assert s == StartFrame(crc, bodyBytes) + s[|StartFrame(crc, bodyBytes)|..];
      StartCopyRoundTrip(crc, body, bodyBytes, s[|StartFrame(crc, bodyBytes)|..]);
    }
  }

  /** An end copy decodes exactly when it is the frame of such a body. */
  lemma EndCopyExactly(crc: Checksum, s: Bytes, body: Body, bodyBytes: Bytes)
    ensures DecodeEndCopy(crc, s) == Success(ValidatedCopy(body, bodyBytes, FRAME_BYTES + |bodyBytes|)) <==>
      s == EndFrame(crc, bodyBytes) && DecodeBody(bodyBytes) == Success(body)
  {
    hide DecodeBody, DecodeEndCopy, Le;
    if DecodeEndCopy(crc, s) == Success(ValidatedCopy(body, bodyBytes, FRAME_BYTES + |bodyBytes|)) {
      EndCopyIsFrame(crc, s);
    }
    if s == EndFrame(crc, bodyBytes) && DecodeBody(bodyBytes) == Success(body) {
      EndCopyRoundTrip(crc, body, bodyBytes);
    }
  }

  // ---------------------------------------------------------------- building the two copies

  method EncodeStartSuperblockCopy(crc: Checksum, b: Body) returns (r: Result<Bytes>)
    ensures r == EncodeStartCopy(crc, b)
  {
    hide BodyBytes;
    var encoded := EncodeSuperblockBody(b);
    var bodyBytes :- encoded;
    var out := new ByteWriter();
    out.WriteAll(START_MAGIC);
    out.WriteAll(Le(|bodyBytes|, 4));
    out.WriteAll(Le(crc(bodyBytes), 4));
    out.WriteAll(bodyBytes);
    assert [] + START_MAGIC == START_MAGIC;
    r := Success(out.written);
  }

  method EncodeEndSuperblockCopy(crc: Checksum, b: Body) returns (r: Result<Bytes>)
    ensures r == EncodeEndCopy(crc, b)
  {
    hide BodyBytes;
    var encoded := EncodeSuperblockBody(b);
    var bodyBytes :- encoded;
    var out := new ByteWriter();
    out.WriteAll(bodyBytes);
    out.WriteAll(Le(crc(bodyBytes), 4));
    out.WriteAll(Le(|bodyBytes|, 4));
    out.WriteAll(END_MAGIC);
    AppendThreeTo(bodyBytes, Le(crc(bodyBytes), 4), Le(|bodyBytes|, 4), END_MAGIC);
    r := Success(out.written);
  }

  lemma AppendThreeTo(a: Bytes, b: Bytes, c: Bytes, d: Bytes)
    ensures (([] + a + b) + c) + d == a + (b + c + d)
  {
  }
}

// The streams that the structural scan accepts are exactly the streams of the format.
module StreamShape {
  import opened Base
  import opened ChunkFrame
  import opened ProtectedStream

  /** These bytes are one whole frame: at its place, within the chunk size, tagged, and empty only if terminal. */
  ghost predicate FrameInPlace(piece: Bytes, index: nat, isLast: bool, chunkSize: u32) {
    && ParseFrame(piece).Success? && ParseFrame(piece).value.Some?
    && var f := ParseFrame(piece).value.value;
       && f.rest == [] && f.header.index == index && f.header.isLast == isLast
       && f.header.plaintextLen <= chunkSize && (isLast || f.header.plaintextLen > 0)
       && |f.ciphertext| == f.header.ciphertextLen == f.header.plaintextLen + AEAD_TAG_BYTES
  }

  /** Frames with consecutive indices, the last and only the last of them terminal. */
  ghost predicate FramesInPlace(pieces: seq<Bytes>, index: nat, chunkSize: u32)
    decreases |pieces|
  {
    && pieces != [] && FrameInPlace(pieces[0], index, |pieces| == 1, chunkSize)
    && (|pieces| > 1 ==> FramesInPlace(pieces[1..], index + 1, chunkSize))
  }

  ghost function PlaintextLength(pieces: seq<Bytes>): nat {
    if pieces == [] || ParseFrame(pieces[0]).Failure? || ParseFrame(pieces[0]).value.None? then 0
    else ParseFrame(pieces[0]).value.value.header.plaintextLen + PlaintextLength(pieces[1..])
  }

  /** A stream of the format with these counts. */
  ghost predicate IsStream(stream: Bytes, pieces: seq<Bytes>, chunkSize: u32, stats: ChunkStats) {
    && Concat(pieces) == stream && FramesInPlace(pieces, 0, chunkSize)
    && stats.chunkCount == |pieces| && stats.plaintextBytes == PlaintextLength(pieces)
  }

  /** A frame is parsed from its own bytes, whatever follows. */
  lemma FrameIsLocal(bytes: Bytes) returns (piece: Bytes)
    requires ParseFrame(bytes).Success? && ParseFrame(bytes).value.Some?
    ensures var f := ParseFrame(bytes).value.value;
      bytes == piece + f.rest && ParseFrame(piece) == Success(Some(ParsedFrame(f.header, f.ciphertext, [])))
  {
    var f := ParseFrame(bytes).value.value;
    piece := bytes[..HEADER_BYTES + |f.ciphertext|];
    SamePrefix(piece, bytes);
    hide FromLe, HeaderAt;
    var end := HEADER_BYTES + |f.ciphertext|;
    assert piece[HEADER_BYTES..end] == bytes[HEADER_BYTES..end] && piece[end..] == [];
  }

  lemma FrameThenRest(piece: Bytes, rest: Bytes)
    requires ParseFrame(piece).Success? && ParseFrame(piece).value.Some? && ParseFrame(piece).value.value.rest == []
    ensures var f := ParseFrame(piece).value.value;
      ParseFrame(piece + rest) == Success(Some(ParsedFrame(f.header, f.ciphertext, rest)))
  {
    SamePrefix(piece, piece + rest);
    hide FromLe, HeaderAt;
    var end := |piece|;
    assert (piece + rest)[HEADER_BYTES..end] == piece[HEADER_BYTES..end] && (piece + rest)[end..] == rest;
  }

  lemma SamePrefix(piece: Bytes, bytes: Bytes)
    requires HEADER_BYTES <= |piece| && piece <= bytes
    ensures bytes[..8] == piece[..8] && bytes[8] == piece[8] && bytes[9..13] == piece[9..13] && bytes[13..17] == piece[13..17]
    ensures bytes[17..41] == piece[17..41]
    ensures HeaderAt(bytes) == HeaderAt(piece)
  {
  }

  lemma EndIsEmpty(rest: Bytes)
    ensures AtEnd(rest).Success? <==> rest == []
  {
  }

  /** Prepending a frame that is not terminal. */
  lemma FrameInFront(piece: Bytes, rest: seq<Bytes>, index: nat, chunkSize: u32)
    requires FrameInPlace(piece, index, false, chunkSize) && FramesInPlace(rest, index + 1, chunkSize)
    ensures var pieces := [piece] + rest;
      && FramesInPlace(pieces, index, chunkSize) && Concat(pieces) == piece + Concat(rest) && |pieces| == 1 + |rest|
      && PlaintextLength(pieces) == ParseFrame(piece).value.value.header.plaintextLen + PlaintextLength(rest)
  {
    hide FrameInPlace;
    var pieces := [piece] + rest;
    assert pieces[1..] == rest;
    FrameParses(piece, index, false, chunkSize);
  }

  lemma FrameParses(piece: Bytes, index: nat, isLast: bool, chunkSize: u32)
    requires FrameInPlace(piece, index, isLast, chunkSize)
    ensures ParseFrame(piece).Success? && ParseFrame(piece).value.Some?
  {
  }

  lemma FrameAlone(piece: Bytes, index: nat, chunkSize: u32)
    requires FrameInPlace(piece, index, true, chunkSize)
    ensures FramesInPlace([piece], index, chunkSize) && Concat([piece]) == piece
    ensures PlaintextLength([piece]) == ParseFrame(piece).value.value.header.plaintextLen
  {
    assert [piece][1..] == [] && piece + [] == piece;
    assert Concat([]) == [] && PlaintextLength([]) == 0;
  }

  /** The next frame of a stream, with its own bytes split off. */
  lemma SplitFrame(stream: Bytes, chunkSize: u32, index: nat) returns (piece: Bytes)
    requires NextFrame(stream, chunkSize, index).Success?
    ensures var f := NextFrame(stream, chunkSize, index).value;
      && stream == piece + f.rest && FrameInPlace(piece, index, f.header.isLast, chunkSize)
      && ParseFrame(piece) == Success(Some(ParsedFrame(f.header, f.ciphertext, [])))
  {
    AcceptedLengths(stream, chunkSize, index);
    piece := FrameIsLocal(stream);
    hide ParseFrame;
  }

  lemma ScanStep(chunkSize: u32, stream: Bytes, index: nat, total: nat, rest: Bytes, isLast: bool, length: nat)
    requires var r := NextFrame(stream, chunkSize, index);
      r.Success? && r.value.rest == rest && r.value.header.isLast == isLast && r.value.header.plaintextLen == length
    ensures !isLast ==> ScanFrom(chunkSize, stream, index, total) == ScanFrom(chunkSize, rest, index + 1, total + length)
    ensures isLast && ScanFrom(chunkSize, stream, index, total).Success? ==> rest == []
    ensures isLast && rest == [] ==>
      var r := ScanFrom(chunkSize, stream, index, total);
      r.Success? && r.value.chunkCount == index + 1 && r.value.plaintextBytes == total + length
  {
    EndIsEmpty(rest);
    hide NextFrame, AtEnd;
  }

  lemma {:induction false} ScannedIsStream(chunkSize: u32, stream: Bytes, index: nat, total: nat) returns (pieces: seq<Bytes>)
    requires ScanFrom(chunkSize, stream, index, total).Success?
    ensures Concat(pieces) == stream && FramesInPlace(pieces, index, chunkSize)
    ensures var stats := ScanFrom(chunkSize, stream, index, total).value;
      stats.chunkCount == index + |pieces| && stats.plaintextBytes == total + PlaintextLength(pieces)
    decreases |stream|
  {
    var f := NextFrame(stream, chunkSize, index).value;
    var piece := SplitFrame(stream, chunkSize, index);
    var length := f.header.plaintextLen;
    hide ParseFrame, NextFrame, AtEnd, FrameInPlace, FramesInPlace, PlaintextLength, Concat, ScanFrom;
    ScanStep(chunkSize, stream, index, total, f.rest, f.header.isLast, length);
    if f.header.isLast {
      pieces := [piece];
      FrameAlone(piece, index, chunkSize);
      assert piece + [] == piece;
    } else {
      var rest := ScannedIsStream(chunkSize, f.rest, index + 1, total + length);
      pieces := [piece] + rest;
      FrameInFront(piece, rest, index, chunkSize);
    }
  }

  /** A frame in its place is the next frame of whatever it is in front of. */
  lemma NextInPlace(piece: Bytes, rest: Bytes, index: nat, isLast: bool, chunkSize: u32)
    requires FrameInPlace(piece, index, isLast, chunkSize)
    ensures var r := NextFrame(piece + rest, chunkSize, index);
      && r.Success? && r.value.rest == rest && r.value.header.isLast == isLast
      && r.value.header.plaintextLen == ParseFrame(piece).value.value.header.plaintextLen
  {
    var f := ParseFrame(piece).value.value;
    FrameThenRest(piece, rest);
    assert FrameAccepted(f.header, |f.ciphertext|, chunkSize, index);
    hide ParseFrame, FrameAccepted;
  }

  lemma {:induction false} StreamIsScanned(chunkSize: u32, pieces: seq<Bytes>, index: nat, total: nat)
    requires FramesInPlace(pieces, index, chunkSize)
    ensures var r := ScanFrom(chunkSize, Concat(pieces), index, total);
      r.Success? && r.value.chunkCount == index + |pieces| && r.value.plaintextBytes == total + PlaintextLength(pieces)
    decreases |pieces|
  {
    var piece, others, isLast := pieces[0], pieces[1..], |pieces| == 1;
    var rest := Concat(others);
    FrameParses(piece, index, isLast, chunkSize);
    var length := ParseFrame(piece).value.value.header.plaintextLen;
    assert PlaintextLength(pieces) == length + PlaintextLength(others);
    assert isLast ==> rest == [] && PlaintextLength(others) == 0;
    assert Concat(pieces) == piece + rest;
    NextInPlace(piece, rest, index, isLast, chunkSize);
    hide ParseFrame, NextFrame, AtEnd, FrameInPlace, ScanFrom, Concat, PlaintextLength;
    ScanStep(chunkSize, piece + rest, index, total, rest, isLast, length);
    if !isLast {
      StreamIsScanned(chunkSize, others, index + 1, total + length);
    }
  }

  /**
   * The scan accepts a stream with certain counts if and only if it is a stream of the format with those
   * counts: whole frames end to end, indices from 0 without gaps, the last and only the last terminal,
   * none larger than the chunk size, none but the last empty, every ciphertext 16 bytes longer.
   */
  lemma ScanExactly(chunkSize: u32, stream: Bytes, stats: ChunkStats)
    ensures Scan(chunkSize, stream) == Success(stats) <==> exists pieces :: IsStream(stream, pieces, chunkSize, stats)
  {
    hide ParseFrame, ScanFrom, FramesInPlace, PlaintextLength, Concat;
    if Scan(chunkSize, stream) == Success(stats) {
      var pieces := ScannedIsStream(chunkSize, stream, 0, 0);
      assert IsStream(stream, pieces, chunkSize, stats);
    }
    if pieces :| IsStream(stream, pieces, chunkSize, stats) {
      StreamIsScanned(chunkSize, pieces, 0, 0);
    }
  }
}

// Parsing an artifact from its bytes, from whichever superblock copy survives.
module Reader {
  import opened Base
  import opened Utf8
  import opened SuperblockBody
  import opened Superblock
  import opened Notice

  const MAX_U64 := 0xFFFF_FFFF_FFFF_FFFF

  datatype Artifact = Artifact(
    notice: Bytes, superblock: Body, superblockBytes: Bytes,
    startOffset: nat, payloadOffset: nat, endOffset: nat, fileLen: nat)

  /** A copy and where it lies. */
  datatype PlacedCopy = PlacedCopy(offset: nat, copy: ValidatedCopy)

  function CheckedAdd(a: nat, b: nat): Result<nat> {
    if a + b > MAX_U64 then Failure(InvalidFormat) else Success(a + b)
  }

  function CheckedSub(a: nat, b: nat): Result<nat> {
    if a < b then Failure(InvalidFormat) else Success(a - b)
  }

  function StartCopyOf(crc: Checksum, s: Bytes): Option<PlacedCopy> {
    var offset := FindStart(crc, s);
    if offset.Failure? || offset.value > |s| then None
    else
      var copy := DecodeStartCopy(crc, s[offset.value..]);
      if copy.Failure? then None else Some(PlacedCopy(offset.value, copy.value))
  }

  /** The end copy, located by the length field before the magic at the end of the file. */
  function EndCopyOf(crc: Checksum, s: Bytes): (r: Option<PlacedCopy>)
    ensures r.Some? ==> r.value.offset + r.value.copy.totalLen == |s|
  {
    if |s| < FRAME_BYTES || s[|s| - 4..] != END_MAGIC then None
    else
      var totalLen := IntAt(s, |s| - 8, 4) + FRAME_BYTES;
      if |s| < totalLen then None
      else
        var copy := DecodeEndCopy(crc, s[|s| - totalLen..]);
        if copy.Failure? then None else Some(PlacedCopy(|s| - totalLen, copy.value))
  }

  function CopyIn(p: Option<PlacedCopy>): Option<ValidatedCopy> {
    if p.Some? then Some(p.value.copy) else None
  }

  /** Start, payload and end offsets: counted forward from a start copy, backward from a lone end copy. */
  datatype Offsets = Offsets(start: nat, payload: nat, end: nat)

  function LocateOffsets(start: Option<PlacedCopy>, end: Option<PlacedCopy>, chosen: ValidatedCopy): Result<Offsets>
    requires start.Some? || end.Some?
  {
    var regionLen := chosen.body.fixed.payloadRegionLen;
    match start
    case Some(s) =>
      var payload :- CheckedAdd(s.offset, s.copy.totalLen);
      var endOffset :- (if end.Some? then Success(end.value.offset) else CheckedAdd(payload, regionLen));
      Success(Offsets(s.offset, payload, endOffset))
    case None =>
      var payload :- CheckedSub(end.value.offset, regionLen);
      var startOffset :- CheckedSub(payload, chosen.totalLen);
      Success(Offsets(startOffset, payload, end.value.offset))
  }

  function CheckOffsets(o: Offsets, regionLen: nat, fileLen: nat): Result<()> {
    var payloadEnd :- CheckedAdd(o.payload, regionLen);
    if payloadEnd > fileLen || o.end < payloadEnd then Failure(Verification) else Success(())
  }

  function NoticeText(s: Bytes): Bytes {
    var notice := DecodeNotice(s);
    if notice.Success? then notice.value.text else Ascii(DEFAULT_NOTICE)
  }

  function ReadArtifact(crc: Checksum, s: Bytes): Result<Artifact> {
    if |s| < 6 then Failure(InvalidFormat)
    else
      var start, end := StartCopyOf(crc, s), EndCopyOf(crc, s);
      var chosen :- ChooseCopy(CopyIn(start), CopyIn(end));
      var o :- LocateOffsets(start, end, chosen);
      var _ :- CheckOffsets(o, chosen.body.fixed.payloadRegionLen, |s|);
      Success(Artifact(NoticeText(s), chosen.body, chosen.bodyBytes, o.start, o.payload, o.end, |s|))
  }

  /** The payload slice of the file. */
  function PayloadBytes(s: Bytes, a: Artifact): Result<Bytes> {
    var end := a.payloadOffset + a.superblock.fixed.payloadRegionLen;
    if end > MAX_U64 then Failure(InvalidFormat)
    else if end > |s| then Failure(Verification)
    else Success(s[a.payloadOffset..end])
  }

  // ---------------------------------------------------------------- every accepted artifact is in bounds

  /**
   * Every artifact the reader accepts is laid out in order inside the file, so its payload slice can
   * be read from the same bytes; the body it reports is the one its stored bytes decode to.
   */
  lemma AcceptedIsInBounds(crc: Checksum, s: Bytes)
    requires ReadArtifact(crc, s).Success?
    ensures var a := ReadArtifact(crc, s).value;
      var payloadEnd := a.payloadOffset + a.superblock.fixed.payloadRegionLen;
      && a.startOffset <= a.payloadOffset <= payloadEnd <= a.endOffset <= a.fileLen == |s|
      && payloadEnd <= MAX_U64
      && PayloadBytes(s, a) == Success(s[a.payloadOffset..payloadEnd])
      && DecodeBody(a.superblockBytes) == Success(a.superblock)
  {
    hide DecodeBody, StartCopyOf, EndCopyOf;
    var start, end := StartCopyOf(crc, s), EndCopyOf(crc, s);
    StartCopyDecodes(crc, s);
    EndCopyDecodes(crc, s);
    var chosen := ChooseCopy(CopyIn(start), CopyIn(end)).value;
    LocatedInOrder(start, end, chosen, |s|);
  }

  lemma LocatedInOrder(start: Option<PlacedCopy>, end: Option<PlacedCopy>, chosen: ValidatedCopy, fileLen: nat)
    requires start.Some? || end.Some?
    requires end.Some? ==> end.value.offset <= fileLen
    requires LocateOffsets(start, end, chosen).Success?
    requires CheckOffsets(LocateOffsets(start, end, chosen).value, chosen.body.fixed.payloadRegionLen, fileLen).Success?
    ensures var o := LocateOffsets(start, end, chosen).value;
      o.start <= o.payload <= o.payload + chosen.body.fixed.payloadRegionLen <= o.end <= fileLen &&
      o.payload + chosen.body.fixed.payloadRegionLen <= MAX_U64
  {
  }

  lemma StartCopyDecodes(crc: Checksum, s: Bytes)
    ensures var p := StartCopyOf(crc, s);
      p.Some? ==> DecodeBody(p.value.copy.bodyBytes) == Success(p.value.copy.body)
  {
    hide DecodeBody;
  }

  lemma EndCopyDecodes(crc: Checksum, s: Bytes)
    ensures var p := EndCopyOf(crc, s);
      p.Some? ==> DecodeBody(p.value.copy.bodyBytes) == Success(p.value.copy.body)
  {
    hide DecodeBody;
  }

  // ---------------------------------------------------------------- what the writer lays down

  /** What the writer lays down. */
  function ArtifactBytes(crc: Checksum, notice: Bytes, bodyBytes: Bytes, region: Bytes): Bytes {
    NoticeBytes(notice) + (StartFrame(crc, bodyBytes) + (region + EndFrame(crc, bodyBytes)))
  }

  /** A file is accepted only on a usable copy, and never on two that disagree; what is read is what they say. */
  lemma CopiesAgree(crc: Checksum, s: Bytes)
    requires ReadArtifact(crc, s).Success?
    ensures var start, end, a := StartCopyOf(crc, s), EndCopyOf(crc, s), ReadArtifact(crc, s).value;
      && (start.Some? || end.Some?)
      && (start.Some? ==> start.value.copy.bodyBytes == a.superblockBytes && start.value.copy.body == a.superblock)
      && (end.Some? ==> end.value.copy.bodyBytes == a.superblockBytes && end.value.copy.body == a.superblock)
  {
    StartCopyDecodes(crc, s);
    EndCopyDecodes(crc, s);
    hide DecodeBody, StartCopyOf, EndCopyOf;
  }

  /** The layout of such a file, whatever has happened to its bytes since. */
  datatype Site = Site(noticeLen: nat, bodyBytes: Bytes, regionLen: nat) {
    function Start(): nat { 6 + noticeLen }

    function Payload(): nat { Start() + FRAME_BYTES + |bodyBytes| }

    function End(): nat { Payload() + regionLen }

    function Size(): nat { End() + FRAME_BYTES + |bodyBytes| }
  }

  /** The search finds the frame of this body at this offset. */
  predicate StartFrameAt(crc: Checksum, s: Bytes, offset: nat, bodyBytes: Bytes) {
    FindStart(crc, s).Success? && FindStart(crc, s).value == offset <= |s| && StartFrame(crc, bodyBytes) <= s[offset..]
  }

  /** The file ends in the frame of this body. */
  predicate EndsInFrame(crc: Checksum, s: Bytes, bodyBytes: Bytes) {
    var n := FRAME_BYTES + |bodyBytes|;
    |s| >= n && s[|s| - n..] == EndFrame(crc, bodyBytes)
  }

  /** The copy found at this offset is the one of this body. */
  predicate FoundAt(p: Option<PlacedCopy>, offset: nat, b: Body, bodyBytes: Bytes) {
    && p.Some? && p.value.offset == offset && p.value.copy.body == b && p.value.copy.bodyBytes == bodyBytes
    && p.value.copy.totalLen == FRAME_BYTES + |bodyBytes|
  }

  lemma StartFrameIsFound(crc: Checksum, s: Bytes, offset: nat, bodyBytes: Bytes, b: Body)
    requires StartFrameAt(crc, s, offset, bodyBytes) && DecodeBody(bodyBytes) == Success(b)
    ensures FoundAt(StartCopyOf(crc, s), offset, b, bodyBytes)
  {
    hide DecodeBody, DecodeStartCopy, FindStart, StartFrame;
    var rest := s[offset..][|StartFrame(crc, bodyBytes)|..];
    assert s[offset..] == StartFrame(crc, bodyBytes) + rest;
    StartCopyRoundTrip(crc, b, bodyBytes, rest);
  }

  lemma EndCopyAt(crc: Checksum, s: Bytes, end: nat, copy: ValidatedCopy)
    requires FRAME_BYTES <= |s| && end <= |s| && s[|s| - 4..] == END_MAGIC && IntAt(s, |s| - 8, 4) + FRAME_BYTES == |s| - end
    requires DecodeEndCopy(crc, s[end..]) == Success(copy)
    ensures EndCopyOf(crc, s) == Some(PlacedCopy(end, copy))
  {
    hide DecodeEndCopy, IntAt;
  }

  lemma EndFrameIsFound(crc: Checksum, s: Bytes, bodyBytes: Bytes, b: Body)
    requires EndsInFrame(crc, s, bodyBytes) && DecodeBody(bodyBytes) == Success(b)
    ensures FoundAt(EndCopyOf(crc, s), |s| - FRAME_BYTES - |bodyBytes|, b, bodyBytes)
  {
    DecodedSize(bodyBytes);
    hide DecodeBody, DecodeEndCopy, IntAt, EndFrame;
    var at := |s| - FRAME_BYTES - |bodyBytes|;
    assert s == s[..at] + EndFrame(crc, bodyBytes);
    EndFrameFields(crc, bodyBytes, s[..at], s);
    EndCopyRoundTrip(crc, b, bodyBytes);
    EndCopyAt(crc, s, at, DecodeEndCopy(crc, s[at..]).value);
    hide EndCopyOf;
  }

  // ---------------------------------------------------------------- exactly which files are accepted

  /** What is read is this copy, with the payload from here on. */
  predicate Reads(a: Artifact, s: Bytes, copy: ValidatedCopy, start: nat, payload: nat, end: nat) {
    && a.superblock == copy.body && a.superblockBytes == copy.bodyBytes
    && a.startOffset == start && a.payloadOffset == payload && a.endOffset == end && a.fileLen == |s|
    && a.notice == NoticeText(s)
  }

  lemma CopiesNeedRoom(crc: Checksum, s: Bytes)
    ensures StartCopyOf(crc, s).Some? || EndCopyOf(crc, s).Some? ==> |s| >= 6
    ensures StartCopyOf(crc, s).Some? ==>
      StartCopyOf(crc, s).value.offset + StartCopyOf(crc, s).value.copy.totalLen <= |s|
  {
    hide DecodeBody, ScanFrom;
  }

  /** With only the start copy a file is accepted exactly when it still holds the whole payload region after it. */
  lemma StartCopyAlone(crc: Checksum, s: Bytes, at: PlacedCopy)
    requires |s| <= MAX_U64 && StartCopyOf(crc, s) == Some(at) && EndCopyOf(crc, s) == None
    ensures var payload, regionLen := at.offset + at.copy.totalLen, at.copy.body.fixed.payloadRegionLen;
      && (ReadArtifact(crc, s).Success? <==> payload + regionLen <= |s|)
      && (ReadArtifact(crc, s).Failure? ==>
            ReadArtifact(crc, s).error == if payload + regionLen > MAX_U64 then InvalidFormat else Verification)
      && (ReadArtifact(crc, s).Success? ==>
            Reads(ReadArtifact(crc, s).value, s, at.copy, at.offset, payload, payload + regionLen))
  {
    CopiesNeedRoom(crc, s);
    hide StartCopyOf, EndCopyOf, NoticeText;
  }

  /**
   * With only the end copy a file is accepted exactly when the payload region and one superblock still
   * fit in front of it; the payload is the bytes right before the copy.
   */
  lemma EndCopyAlone(crc: Checksum, s: Bytes, at: PlacedCopy)
    requires |s| <= MAX_U64 && StartCopyOf(crc, s) == None && EndCopyOf(crc, s) == Some(at)
    ensures var regionLen := at.copy.body.fixed.payloadRegionLen;
      && (ReadArtifact(crc, s).Success? <==> regionLen + at.copy.totalLen <= at.offset)
      && (ReadArtifact(crc, s).Failure? ==> ReadArtifact(crc, s).error == InvalidFormat)
      && (ReadArtifact(crc, s).Success? ==>
            Reads(ReadArtifact(crc, s).value, s, at.copy, at.offset - regionLen - at.copy.totalLen,
                  at.offset - regionLen, at.offset))
  {
    CopiesNeedRoom(crc, s);
    hide StartCopyOf, NoticeText, DecodeEndCopy;
  }

  /** With both copies it is accepted exactly when they agree and the payload region fits between them. */
  lemma BothCopies(crc: Checksum, s: Bytes, start: PlacedCopy, end: PlacedCopy)
    requires |s| <= MAX_U64 && StartCopyOf(crc, s) == Some(start) && EndCopyOf(crc, s) == Some(end)
    ensures var payload, regionLen := start.offset + start.copy.totalLen, start.copy.body.fixed.payloadRegionLen;
      && (ReadArtifact(crc, s).Success? <==>
            start.copy.bodyBytes == end.copy.bodyBytes && payload + regionLen <= end.offset)
      && (ReadArtifact(crc, s).Failure? ==>
            ReadArtifact(crc, s).error
              == if start.copy.bodyBytes != end.copy.bodyBytes || payload + regionLen > MAX_U64 then InvalidFormat
                 else Verification)
      && (ReadArtifact(crc, s).Success? ==>
            Reads(ReadArtifact(crc, s).value, s, start.copy, start.offset, payload, end.offset))
  {
    CopiesNeedRoom(crc, s);
    hide StartCopyOf, NoticeText, DecodeEndCopy;
  }

  /** Without a usable copy nothing is read; the notice that is shown is the one that decodes, else the default. */
  lemma NoCopyNothing(crc: Checksum, s: Bytes)
    ensures StartCopyOf(crc, s) == None && EndCopyOf(crc, s) == None ==> ReadArtifact(crc, s) == Failure(InvalidFormat)
    ensures ReadArtifact(crc, s).Success? ==>
      var notice := ReadArtifact(crc, s).value.notice;
      && (DecodeNotice(s).Success? ==> notice == DecodeNotice(s).value.text)
      && (DecodeNotice(s).Failure? ==> notice == Ascii(DEFAULT_NOTICE))
  {
    hide StartCopyOf, EndCopyOf, DecodeNotice, Ascii;
  }

  // ---------------------------------------------------------------- either copy suffices

  /**
   * The payload region of this length can be located from here on: behind a start copy that is found,
   * with the end copy unusable or somewhere behind the region; or, when no start copy is found, right
   * before an end copy. The file may have lost its tail, have bytes appended, or have lost or gained
   * bytes in front.
   */
  predicate Located(crc: Checksum, s: Bytes, bodyBytes: Bytes, regionLen: nat, payload: nat) {
    var frame := FRAME_BYTES + |bodyBytes|;
    && frame <= payload && payload + regionLen <= |s|
    && ((StartFrameAt(crc, s, payload - frame, bodyBytes) &&
           (EndCopyOf(crc, s) == None || (EndsInFrame(crc, s, bodyBytes) && payload + regionLen <= |s| - frame)))
        || (StartCopyOf(crc, s) == None && EndsInFrame(crc, s, bodyBytes) && payload + regionLen == |s| - frame))
  }

  /** A payload region that can be located is read, under the right superblock. */
  lemma LocatedIsRead(crc: Checksum, s: Bytes, bodyBytes: Bytes, b: Body, payload: nat)
    requires |s| <= MAX_U64 && DecodeBody(bodyBytes) == Success(b)
    requires Located(crc, s, bodyBytes, b.fixed.payloadRegionLen, payload)
    ensures ReadArtifact(crc, s).Success?
    ensures var a := ReadArtifact(crc, s).value;
      && a.superblock == b && a.superblockBytes == bodyBytes && a.payloadOffset == payload
      && PayloadBytes(s, a) == Success(s[payload..payload + b.fixed.payloadRegionLen])
  {
    hide DecodeBody, StartCopyOf, EndCopyOf, ReadArtifact, StartFrameAt, EndsInFrame;
    var frame := FRAME_BYTES + |bodyBytes|;
    if StartFrameAt(crc, s, payload - frame, bodyBytes) {
      StartFrameIsFound(crc, s, payload - frame, bodyBytes, b);
      var start := StartCopyOf(crc, s).value;
      if EndCopyOf(crc, s) == None {
        StartCopyAlone(crc, s, start);
      } else {
        EndFrameIsFound(crc, s, bodyBytes, b);
        BothCopies(crc, s, start, EndCopyOf(crc, s).value);
      }
    } else {
      EndFrameIsFound(crc, s, bodyBytes, b);
      EndCopyAlone(crc, s, EndCopyOf(crc, s).value);
    }
    AcceptedIsInBounds(crc, s);
  }

  /** The start copy is found where it was written. */
  predicate StartSurvives(crc: Checksum, s: Bytes, site: Site) {
    StartFrameAt(crc, s, site.Start(), site.bodyBytes)
  }

  /** The end copy is where it was written. */
  predicate EndSurvives(crc: Checksum, s: Bytes, site: Site) {
    |s| == site.Size() && EndsInFrame(crc, s, site.bodyBytes)
  }

  /**
   * Either copy suffices: with both copies, with only the start copy or with only the end copy usable,
   * the same superblock and the same three offsets are read. With the start copy the file may have lost
   * everything behind the payload region, or have any bytes appended.
   */
  lemma EitherCopySuffices(crc: Checksum, s: Bytes, site: Site, b: Body)
    requires site.End() <= |s| <= MAX_U64
    requires DecodeBody(site.bodyBytes) == Success(b) && b.fixed.payloadRegionLen == site.regionLen
    requires StartSurvives(crc, s, site) || StartCopyOf(crc, s) == None
    requires EndSurvives(crc, s, site) || EndCopyOf(crc, s) == None
    requires StartSurvives(crc, s, site) || EndSurvives(crc, s, site)
    ensures ReadArtifact(crc, s)
         == Success(Artifact(NoticeText(s), b, site.bodyBytes, site.Start(), site.Payload(), site.End(), |s|))
    ensures PayloadBytes(s, ReadArtifact(crc, s).value) == Success(s[site.Payload()..site.End()])
  {
    hide DecodeBody, StartCopyOf, EndCopyOf, FindStart, StartFrame, EndFrame;
    if StartSurvives(crc, s, site) {
      StartFrameIsFound(crc, s, site.Start(), site.bodyBytes, b);
    }
    if EndSurvives(crc, s, site) {
      EndFrameIsFound(crc, s, site.bodyBytes, b);
    }
  }

  lemma FourParts(a: Bytes, b: Bytes, c: Bytes, d: Bytes, s: Bytes, i: nat, j: nat, k: nat)
    requires s == a + (b + (c + d)) && i == |a| && j == i + |b| && k == j + |c|
    ensures s[i..j] == b && s[j..k] == c && s[k..] == d && |s| == k + |d|
  {
  }

  lemma WrittenStartIsFound(crc: Checksum, notice: Bytes, bodyBytes: Bytes, b: Body, rest: Bytes, s: Bytes)
    requires |notice| <= MAX_NOTICE_BYTES && ValidUtf8(notice) && DecodeBody(bodyBytes) == Success(b)
    requires s == NoticeBytes(notice) + (StartFrame(crc, bodyBytes) + rest)
    ensures StartFrameAt(crc, s, 6 + |notice|, bodyBytes)
  {
    hide DecodeBody, FindStart, StartFrame, ValidUtf8;
    UndamagedStartFound(crc, notice, b, bodyBytes, rest, s);
    assert s[6 + |notice|..] == StartFrame(crc, bodyBytes) + rest;
  }

  /** An undamaged artifact has both copies. */
  lemma UndamagedSurvives(crc: Checksum, notice: Bytes, bodyBytes: Bytes, region: Bytes, b: Body)
    requires |notice| <= MAX_NOTICE_BYTES && ValidUtf8(notice) && DecodeBody(bodyBytes) == Success(b)
    ensures var s, site := ArtifactBytes(crc, notice, bodyBytes, region), Site(|notice|, bodyBytes, |region|);
      && |s| == site.Size() && StartSurvives(crc, s, site) && EndSurvives(crc, s, site)
      && s[site.Payload()..site.End()] == region
  {
    DecodedSize(bodyBytes);
    hide DecodeBody, FindStart, StartFrame, EndFrame, ValidUtf8;
    var s, site := ArtifactBytes(crc, notice, bodyBytes, region), Site(|notice|, bodyBytes, |region|);
    StartFrameFields(crc, bodyBytes, []);
    EndFrameFields(crc, bodyBytes, [], [] + EndFrame(crc, bodyBytes));
    WrittenStartIsFound(crc, notice, bodyBytes, b, region + EndFrame(crc, bodyBytes), s);
    hide StartFrameAt;
    FourParts(NoticeBytes(notice), StartFrame(crc, bodyBytes), region, EndFrame(crc, bodyBytes),
              s, site.Start(), site.Payload(), site.End());
  }

  lemma SurvivesIsLocated(crc: Checksum, s: Bytes, site: Site)
    requires StartSurvives(crc, s, site) || StartCopyOf(crc, s) == None
    requires EndSurvives(crc, s, site)
    ensures Located(crc, s, site.bodyBytes, site.regionLen, site.Payload())
  {
    hide StartFrameAt, EndsInFrame, StartCopyOf, EndCopyOf;
  }

  lemma UndamagedIsLocated(crc: Checksum, notice: Bytes, bodyBytes: Bytes, region: Bytes, b: Body)
    requires |notice| <= MAX_NOTICE_BYTES && ValidUtf8(notice) && DecodeBody(bodyBytes) == Success(b)
    ensures var s, payload := ArtifactBytes(crc, notice, bodyBytes, region), Site(|notice|, bodyBytes, |region|).Payload();
      Located(crc, s, bodyBytes, |region|, payload) && s[payload..payload + |region|] == region
  {
    hide DecodeBody, ValidUtf8, StartFrameAt, EndsInFrame, StartCopyOf, EndCopyOf, ArtifactBytes, Located;
    UndamagedSurvives(crc, notice, bodyBytes, region, b);
    SurvivesIsLocated(crc, ArtifactBytes(crc, notice, bodyBytes, region), Site(|notice|, bodyBytes, |region|));
  }

  lemma SameTail(crc: Checksum, s: Bytes, t: Bytes, bodyBytes: Bytes, k: nat)
    requires |s| == |t| && k + FRAME_BYTES + |bodyBytes| <= |s| && s[k..] == t[k..] && EndsInFrame(crc, s, bodyBytes)
    ensures EndsInFrame(crc, t, bodyBytes)
  {
    hide EndFrame;
    var at := |s| - FRAME_BYTES - |bodyBytes|;
    assert s[at..] == s[k..][at - k..] && t[at..] == t[k..][at - k..];
  }

  lemma NoMagicNoStart(crc: Checksum, s: Bytes)
    requires !HasFileMagic(s)
    ensures StartCopyOf(crc, s) == None
  {
  }

  /**
   * The file magic is not needed: a written file whose first four bytes have become anything else has no
   * start copy for the reader, and is read from its end copy.
   */
  lemma MagicIsNotNeeded(crc: Checksum, magic: Bytes, notice: Bytes, bodyBytes: Bytes, region: Bytes, b: Body)
    requires |notice| <= MAX_NOTICE_BYTES && ValidUtf8(notice)
    requires DecodeBody(bodyBytes) == Success(b) && b.fixed.payloadRegionLen == |region|
    requires |magic| == 4 && magic != FILE_MAGIC && |ArtifactBytes(crc, notice, bodyBytes, region)| <= MAX_U64
    ensures var s := magic + ArtifactBytes(crc, notice, bodyBytes, region)[4..];
      && StartCopyOf(crc, s) == None && ReadArtifact(crc, s).Success?
      && ReadArtifact(crc, s).value.superblock == b
      && PayloadBytes(s, ReadArtifact(crc, s).value) == Success(region)
  {
    hide DecodeBody, ValidUtf8, StartFrameAt, EndsInFrame, EndCopyOf, StartCopyOf, ArtifactBytes, ReadArtifact, PayloadBytes,
         Located;
    UndamagedSurvives(crc, notice, bodyBytes, region, b);
    var written, site := ArtifactBytes(crc, notice, bodyBytes, region), Site(|notice|, bodyBytes, |region|);
    var s := magic + written[4..];
    assert s[..4] == magic && s[4..] == written[4..];
    assert s[site.Payload()..site.End()] == written[site.Payload()..site.End()];
    NoMagicNoStart(crc, s);
    SameTail(crc, written, s, bodyBytes, 4);
    SurvivesIsLocated(crc, s, site);
    LocatedIsRead(crc, s, bodyBytes, b, site.Payload());
  }

  lemma LocatedByStart(crc: Checksum, s: Bytes, bodyBytes: Bytes, regionLen: nat, offset: nat, payload: nat)
    requires StartFrameAt(crc, s, offset, bodyBytes) && EndCopyOf(crc, s) == None
    requires payload == offset + FRAME_BYTES + |bodyBytes| && payload + regionLen <= |s|
    ensures Located(crc, s, bodyBytes, regionLen, payload)
  {
    hide StartFrameAt, EndCopyOf, StartCopyOf, EndsInFrame;
  }

  /** Whatever has become of everything behind the payload region, cut off or replaced, the start copy locates it. */
  lemma AnyTailIsLocated(crc: Checksum, notice: Bytes, bodyBytes: Bytes, region: Bytes, b: Body, tail: Bytes, s: Bytes)
    requires |notice| <= MAX_NOTICE_BYTES && ValidUtf8(notice) && DecodeBody(bodyBytes) == Success(b)
    requires s == NoticeBytes(notice) + (StartFrame(crc, bodyBytes) + (region + tail)) && EndCopyOf(crc, s) == None
    ensures var payload := Site(|notice|, bodyBytes, |region|).Payload();
      Located(crc, s, bodyBytes, |region|, payload) && s[payload..payload + |region|] == region
  {
    hide DecodeBody, ValidUtf8, StartFrame, EndCopyOf, StartCopyOf, EndsInFrame, StartFrameAt, Located;
    DecodedSize(bodyBytes);
    WrittenStartIsFound(crc, notice, bodyBytes, b, region + tail, s);
    StartFrameFields(crc, bodyBytes, []);
    var start := 6 + |notice|;
    var payload := start + FRAME_BYTES + |bodyBytes|;
    assert |NoticeBytes(notice)| == start;
    hide NoticeBytes;
    FourParts(NoticeBytes(notice), StartFrame(crc, bodyBytes), region, tail, s, start, payload, payload + |region|);
    LocatedByStart(crc, s, bodyBytes, |region|, start, payload);
  }

  /** Whatever has become of everything in front of it, as long as a superblock would fit, the end copy does. */
  lemma AnyFrontIsLocated(crc: Checksum, front: Bytes, bodyBytes: Bytes, region: Bytes, s: Bytes)
    requires |bodyBytes| <= MAX_BODY_BYTES && |front| >= FRAME_BYTES + |bodyBytes|
    requires s == front + (region + EndFrame(crc, bodyBytes)) && StartCopyOf(crc, s) == None
    ensures Located(crc, s, bodyBytes, |region|, |front|) && s[|front|..|front| + |region|] == region
  {
    EndFrameFields(crc, bodyBytes, [], [] + EndFrame(crc, bodyBytes));
    hide EndFrame, EndCopyOf, StartCopyOf, StartFrameAt;
    FourParts([], front, region, EndFrame(crc, bodyBytes), s, 0, |front|, |front| + |region|);
  }
}

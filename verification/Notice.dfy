// The plain-text notice, and the bounded search for the start superblock behind it.
module Notice {
  import opened Base
  import opened Utf8
  import opened SuperblockBody
  import opened Superblock

  const FILE_MAGIC: Bytes := [0x54, 0x4C, 0x43, 0x4B]  // "TLCK"
  const MAX_NOTICE_BYTES := 4096
  const SCAN_WINDOW_BYTES := 8192
  const DEFAULT_NOTICE :=
    "This is a Timelocked file. Use the Timelocked app (https://timelocked.app) to inspect or unlock it."

  lemma {:induction false} AsciiIsUtf8(bytes: Bytes)
    requires forall i :: 0 <= i < |bytes| ==> bytes[i] < 128
    ensures ValidUtf8(bytes)
  {
    if bytes != [] {
      AsciiIsUtf8(bytes[1..]);
    }
  }

  function NoticeBytes(notice: Bytes): Bytes {
    FILE_MAGIC + Le(|notice|, 2) + notice
  }

  function EncodeNotice(notice: Bytes): Result<Bytes> {
    if |notice| > MAX_NOTICE_BYTES then Failure(InvalidArgument) else Success(NoticeBytes(notice))
  }

  /** A notice is refused exactly when it is longer than 4096 bytes. */
  lemma NoticeFits(notice: Bytes)
    ensures EncodeNotice(notice)
         == if |notice| <= 4096 then Success(Ascii("TLCK") + Le(|notice|, 2) + notice) else Failure(InvalidArgument)
  {
    assert FILE_MAGIC == Ascii("TLCK");
  }

  /** The notice and the offset behind it. */
  datatype FoundNotice = FoundNotice(text: Bytes, end: nat)

  predicate HasFileMagic(s: Bytes) { |s| >= 6 && s[..4] == FILE_MAGIC }

  function DecodeNotice(s: Bytes): (r: Result<FoundNotice>)
    ensures r.Success? ==> 6 <= r.value.end <= 6 + MAX_NOTICE_BYTES && r.value.end <= |s|
  {
    if !HasFileMagic(s) then Failure(InvalidFormat)
    else
      var len := IntAt(s, 4, 2);
      if len > MAX_NOTICE_BYTES then Failure(InvalidFormat)
      else if |s| < 6 + len then Failure(InvalidFormat)
      else if !ValidUtf8(s[6..6 + len]) then Failure(InvalidFormat)
      else Success(FoundNotice(s[6..6 + len], 6 + len))
  }

  /** A decodable start copy lies at this offset. */
  predicate StartsAt(crc: Checksum, s: Bytes, offset: nat) {
    offset <= |s| && DecodeStartCopy(crc, s[offset..]).Success?
  }

  /** The scan looks at the offsets from 6 up to here. */
  function ScanLimit(s: Bytes): nat {
    var scanEnd := Min(|s|, 6 + SCAN_WINDOW_BYTES);
    if scanEnd < 3 then 0 else scanEnd - 3
  }

  function ScanFrom(crc: Checksum, s: Bytes, offset: nat): Result<nat>
    decreases ScanLimit(s) - offset
  {
    if offset >= ScanLimit(s) then Failure(InvalidFormat)
    else if StartsAt(crc, s, offset) then Success(offset)
    else ScanFrom(crc, s, offset + 1)
  }

  /** First where the notice says the superblock is, then by scanning the window. */
  function FindStart(crc: Checksum, s: Bytes): Result<nat> {
    if !HasFileMagic(s) then Failure(InvalidFormat)
    else
      var notice := DecodeNotice(s);
      if notice.Success? && StartsAt(crc, s, notice.value.end) then Success(notice.value.end)
      else ScanFrom(crc, s, 6)
  }

  /** The bounded scan with its early return; the magic is compared before a copy is decoded. */
  method FindStartSuperblockOffset(crc: Checksum, s: Bytes) returns (r: Result<nat>)
    ensures r == FindStart(crc, s)
  {
    if !HasFileMagic(s) {
      return Failure(InvalidFormat);
    }
    var notice := DecodeNotice(s);
    if notice.Success? {
      var end := notice.value.end;
      if |s| >= end + 4 && s[end..end + 4] == START_MAGIC && DecodeStartCopy(crc, s[end..]).Success? {
        return Success(end);
      }
      MagicFirst(crc, s, end);
    }
    var offset := 6;
    while offset < ScanLimit(s)
      invariant ScanFrom(crc, s, offset) == ScanFrom(crc, s, 6)
      decreases ScanLimit(s) - offset
    {
      if s[offset..offset + 4] == START_MAGIC && DecodeStartCopy(crc, s[offset..]).Success? {
        return Success(offset);
      }
      MagicFirst(crc, s, offset);
      offset := offset + 1;
    }
    r := Failure(InvalidFormat);
  }

  lemma MagicFirst(crc: Checksum, s: Bytes, offset: nat)
    ensures StartsAt(crc, s, offset) ==> |s| >= offset + FRAME_BYTES && s[offset..offset + 4] == START_MAGIC
  {
    if StartsAt(crc, s, offset) {
      assert s[offset..][..4] == s[offset..offset + 4];
    }
  }

  lemma {:induction false} ScanFinds(crc: Checksum, s: Bytes, from: nat, target: nat)
    requires from <= target < ScanLimit(s) && StartsAt(crc, s, target)
    requires forall o :: from <= o < target ==> !StartsAt(crc, s, o)
    ensures ScanFrom(crc, s, from) == Success(target)
    decreases target - from
  {
    hide StartsAt;
    if from < target {
      ScanFinds(crc, s, from + 1, target);
    }
  }

  lemma {:induction false} ScanSound(crc: Checksum, s: Bytes, from: nat)
    ensures var r := ScanFrom(crc, s, from); r.Success? ==> from <= r.value < ScanLimit(s) && StartsAt(crc, s, r.value)
    decreases ScanLimit(s) - from
  {
    hide StartsAt;
    if from < ScanLimit(s) {
      ScanSound(crc, s, from + 1);
    }
  }

  /** Whatever offset the search returns, a decodable start copy is there. */
  lemma FoundStartDecodes(crc: Checksum, s: Bytes)
    requires FindStart(crc, s).Success?
    ensures StartsAt(crc, s, FindStart(crc, s).value)
  {
    ScanSound(crc, s, 6);
  }

  /**
   * Exactly which offset is found: the one the notice claims, if a start copy decodes there; else the
   * least offset from 6 on, with its magic within the first 8198 bytes, at which one does.
   */
  lemma FindStartExactly(crc: Checksum, s: Bytes, target: nat)
    ensures FindStart(crc, s) == Success(target) <==>
      && |s| >= 6 && s[..4] == Ascii("TLCK")
      && target <= |s| && DecodeStartCopy(crc, s[target..]).Success?
      && (Claims(s, target) ||
           ((forall o :: Claims(s, o) ==> !StartsAt(crc, s, o)) && 6 <= target && target + 4 <= 8198 &&
            (forall o :: 6 <= o < target ==> !StartsAt(crc, s, o))))
  {
    assert FILE_MAGIC == Ascii("TLCK");
    hide DecodeStartCopy, Ascii;
    ScanSound(crc, s, 6);
    if ScanFrom(crc, s, 6).Success? {
      ScanLeast(crc, s, 6);
    }
    MagicFirst(crc, s, target);
    if HasFileMagic(s) && StartsAt(crc, s, target) && 6 <= target && target + 4 <= 8198
      && forall o :: 6 <= o < target ==> !StartsAt(crc, s, o) {
      assert target < ScanLimit(s);
      ScanFinds(crc, s, 6, target);
    }
    if DecodeNotice(s).Success? {
      assert Claims(s, DecodeNotice(s).value.end);
    }
  }

  lemma NoticeRoundTrip(notice: Bytes, rest: Bytes)
    requires |notice| <= MAX_NOTICE_BYTES && ValidUtf8(notice)
    ensures DecodeNotice(NoticeBytes(notice) + rest) == Success(FoundNotice(notice, |NoticeBytes(notice)|))
  {
    var s := NoticeBytes(notice) + rest;
    Widths();
    assert s[..4] == FILE_MAGIC && s[4..6] == Le(|notice|, 2);
    IntAtOf(s, 4, |notice|, 2);
    assert s[6..6 + |notice|] == notice;
  }

  /** On an undamaged file the search returns the true offset, whatever the notice says. */
  lemma UndamagedStartFound(crc: Checksum, notice: Bytes, b: Body, bodyBytes: Bytes, rest: Bytes, s: Bytes)
    requires |notice| <= MAX_NOTICE_BYTES && ValidUtf8(notice) && DecodeBody(bodyBytes) == Success(b)
    requires s == NoticeBytes(notice) + (StartFrame(crc, bodyBytes) + rest)
    ensures FindStart(crc, s).Success? && FindStart(crc, s).value == 6 + |notice|
  {
    hide DecodeBody, StartFrame;
    NoticeRoundTrip(notice, StartFrame(crc, bodyBytes) + rest);
    assert s[|NoticeBytes(notice)|..] == StartFrame(crc, bodyBytes) + rest;
    StartCopyRoundTrip(crc, b, bodyBytes, rest);
    assert HasFileMagic(s) by { assert s[..4] == FILE_MAGIC; }
  }

  /** The offset the notice claims, if it decodes. */
  predicate Claims(s: Bytes, offset: nat) {
    DecodeNotice(s).Success? && DecodeNotice(s).value.end == offset
  }

  /**
   * Notice damage is harmless: with the magic and the start copy intact, whatever the notice length and
   * text have become, the search returns the true offset if and only if no other decodable start copy
   * lies before it or at the claimed offset.
   */
  lemma DamagedNoticeStartFound(crc: Checksum, s: Bytes, target: nat)
    requires HasFileMagic(s) && 6 <= target <= 6 + MAX_NOTICE_BYTES && StartsAt(crc, s, target)
    ensures FindStart(crc, s) == Success(target) <==>
      Claims(s, target) ||
      ((forall o :: 6 <= o < target ==> !StartsAt(crc, s, o)) && (forall o :: Claims(s, o) ==> !StartsAt(crc, s, o)))
  {
    var notice := DecodeNotice(s);
    assert target < ScanLimit(s) by { MagicFirst(crc, s, target); }
    if notice.Success? && StartsAt(crc, s, notice.value.end) {
      assert Claims(s, notice.value.end);
    } else if forall o :: 6 <= o < target ==> !StartsAt(crc, s, o) {
      ScanFinds(crc, s, 6, target);
    } else if FindStart(crc, s) == Success(target) {
      ScanLeast(crc, s, 6);
    }
  }

  lemma {:induction false} ScanLeast(crc: Checksum, s: Bytes, from: nat)
    requires ScanFrom(crc, s, from).Success?
    ensures forall o :: from <= o < ScanFrom(crc, s, from).value ==> !StartsAt(crc, s, o)
    decreases ScanLimit(s) - from
  {
    hide StartsAt;
    if !StartsAt(crc, s, from) {
      ScanLeast(crc, s, from + 1);
    }
  }

  /** The same for a window that holds no other decodable start copy at all. */
  lemma LoneStartFound(crc: Checksum, s: Bytes, target: nat)
    requires HasFileMagic(s) && 6 <= target <= 6 + MAX_NOTICE_BYTES && StartsAt(crc, s, target)
    requires forall o :: 6 <= o <= 6 + MAX_NOTICE_BYTES && o != target ==> !StartsAt(crc, s, o)
    ensures FindStart(crc, s) == Success(target)
  {
    DamagedNoticeStartFound(crc, s, target);
  }

  /** A notice decodes exactly when the input begins with the bytes of a text of at most 4096 bytes. */
  lemma NoticeExactly(s: Bytes, n: FoundNotice)
    ensures DecodeNotice(s) == Success(n) <==>
      && |n.text| <= 4096 && IsText(n.text) && n.end == 6 + |n.text| <= |s|
      && s[..n.end] == NoticeBytes(n.text)
  {
    TextExactly(n.text);
    hide IsText;
    if DecodeNotice(s) == Success(n) {
      LeOfIntAt(s, 4, 2);
      assert s[..n.end] == s[..4] + s[4..6] + s[6..n.end];
    } else if |n.text| <= MAX_NOTICE_BYTES && ValidUtf8(n.text) && n.end == 6 + |n.text| <= |s|
      && s[..n.end] == NoticeBytes(n.text) {
      assert s == NoticeBytes(n.text) + s[n.end..];
      NoticeRoundTrip(n.text, s[n.end..]);
    }
  }
}

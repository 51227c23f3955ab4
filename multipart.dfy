/**
 * The boundary-delimited record format shared by the live MJPEG stream
 * (boundary `frame`) and the segment files on disk (boundary
 * `CameraLinkMJPEG`), following section 5.1.1 of RFC 2046:
 *
 *   --<boundary> CRLF Content-Type: image/jpeg CRLF Content-Length: <n> CRLF CRLF <n bytes> CRLF
 *
 * A parser for the same format shows that a concatenation of records can be
 * split back into exactly the frames that went in.
 */
module Multipart {
  import opened Text

  /** A boundary token: printable ASCII without CR or LF. */
  predicate IsToken(b: string) {
    forall i :: 0 <= i < |b| ==> ' ' <= b[i] <= '~'
  }

  type Token = b: string | IsToken(b) witness ""

  /** Boundary of the HTTP stream, as announced by `boundary=frame`. */
  const StreamBoundary: Token := "frame"
  /** Boundary written into segment files. */
  const SegmentBoundary: Token := "CameraLinkMJPEG"

  const CRLF: string := "\r\n"

  /** `--<boundary>` CRLF */
  function BoundaryLine(boundary: string): string { "--" + boundary + CRLF }

  /** `Content-Type: image/jpeg` CRLF */
  function ContentTypeLine(): string { "Content-Type: image/jpeg" + CRLF }

  /** `Content-Length: <n>` CRLF CRLF: the length line and the blank line. */
  function LengthLine(n: nat): string { "Content-Length: " + Decimal(n) + CRLF + CRLF }

  /** The whole header of a record carrying `n` bytes. */
  function Header(boundary: string, n: nat): string {
    BoundaryLine(boundary) + ContentTypeLine() + LengthLine(n)
  }

  /** The part of a header in front of the decimal length. */
  function HeaderPrefix(boundary: string): string {
    BoundaryLine(boundary) + ContentTypeLine() + "Content-Length: "
  }

  lemma BoundaryLineAscii(boundary: Token)
    ensures IsAscii(BoundaryLine(boundary))
  {
    var s := BoundaryLine(boundary);
    forall i | 0 <= i < |s| ensures s[i] as int < 128 {
      if 2 <= i < 2 + |boundary| { assert s[i] == boundary[i - 2]; }
    }
  }

  lemma ContentTypeLineAscii()
    ensures IsAscii(ContentTypeLine())
  {
  }

  lemma LengthLineAscii(n: nat)
    ensures IsAscii(LengthLine(n))
  {
    var d := Decimal(n);
    DecimalIsAscii(n);
    var s := LengthLine(n);
    forall i | 0 <= i < |s| ensures s[i] as int < 128 {
      if 16 <= i < 16 + |d| { assert s[i] == d[i - 16]; }
    }
  }

  /** Every piece of a header is ASCII, and so is the header. */
  lemma HeaderIsAscii(boundary: Token, n: nat)
    ensures IsAscii(BoundaryLine(boundary)) && IsAscii(ContentTypeLine()) && IsAscii(LengthLine(n))
    ensures IsAscii(HeaderPrefix(boundary)) && IsAscii(Header(boundary, n))
    ensures Ascii(Header(boundary, n)) == Ascii(BoundaryLine(boundary)) + Ascii(ContentTypeLine()) + Ascii(LengthLine(n))
  {
    BoundaryLineAscii(boundary);
    ContentTypeLineAscii();
    LengthLineAscii(n);
    AsciiAppend(BoundaryLine(boundary), ContentTypeLine());
    AsciiAppend(BoundaryLine(boundary) + ContentTypeLine(), LengthLine(n));
    assert IsAscii("Content-Length: ");
    AsciiAppend(BoundaryLine(boundary) + ContentTypeLine(), "Content-Length: ");
  }

  /**
   * One record, in the order the segment writer emits its pieces: boundary
   * line, content type line, length line, the frame bytes, CRLF.
   */
  function Record(boundary: Token, frame: seq<byte>): (r: seq<byte>)
  {
    HeaderIsAscii(boundary, |frame|);
    Ascii(BoundaryLine(boundary)) + Ascii(ContentTypeLine()) + Ascii(LengthLine(|frame|)) + frame + Ascii(CRLF)
  }

  /** The same record built as the stream does: the header text's bytes, the frame, CRLF. */
  lemma RecordFromHeader(boundary: Token, frame: seq<byte>)
    ensures IsAscii(Header(boundary, |frame|))
    ensures Record(boundary, frame) == Ascii(Header(boundary, |frame|)) + frame + Ascii(CRLF)
  {
    HeaderIsAscii(boundary, |frame|);
  }

  /** The stream of records for a sequence of frames, in order. */
  function Records(boundary: Token, frames: seq<seq<byte>>): seq<byte>
  {
    if frames == [] then [] else Records(boundary, frames[..|frames| - 1]) + Record(boundary, frames[|frames| - 1])
  }

  lemma RecordsAppend(boundary: Token, frames: seq<seq<byte>>, f: seq<byte>)
    ensures Records(boundary, frames + [f]) == Records(boundary, frames) + Record(boundary, f)
  {
    assert (frames + [f])[..|frames|] == frames;
  }

  /** A record is longer than its frame by exactly its header and trailer. */
  lemma RecordLength(boundary: Token, frame: seq<byte>)
    ensures |Record(boundary, frame)| == |Header(boundary, |frame|)| + |frame| + 2
    ensures |Record(boundary, frame)| > |frame|
  {
  }

  // ------------------------------------------------------------------ parsing

  predicate IsDigitByte(x: byte) { '0' as int <= x as int <= '9' as int }

  /** The bytes read back as characters. */
  function Chars(bs: seq<byte>): (s: string)
    ensures |s| == |bs|
    ensures forall i :: 0 <= i < |bs| ==> s[i] as int == bs[i] as int
  {
    seq(|bs|, i requires 0 <= i < |bs| => bs[i] as int as char)
  }

  /** Number of leading decimal-digit bytes. */
  function LeadingDigits(bs: seq<byte>): (k: nat)
    ensures k <= |bs|
    ensures forall i :: 0 <= i < k ==> IsDigitByte(bs[i])
    ensures k < |bs| ==> !IsDigitByte(bs[k])
  {
    if bs == [] || !IsDigitByte(bs[0]) then 0 else 1 + LeadingDigits(bs[1..])
  }

  datatype Parsed = Parsed(frame: seq<byte>, rest: seq<byte>)

  /**
   * Reads one record from the front of `data`: the fixed prefix, a non-empty
   * decimal length n, CRLF CRLF, n frame bytes and CRLF.
   */
  function ParseRecord(boundary: Token, data: seq<byte>): Option<Parsed>
  {
    HeaderIsAscii(boundary, 0);
    var p := Ascii(HeaderPrefix(boundary));
    if |data| < |p| || data[..|p|] != p then None
    else
      var d := data[|p|..];
      var k := LeadingDigits(d);
      var digits := Chars(d[..k]);
      if k == 0 then None
      else
        var n := DigitsValue(digits);
        var after := d[k..];
        if |after| < 4 + n + 2 || after[..4] != Ascii(CRLF + CRLF) || after[4 + n..4 + n + 2] != Ascii(CRLF) then None
        else Some(Parsed(after[4..4 + n], after[4 + n + 2..]))
  }

  lemma CharsAscii(s: string)
    requires IsAscii(s)
    ensures Chars(Ascii(s)) == s
  {
  }

  /** The header bytes split at the decimal length. */
  lemma LengthBytes(boundary: Token, n: nat)
    ensures IsAscii(BoundaryLine(boundary)) && IsAscii(ContentTypeLine()) && IsAscii(LengthLine(n))
    ensures IsAscii(HeaderPrefix(boundary)) && IsAscii(Decimal(n)) && IsAscii(CRLF + CRLF)
    ensures Ascii(BoundaryLine(boundary)) + Ascii(ContentTypeLine()) + Ascii(LengthLine(n))
         == Ascii(HeaderPrefix(boundary)) + Ascii(Decimal(n)) + Ascii(CRLF + CRLF)
  {
    HeaderIsAscii(boundary, n);
    DecimalIsAscii(n);
    var bl, ct := BoundaryLine(boundary), ContentTypeLine();
    var key, d, end := "Content-Length: ", Decimal(n), CRLF + CRLF;
    assert IsAscii(key) && IsAscii(end);
    assert LengthLine(n) == key + d + end;
    AsciiAppend(key, d);
    AsciiAppend(key + d, end);
    AsciiAppend(bl, ct);
    AsciiAppend(bl + ct, key);
    RegroupFive(Ascii(bl), Ascii(ct), Ascii(key), Ascii(d), Ascii(end));
  }

  lemma RegroupFive<T>(a: seq<T>, b: seq<T>, c: seq<T>, d: seq<T>, e: seq<T>)
    ensures a + b + (c + d + e) == a + b + c + d + e
  {
  }

  /** The digit run stops at the first byte that is not a digit. */
  lemma {:induction false} LeadingDigitsOf(digits: seq<byte>, tail: seq<byte>)
    requires forall i :: 0 <= i < |digits| ==> IsDigitByte(digits[i])
    requires tail != [] && !IsDigitByte(tail[0])
    ensures LeadingDigits(digits + tail) == |digits|
  {
    if digits != [] {
      assert (digits + tail)[1..] == digits[1..] + tail;
      LeadingDigitsOf(digits[1..], tail);
    }
  }

  lemma SplitTwo<T>(a: seq<T>, b: seq<T>)
    ensures (a + b)[..|a|] == a && (a + b)[|a|..] == b
  {
  }

  lemma Regroup<T>(a: seq<T>, b: seq<T>, c: seq<T>, d: seq<T>, e: seq<T>, f: seq<T>)
    ensures a + b + c + d + e + f == a + (b + (c + d + e + f))
  {
  }

  /** What follows the decimal length: CRLF CRLF, the frame, CRLF, and the rest. */
  lemma RecordTail(after: seq<byte>, frame: seq<byte>, rest: seq<byte>)
    requires after == Ascii(CRLF + CRLF) + frame + Ascii(CRLF) + rest
    ensures |after| >= 4 + |frame| + 2
    ensures after[..4] == Ascii(CRLF + CRLF) && after[4 + |frame|..4 + |frame| + 2] == Ascii(CRLF)
    ensures after[4..4 + |frame|] == frame && after[4 + |frame| + 2..] == rest
  {
    var sep, crlf := Ascii(CRLF + CRLF), Ascii(CRLF);
    assert after[..4] == sep;
    assert after[4..4 + |frame|] == frame;
    assert after[4 + |frame|..4 + |frame| + 2] == crlf;
    assert after[4 + |frame| + 2..] == rest;
  }

  /** The parser reads back the frame of a record and leaves what follows it. */
  lemma ParseRecordRoundTrip(boundary: Token, frame: seq<byte>, rest: seq<byte>)
    ensures ParseRecord(boundary, Record(boundary, frame) + rest) == Some(Parsed(frame, rest))
  {
    var n := |frame|;
    LengthBytes(boundary, n);
    var p := Ascii(HeaderPrefix(boundary));
    var dec := Ascii(Decimal(n));
    var after := Ascii(CRLF + CRLF) + frame + Ascii(CRLF) + rest;
    var d := dec + after;
    var data := Record(boundary, frame) + rest;
    Regroup(p, dec, Ascii(CRLF + CRLF), frame, Ascii(CRLF), rest);
    assert data == p + d;
    SplitTwo(p, d);
    LeadingDigitsOf(dec, after);
    SplitTwo(dec, after);
    CharsAscii(Decimal(n));
    RecordTail(after, frame, rest);
  }

  /** Splits a byte stream into frames, record by record; None if it is not one. */
  function ParseRecords(boundary: Token, data: seq<byte>): Option<seq<seq<byte>>>
    decreases |data|
  {
    if data == [] then Some([])
    else match ParseRecord(boundary, data)
      case None => None
      case Some(Parsed(f, rest)) =>
        if |rest| >= |data| then None
        else match ParseRecords(boundary, rest)
          case None => None
          case Some(fs) => Some([f] + fs)
  }

  /** Records in front of a sequence of frames, frames first to last. */
  function RecordsFrom(boundary: Token, frames: seq<seq<byte>>): seq<byte>
  {
    if frames == [] then [] else Record(boundary, frames[0]) + RecordsFrom(boundary, frames[1..])
  }

  lemma {:induction false} RecordsFromAppend(boundary: Token, frames: seq<seq<byte>>, f: seq<byte>)
    ensures RecordsFrom(boundary, frames + [f]) == RecordsFrom(boundary, frames) + Record(boundary, f)
  {
    if frames != [] {
      assert (frames + [f])[1..] == frames[1..] + [f];
      RecordsFromAppend(boundary, frames[1..], f);
    }
  }

  lemma {:induction false} RecordsSame(boundary: Token, frames: seq<seq<byte>>)
    ensures Records(boundary, frames) == RecordsFrom(boundary, frames)
  {
    if frames != [] {
      var init := frames[..|frames| - 1];
      RecordsSame(boundary, init);
      RecordsFromAppend(boundary, init, frames[|frames| - 1]);
      SnocSplit(frames);
    }
  }

  /**
   * A concatenation of whole records is a valid stream: parsing it gives back
   * exactly the frames, in order. A segment file is therefore playable as is.
   */
  lemma {:induction false} ParseRecordsRoundTrip(boundary: Token, frames: seq<seq<byte>>)
    ensures ParseRecords(boundary, Records(boundary, frames)) == Some(frames)
  {
    RecordsSame(boundary, frames);
    ParseFrom(boundary, frames);
  }

  /** One record read from the front, then the rest parsed: the frames of both, in order. */
  lemma ParseRecordsStep(boundary: Token, data: seq<byte>, f: seq<byte>, rest: seq<byte>, fs: seq<seq<byte>>)
    requires data != []
    requires ParseRecord(boundary, data) == Some(Parsed(f, rest)) && |rest| < |data|
    requires ParseRecords(boundary, rest) == Some(fs)
    ensures ParseRecords(boundary, data) == Some([f] + fs)
  {
  }

  lemma {:induction false} ParseFrom(boundary: Token, frames: seq<seq<byte>>)
    ensures ParseRecords(boundary, RecordsFrom(boundary, frames)) == Some(frames)
  {
    if frames != [] {
      var f, fs := frames[0], frames[1..];
      var rest := RecordsFrom(boundary, fs);
      var data := Record(boundary, f) + rest;
      assert RecordsFrom(boundary, frames) == data;
      ParseRecordRoundTrip(boundary, f, rest);
      RecordLength(boundary, f);
      ParseFrom(boundary, fs);
      ParseRecordsStep(boundary, data, f, rest, fs);
      ConsSplit(frames);
    }
  }
}

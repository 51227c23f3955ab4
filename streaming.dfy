/**
 * The HTTP side of the streaming server: one slot holding the latest JPEG
 * frame, the routing of request paths, the snapshot endpoint, and the
 * MJPEG stream, an input stream that hands out whole multipart records of
 * whatever frame the slot holds when it needs a new one.
 */
module Streaming {
  import opened Text
  import opened Multipart

  /** The response statuses the server uses. */
  datatype Status = Ok | NotFound | ServiceUnavailable

  function Code(s: Status): int {
    match s
    case Ok => 200
    case NotFound => 404
    case ServiceUnavailable => 503
  }

  const MimePlainText: string := "text/plain"
  const MimeJpeg: string := "image/jpeg"
  const MimeHtml: string := "text/html"
  const StreamContentType: string := "multipart/x-mixed-replace; boundary=" + StreamBoundary

  /** A response body: fixed text, fixed bytes with their declared length, the home page, or the live stream. */
  datatype Body = TextBody(text: string) | BytesBody(data: seq<byte>, length: int) | HomePage | LiveStream

  datatype Response = Response(status: Status, mimeType: string, body: Body)

  /** The request paths `serve` knows. */
  datatype Route = Home | Stream | Snapshot | Test | Unknown

  /** Which handler a path goes to. */
  function RouteOf(uri: string): (r: Route)
    ensures r == Home <==> uri == "/" || uri == "/index.html"
    ensures r == Stream <==> uri == "/stream"
    ensures r == Snapshot <==> uri == "/snapshot"
    ensures r == Test <==> uri == "/test"
  {
    if uri == "/" || uri == "/index.html" then Home
    else if uri == "/stream" then Stream
    else if uri == "/snapshot" then Snapshot
    else if uri == "/test" then Test
    else Unknown
  }

  /** The text of `/test`. */
  function TestText(frameAvailable: bool): string {
    "Server is working! Frame available: " + (if frameAvailable then "true" else "false")
  }

  /** `serveSnapshot`: the held frame as a JPEG of its own length, or 503 when there is none. */
  function SnapshotResponse(frame: Option<seq<byte>>): (r: Response)
    ensures r.status == Ok <==> frame.Some? && frame.value != []
    ensures r.status == Ok ==> r == Response(Ok, MimeJpeg, BytesBody(frame.value, |frame.value|))
    ensures r.status != Ok ==> r == Response(ServiceUnavailable, MimePlainText, TextBody("No frame available"))
  {
    if frame.Some? && frame.value != [] then Response(Ok, MimeJpeg, BytesBody(frame.value, |frame.value|))
    else Response(ServiceUnavailable, MimePlainText, TextBody("No frame available"))
  }

  /** `serve`: dispatch on the path; every unknown path is 404 "Not Found". */
  function ServeWith(frame: Option<seq<byte>>, uri: string): (r: Response)
    ensures RouteOf(uri) == Unknown <==> r == Response(NotFound, MimePlainText, TextBody("Not Found"))
    ensures r.status == NotFound <==> RouteOf(uri) == Unknown
  {
    match RouteOf(uri)
    case Home => Response(Ok, MimeHtml, HomePage)
    case Stream => Response(Ok, StreamContentType, LiveStream)
    case Snapshot => SnapshotResponse(frame)
    case Test => Response(Ok, MimePlainText, TextBody(TestText(frame.Some?)))
    case Unknown => Response(NotFound, MimePlainText, TextBody("Not Found"))
  }

  /** Every response is 200, except the 404 for unknown paths and the 503 of a snapshot without a frame. */
  lemma ServeStatuses(frame: Option<seq<byte>>, uri: string)
    ensures ServeWith(frame, uri).status == ServiceUnavailable <==> RouteOf(uri) == Snapshot && (frame.None? || frame.value == [])
    ensures ServeWith(frame, uri).status == Ok <==> RouteOf(uri) != Unknown && !(RouteOf(uri) == Snapshot && (frame.None? || frame.value == []))
  {
  }

  /** The stream's content type names the boundary its records use. */
  lemma StreamContentTypeNamesBoundary()
    ensures StreamContentType[|StreamContentType| - |StreamBoundary|..] == StreamBoundary
  {
  }

  /** `StreamingServer`: the latest frame, empty until the first non-empty JPEG arrives. */
  class StreamingServer {
    var currentFrame: Option<seq<byte>>

    /** The slot never holds an empty frame. */
    ghost predicate Valid()
      reads this
    {
      currentFrame.Some? ==> currentFrame.value != []
    }

    constructor ()
      ensures Valid() && currentFrame == None
    {
      currentFrame := None;
    }

    /**
     * `updateFrame`, given what the JPEG conversion produced: a non-empty
     * result replaces the held frame, an empty one (the conversion's
     * failure value) leaves it in place.
     */
    method UpdateFrame(jpegBytes: seq<byte>)
      requires Valid()
      modifies this
      ensures Valid()
      ensures currentFrame == if jpegBytes != [] then Some(jpegBytes) else old(currentFrame)
    {
      if jpegBytes != [] {
        currentFrame := Some(jpegBytes);
      }
    }

    function Serve(uri: string): Response
      reads this
    {
      ServeWith(currentFrame, uri)
    }
  }

  /** With the slot's invariant, the snapshot is 200 exactly when a frame has been stored. */
  lemma SnapshotIffStored(frame: Option<seq<byte>>)
    requires frame.Some? ==> frame.value != []
    ensures SnapshotResponse(frame).status == Ok <==> frame.Some?
    ensures frame.Some? ==> SnapshotResponse(frame).body.data == frame.value
  {
  }

  // --------------------------------------------------------------------- the stream

  /** What one `read()` call yields: a byte, or, with no frame at any poll, still waiting. */
  datatype ReadResult = Byte(b: byte) | Waiting

  /** The record the stream builds for a frame: header text, frame, CRLF. */
  function StreamRecord(frame: seq<byte>): (r: seq<byte>)
    ensures r == Record(StreamBoundary, frame)
  {
    RecordFromHeader(StreamBoundary, frame);
    Ascii(Header(StreamBoundary, |frame|)) + frame + Ascii(CRLF)
  }

  /** Appending the next frame's record keeps the bytes equal to the records, none of them empty. */
  lemma NextRecordKeeps(sent: seq<byte>, records: seq<seq<byte>>, frame: seq<byte>)
    requires sent == Records(StreamBoundary, records) && frame != []
    requires forall i :: 0 <= i < |records| ==> records[i] != []
    ensures StreamRecord(frame) != []
    ensures sent + StreamRecord(frame) == Records(StreamBoundary, records + [frame])
    ensures forall i :: 0 <= i < |records + [frame]| ==> (records + [frame])[i] != []
  {
    RecordLength(StreamBoundary, frame);
    RecordsAppend(StreamBoundary, records, frame);
    var next := records + [frame];
    forall i | 0 <= i < |next| ensures next[i] != [] {
      if i < |records| { assert next[i] == records[i]; }
    }
  }

  /**
   * The input stream of `/stream`. `currentData` is what is left of the
   * record being handed out (null once drained); `records` are the frames
   * whose records were built, and `sent` the bytes handed out so far.
   */
  class MjpegStream {
    var frameIterator: int
    var currentData: Option<seq<byte>>
    ghost var records: seq<seq<byte>>
    ghost var sent: seq<byte>

    /** The bytes handed out and the rest of the current record are exactly the records built. */
    ghost predicate Valid()
      reads this
    {
      && frameIterator == |records|
      && (forall i :: 0 <= i < |records| ==> records[i] != [])
      && sent + (if currentData.Some? then currentData.value else []) == Records(StreamBoundary, records)
    }

    constructor ()
      ensures Valid() && frameIterator == 0 && currentData == None && records == [] && sent == []
    {
      frameIterator := 0;
      currentData := None;
      records := [];
      sent := [];
    }

    /** Hand out the next byte of the current record. */
    method TakeByte() returns (b: byte)
      requires Valid() && currentData.Some? && currentData.value != []
      modifies this
      ensures Valid()
      ensures sent == old(sent) + [b] && records == old(records)
    {
      var data := currentData.value;
      b := data[0];
      sent := sent + [b];
      currentData := Some(data[1..]);
      assert sent + data[1..] == old(sent) + data;
    }

    /** Build the record of a frame as the new current data and count it. */
    method NextRecord(frame: seq<byte>)
      requires Valid() && currentData.None? && frame != []
      modifies this
      ensures Valid()
      ensures records == old(records) + [frame] && sent == old(sent)
      ensures currentData == Some(Record(StreamBoundary, frame)) && currentData.value != []
    {
      var combined := StreamRecord(frame);
      NextRecordKeeps(sent, records, frame);
      currentData := Some(combined);
      records := records + [frame];
      frameIterator := frameIterator + 1;
    }

    /**
     * `read()`. The loop hands out the next byte of the current record; a
     * drained record is dropped; then the slot is polled: a non-empty
     * frame becomes the next record, otherwise the stream sleeps and
     * polls again. `polls` are the slot's values at successive polls; if
     * none of them holds a frame the call is still waiting afterwards. It
     * never reports the end of the stream.
     */
    method Read(polls: seq<Option<seq<byte>>>) returns (r: ReadResult)
      requires Valid()
      modifies this
      ensures Valid()
      ensures r.Byte? ==> sent == old(sent) + [r.b]
      ensures r.Waiting? ==> sent == old(sent) && currentData == None && records == old(records)
      ensures r.Waiting? ==> forall i :: 0 <= i < |polls| ==> polls[i].None? || polls[i].value == []
      ensures records == old(records) || (
        && |records| == |old(records)| + 1
        && records[..|old(records)|] == old(records)
        && Some(records[|records| - 1]) in polls
        && (old(currentData).None? || old(currentData).value == []))
    {
      ghost var records0, data0 := records, currentData;
      ghost var built := false;
      ghost var f: seq<byte> := [];
      var i := 0;
      while true
        invariant Valid()
        invariant 0 <= i <= |polls|
        invariant sent == old(sent)
        invariant !built ==> records == records0
        invariant !built ==> forall j :: 0 <= j < i ==> polls[j].None? || polls[j].value == []
        invariant !built && i > 0 ==> currentData == None
        invariant !built && i == 0 ==> currentData == data0
        invariant built ==> records == records0 + [f] && Some(f) in polls
        invariant built ==> (data0.None? || data0.value == []) && currentData.Some? && currentData.value != []
        decreases |polls| - i, if currentData.Some? && currentData.value != [] then 0 else 1
      {
        if currentData.Some? {
          if currentData.value != [] {
            var b := TakeByte();
            if built {
              assert (records0 + [f])[..|records0|] == records0;
            }
            return Byte(b);
          }
          currentData := None;
        }
        if i == |polls| {
          return Waiting;
        }
        var frame := polls[i];
        i := i + 1;
        if frame.Some? && frame.value != [] {
          NextRecord(frame.value);
          built, f := true, frame.value;
        }
      }
    }
  }

  /**
   * The stream is whole records: whenever no record is half handed out,
   * the bytes sent parse back into exactly the frames, in order.
   */
  lemma WholeRecords(sent: seq<byte>, records: seq<seq<byte>>)
    requires sent == Records(StreamBoundary, records)
    ensures ParseRecords(StreamBoundary, sent) == Some(records)
  {
    ParseRecordsRoundTrip(StreamBoundary, records);
  }
}

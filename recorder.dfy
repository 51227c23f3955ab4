/**
 * The segmented local recorder: a writer that appends multipart records to
 * one segment file and counts its bytes, and a recorder whose public calls
 * flip a recording flag at once and queue their work, which then runs one
 * body at a time in submission order (the coroutine scope behind one mutex).
 */
module Recorder {
  import opened Text
  import opened Multipart
  import opened SegmentEntry
  import opened Retention

  /** A segment is rotated after ten minutes ... */
  const MaxSegmentDurationMillis: int := 10 * 60 * 1000
  /** ... or once it holds about 150 MB. */
  const MaxSegmentSizeBytes: int := 150 * 1024 * 1024

  /** The rotation rule of `rotateIfNeededLocked`. */
  predicate NeedsRotation(elapsedMillis: int, bytesWritten: int) {
    elapsedMillis >= MaxSegmentDurationMillis || bytesWritten >= MaxSegmentSizeBytes
  }

  // ------------------------------------------------------------ the calls

  /** A public call on the recorder. */
  datatype Call = Start | Stop | AppendFrame(frame: seq<byte>)

  /** A body submitted to the recorder's scope, run later under the mutex. */
  datatype Op = OpenSegment | CloseSegment | Append(frame: seq<byte>)

  /** The recording flag after a call (`getAndSet` in start and stop). */
  function FlagAfter(recording: bool, c: Call): bool {
    match c
    case Start => true
    case Stop => false
    case AppendFrame(_) => recording
  }

  /** The bodies a call submits, given the flag it finds. */
  function Submits(recording: bool, c: Call): seq<Op> {
    match c
    case Start => if recording then [] else [OpenSegment]
    case Stop => if recording then [CloseSegment] else []
    case AppendFrame(f) => if recording && f != [] then [Append(f)] else []
  }

  /** A sequence of calls from a given flag: the final flag and every body submitted, in order. */
  datatype Trace = Trace(recording: bool, ops: seq<Op>)

  function Run(recording: bool, calls: seq<Call>): Trace {
    if calls == [] then Trace(recording, [])
    else
      var t := Run(recording, calls[..|calls| - 1]);
      var c := calls[|calls| - 1];
      Trace(FlagAfter(t.recording, c), t.ops + Submits(t.recording, c))
  }

  /** The open and close bodies of a queue, with the appends left out. */
  function Controls(ops: seq<Op>): seq<Op> {
    if ops == [] then []
    else (if ops[0].Append? then [] else [ops[0]]) + Controls(ops[1..])
  }

  lemma {:induction false} ControlsAppend(a: seq<Op>, b: seq<Op>)
    ensures Controls(a + b) == Controls(a) + Controls(b)
  {
    if a != [] {
      assert (a + b)[0] == a[0];
      assert (a + b)[1..] == a[1..] + b;
      ControlsAppend(a[1..], b);
      assert Controls(a + b) == (if a[0].Append? then [] else [a[0]]) + Controls(a[1..] + b);
    } else {
      assert a + b == b;
    }
  }

  /** Open and close bodies alternate, starting with an open. */
  predicate Alternating(ctrl: seq<Op>) {
    forall i :: 0 <= i < |ctrl| ==> ctrl[i] == (if i % 2 == 0 then OpenSegment else CloseSegment)
  }

  /** The next control body in turn keeps the alternation. */
  lemma AlternatingSnoc(ctrl: seq<Op>, op: Op)
    requires Alternating(ctrl) && op == (if |ctrl| % 2 == 0 then OpenSegment else CloseSegment)
    ensures Alternating(ctrl + [op])
  {
    var next := ctrl + [op];
    forall i | 0 <= i < |next| ensures next[i] == (if i % 2 == 0 then OpenSegment else CloseSegment) {
      if i < |ctrl| { assert next[i] == ctrl[i]; }
    }
  }

  /** One step of `Run`: the trace of a longer call list extends the shorter one's. */
  lemma RunStep(recording: bool, calls: seq<Call>)
    requires calls != []
    ensures var t0 := Run(recording, calls[..|calls| - 1]);
      var c := calls[|calls| - 1];
      Run(recording, calls) == Trace(FlagAfter(t0.recording, c), t0.ops + Submits(t0.recording, c))
  {
  }

  /**
   * From an idle recorder, the submitted open and close bodies alternate
   * (no segment is opened twice without a close in between, no close
   * without an open), and the flag is set exactly when the last of them is
   * an open.
   */
  lemma {:induction false} RunAlternates(calls: seq<Call>)
    ensures Alternating(Controls(Run(false, calls).ops))
    ensures Run(false, calls).recording <==> |Controls(Run(false, calls).ops)| % 2 == 1
  {
    if calls != [] {
      var prev := calls[..|calls| - 1];
      var c := calls[|calls| - 1];
      RunAlternates(prev);
      RunStep(false, calls);
      var t0 := Run(false, prev);
      var added := Submits(t0.recording, c);
      ControlsAppend(t0.ops, added);
      var c0 := Controls(t0.ops);
      if added == [] {
      } else if c.AppendFrame? {
        assert Controls(added) == [];
      } else {
        var op := if c.Start? then OpenSegment else CloseSegment;
        assert added == [op] && Controls(added) == added;
        AlternatingSnoc(c0, op);
      }
    }
  }

  /** Every append is a non-empty frame submitted while a segment was open. */
  lemma {:induction false} RunAppendsWhileOpen(calls: seq<Call>)
    ensures var ops := Run(false, calls).ops;
      forall i :: 0 <= i < |ops| && ops[i].Append? ==>
        ops[i].frame != [] && |Controls(ops[..i])| % 2 == 1
  {
    if calls != [] {
      var prev := calls[..|calls| - 1];
      var c := calls[|calls| - 1];
      RunAppendsWhileOpen(prev);
      RunAlternates(prev);
      RunStep(false, calls);
      var t0 := Run(false, prev);
      var ops := Run(false, calls).ops;
      assert ops == t0.ops + Submits(t0.recording, c);
      forall i | 0 <= i < |ops| && ops[i].Append?
        ensures ops[i].frame != [] && |Controls(ops[..i])| % 2 == 1
      {
        if i < |t0.ops| {
          assert ops[..i] == t0.ops[..i];
        } else {
          assert i == |t0.ops| && ops[..i] == t0.ops;
        }
      }
    }
  }

  /** Two `start()` calls in a row open one segment from an idle recorder and none from a recording one. */
  lemma StartTwiceOpensOnce(recording: bool)
    ensures Run(recording, [Start, Start]).ops == (if recording then [] else [OpenSegment])
    ensures Run(recording, [Start, Start]).recording
  {
    assert [Start, Start][..1] == [Start];
    assert [Start][..0] == [];
    RunStep(recording, [Start, Start]);
    RunStep(recording, [Start]);
  }

  /** A call submits a body only when it changes the flag, except an append, which needs the flag set. */
  lemma SubmitsOnlyOnChange(recording: bool, c: Call)
    requires !c.AppendFrame?
    ensures Submits(recording, c) != [] <==> FlagAfter(recording, c) != recording
  {
  }

  // --------------------------------------------------------------- the writer

  /**
   * `RollingFileWriter`: the open output stream of one segment file. The
   * file's bytes are `contents`; `frames` are the frames written so far.
   */
  class SegmentWriter {
    const entry: Entry
    var contents: seq<byte>
    var bytesWritten: int
    var closed: bool
    ghost var frames: seq<seq<byte>>

    /** The counter is the file's length, and the file is the records of the frames written. */
    ghost predicate Valid()
      reads this
    {
      bytesWritten == |contents| && contents == Records(SegmentBoundary, frames)
    }

    /**
     * Creates (or truncates) the file at `path` and makes the entry from
     * that path and exactly the given creation time.
     */
    constructor (path: string, createdAtMillis: int, st: Storage)
      modifies st
      ensures Valid() && !closed
      ensures entry == Entry(path, createdAtMillis)
      ensures contents == [] && frames == [] && bytesWritten == 0
      ensures st.files == old(st.files) + {path} && st.manifest == old(st.manifest)
    {
      entry := Entry(path, createdAtMillis);
      contents := [];
      bytesWritten := 0;
      closed := false;
      frames := [];
      new;
      st.files := st.files + {path};
    }

    /** `writeBytes`: append to the file and add the length to the counter. */
    method WriteBytes(bytes: seq<byte>)
      requires !closed
      modifies this
      ensures contents == old(contents) + bytes
      ensures bytesWritten == old(bytesWritten) + |bytes|
      ensures !closed && frames == old(frames)
    {
      contents := contents + bytes;
      bytesWritten := bytesWritten + |bytes|;
    }

    /**
     * `writeFrame`: nothing for an empty frame; otherwise boundary line,
     * content type line, length line, the frame, CRLF; one whole record.
     */
    method WriteFrame(frame: seq<byte>)
      requires Valid() && !closed
      modifies this
      ensures Valid() && !closed
      ensures frame == [] ==> contents == old(contents) && frames == old(frames)
      ensures frame != [] ==> contents == old(contents) + Record(SegmentBoundary, frame)
      ensures frame != [] ==> frames == old(frames) + [frame]
    {
      if frame == [] {
        return;
      }
      RecordWritten(contents, frames, frame);
      var boundary, contentType, length, newline :=
        Ascii(BoundaryLine(SegmentBoundary)), Ascii(ContentTypeLine()), Ascii(LengthLine(|frame|)), Ascii(CRLF);
      WriteBytes(boundary);
      WriteBytes(contentType);
      WriteBytes(length);
      WriteBytes(frame);
      WriteBytes(newline);
      assert contents == old(contents) + Record(SegmentBoundary, frame);
      frames := frames + [frame];
    }

    /** `close`: flush and close the stream; the file keeps its bytes. */
    method Close()
      modifies this
      ensures closed
      ensures contents == old(contents) && bytesWritten == old(bytesWritten) && frames == old(frames)
    {
      closed := true;
    }
  }

  lemma AppendFive<T>(s: seq<T>, a: seq<T>, b: seq<T>, c: seq<T>, d: seq<T>, e: seq<T>)
    ensures s + a + b + c + d + e == s + (a + b + c + d + e)
  {
  }

  /** The five pieces `writeFrame` writes, one after the other, are one more record of the file. */
  lemma RecordWritten(before: seq<byte>, frames: seq<seq<byte>>, frame: seq<byte>)
    requires before == Records(SegmentBoundary, frames)
    ensures IsAscii(BoundaryLine(SegmentBoundary)) && IsAscii(ContentTypeLine()) && IsAscii(LengthLine(|frame|))
    ensures before + Ascii(BoundaryLine(SegmentBoundary)) + Ascii(ContentTypeLine()) + Ascii(LengthLine(|frame|)) + frame + Ascii(CRLF)
         == before + Record(SegmentBoundary, frame)
    ensures before + Record(SegmentBoundary, frame) == Records(SegmentBoundary, frames + [frame])
  {
    HeaderIsAscii(SegmentBoundary, |frame|);
    AppendFive(before, Ascii(BoundaryLine(SegmentBoundary)), Ascii(ContentTypeLine()), Ascii(LengthLine(|frame|)), frame, Ascii(CRLF));
    RecordsAppend(SegmentBoundary, frames, frame);
  }

  /** A segment file, read back, gives exactly the frames written to it, in order. */
  lemma SegmentParses(frames: seq<seq<byte>>)
    ensures ParseRecords(SegmentBoundary, Records(SegmentBoundary, frames)) == Some(frames)
  {
    ParseRecordsRoundTrip(SegmentBoundary, frames);
  }

  // ------------------------------------------------------------- the recorder

  /** The manifest after `persistSegment(e)` on a manifest that reads. */
  function Persisted(m: ManifestFile, e: Entry): (r: ManifestFile)
    requires ReadEntries(m).Some?
    ensures ReadEntries(r) == Some(OnlyValid(ReadEntries(m).value + [e]))
  {
    WriteReadRoundTrip(ReadEntries(m).value + [e]);
    WriteEntries(ReadEntries(m).value + [e])
  }

  /** The segment files and the manifest, as the recorder's bodies change them. */
  datatype Disk = Disk(manifest: ManifestFile, files: set<string>)

  /**
   * The disk after `openNewSegmentLocked(now)` opened the segment `e`: its
   * file is created; when the manifest reads, `e` is appended to it and a
   * prune at `now` follows, otherwise nothing else changes.
   */
  function Opened(d: Disk, e: Entry, now: int, undeletable: set<string>): Disk
  {
    if ReadEntries(d.manifest).None? then Disk(d.manifest, d.files + {e.filePath})
    else
      var m := Persisted(d.manifest, e);
      Disk(PrunedManifest(m, now), PrunedFiles(d.files + {e.filePath}, m, now, undeletable))
  }

  /** A valid segment opened at `now` is not removed by the prune that follows its own persist. */
  lemma OpenedKeepsEntry(d: Disk, e: Entry, now: int, undeletable: set<string>)
    requires ReadEntries(d.manifest).Some? && IsValid(e) && e.createdAtMillis == now
    ensures ReadEntries(Opened(d, e, now, undeletable).manifest).Some?
    ensures e in ReadEntries(Opened(d, e, now, undeletable).manifest).value
  {
    var m := Persisted(d.manifest, e);
    OnlyValidKeeps(ReadEntries(d.manifest).value + [e], e);
    PruneKeepsValid(m, now, e);
  }

  /**
   * `LocalVideoRecorder`. The file name a segment gets from its creation
   * time, and the paths whose delete fails, are fixed inputs.
   */
  class LocalVideoRecorder {
    const st: Storage
    const fileName: int -> string
    const undeletable: set<string>
    var isRecording: bool
    var currentWriter: SegmentWriter?
    var currentSegmentStartMillis: int
    var pending: seq<Op>
    var released: bool

    /** An open segment's writer is never closed and its counter is its file's length. */
    ghost predicate Valid()
      reads this, currentWriter
    {
      currentWriter != null ==> !currentWriter.closed && currentWriter.Valid()
    }

    constructor (st: Storage, fileName: int -> string, undeletable: set<string>)
      ensures Valid()
      ensures this.st == st && this.fileName == fileName && this.undeletable == undeletable
      ensures !isRecording && currentWriter == null && currentSegmentStartMillis == 0
      ensures pending == [] && !released
    {
      this.st := st;
      this.fileName := fileName;
      this.undeletable := undeletable;
      isRecording := false;
      currentWriter := null;
      currentSegmentStartMillis := 0;
      pending := [];
      released := false;
    }

    /** Flip the flag and submit the call's body; a released scope drops the body. */
    method Submit(c: Call)
      modifies this
      ensures isRecording == FlagAfter(old(isRecording), c)
      ensures pending == old(pending) + (if released then [] else Submits(old(isRecording), c))
      ensures currentWriter == old(currentWriter) && currentSegmentStartMillis == old(currentSegmentStartMillis)
      ensures released == old(released)
    {
      var ops := Submits(isRecording, c);
      isRecording := FlagAfter(isRecording, c);
      if !released {
        pending := pending + ops;
      }
    }

    /** `start()`: set the flag; if it was clear, submit the opening of a segment. */
    method Start()
      modifies this
      ensures isRecording
      ensures pending == old(pending) + (if released || old(isRecording) then [] else [OpenSegment])
      ensures currentWriter == old(currentWriter) && currentSegmentStartMillis == old(currentSegmentStartMillis)
      ensures released == old(released)
    {
      Submit(Call.Start);
    }

    /** `stop()`: clear the flag; if it was set, submit the closing of the segment. */
    method Stop()
      modifies this
      ensures !isRecording
      ensures pending == old(pending) + (if released || !old(isRecording) then [] else [CloseSegment])
      ensures currentWriter == old(currentWriter) && currentSegmentStartMillis == old(currentSegmentStartMillis)
      ensures released == old(released)
    {
      Submit(Call.Stop);
    }

    /** `appendFrame`: nothing when not recording or for an empty frame; otherwise submit its append. */
    method AppendFrame(frame: seq<byte>)
      modifies this
      ensures isRecording == old(isRecording)
      ensures pending == old(pending) + (if released || !old(isRecording) || frame == [] then [] else [Append(frame)])
      ensures currentWriter == old(currentWriter) && currentSegmentStartMillis == old(currentSegmentStartMillis)
      ensures released == old(released)
    {
      Submit(Call.AppendFrame(frame));
    }

    /** `release()`: cancel the scope; queued bodies never run and later ones are dropped. */
    method Release()
      modifies this
      ensures released && pending == []
      ensures isRecording == old(isRecording) && currentWriter == old(currentWriter)
      ensures currentSegmentStartMillis == old(currentSegmentStartMillis)
    {
      released := true;
      pending := [];
    }

    /**
     * `openNewSegmentLocked(now)`: close the current writer, open a new one
     * named after `now`, make it current with start time `now`, append its
     * entry to the manifest, then prune with the same `now`. When the
     * manifest does not parse, the persist throws: the new writer stays
     * current, the manifest is untouched and no prune runs.
     */
    method OpenNewSegment(now: int) returns (ok: bool)
      requires Valid()
      modifies this, st, currentWriter
      ensures Valid()
      ensures old(currentWriter) != null ==> old(currentWriter).closed
      ensures old(currentWriter) != null ==> old(currentWriter).contents == old(currentWriter.contents)
      ensures old(currentWriter) != null ==> old(currentWriter).frames == old(currentWriter.frames)
      ensures old(currentWriter) != null ==> old(currentWriter).bytesWritten == old(currentWriter.bytesWritten)
      ensures currentWriter != null && fresh(currentWriter)
      ensures currentWriter.entry == Entry(fileName(now), now) && currentWriter.contents == [] && currentWriter.frames == []
      ensures currentSegmentStartMillis == now
      ensures ok <==> ReadEntries(old(st.manifest)).Some?
      ensures !ok ==> st.manifest == old(st.manifest) && st.files == old(st.files) + {fileName(now)}
      ensures ok ==> var m := Persisted(old(st.manifest), currentWriter.entry);
        && st.manifest == PrunedManifest(m, now)
        && st.files == PrunedFiles(old(st.files) + {fileName(now)}, m, now, undeletable)
      ensures Disk(st.manifest, st.files) == Opened(Disk(old(st.manifest), old(st.files)), Entry(fileName(now), now), now, undeletable)
      ensures isRecording == old(isRecording) && pending == old(pending) && released == old(released)
    {
      if currentWriter != null {
        currentWriter.Close();
      }
      var writer := new SegmentWriter(fileName(now), now, st);
      currentWriter := writer;
      currentSegmentStartMillis := now;
      ghost var m0 := st.manifest;
      ok := PersistSegment(st, writer.entry);
      if !ok {
        return;
      }
      assert st.manifest == Persisted(m0, writer.entry);
      var pruned := PruneOldSegments(st, now, undeletable);
    }

    /** The body of `stop()`: close the current writer and forget it; no file or manifest changes. */
    method CloseSegmentBody()
      requires Valid()
      modifies this, currentWriter
      ensures Valid() && currentWriter == null
      ensures old(currentWriter) != null ==> old(currentWriter).closed
      ensures old(currentWriter) != null ==> old(currentWriter).contents == old(currentWriter.contents)
      ensures currentSegmentStartMillis == old(currentSegmentStartMillis)
      ensures isRecording == old(isRecording) && pending == old(pending) && released == old(released)
    {
      if currentWriter != null {
        currentWriter.Close();
      }
      currentWriter := null;
    }

    /**
     * `rotateIfNeededLocked(now)`: with a segment open, start a new one
     * exactly when it has run ten minutes or holds 150 MB.
     */
    method RotateIfNeeded(now: int) returns (rotated: bool, ok: bool)
      requires Valid()
      modifies this, st, currentWriter
      ensures Valid()
      ensures rotated <==> (old(currentWriter) != null
        && NeedsRotation(now - old(currentSegmentStartMillis), old(currentWriter.bytesWritten)))
      ensures !rotated ==> (ok && currentWriter == old(currentWriter)
        && currentSegmentStartMillis == old(currentSegmentStartMillis)
        && st.files == old(st.files) && st.manifest == old(st.manifest))
      ensures rotated ==> old(currentWriter).closed
      ensures rotated ==> (currentWriter != null && fresh(currentWriter)
        && currentWriter.entry == Entry(fileName(now), now) && currentSegmentStartMillis == now)
      ensures rotated ==> currentWriter.contents == [] && currentWriter.frames == []
      ensures rotated ==> (ok <==> ReadEntries(old(st.manifest)).Some?)
      ensures rotated && !ok ==> st.manifest == old(st.manifest) && st.files == old(st.files) + {fileName(now)}
      ensures rotated && ok ==> var m := Persisted(old(st.manifest), Entry(fileName(now), now));
        && st.manifest == PrunedManifest(m, now)
        && st.files == PrunedFiles(old(st.files) + {fileName(now)}, m, now, undeletable)
      ensures rotated ==>
        Disk(st.manifest, st.files) == Opened(Disk(old(st.manifest), old(st.files)), Entry(fileName(now), now), now, undeletable)
      ensures old(currentWriter) != null ==> (old(currentWriter).contents == old(currentWriter.contents)
        && old(currentWriter).frames == old(currentWriter.frames)
        && old(currentWriter).bytesWritten == old(currentWriter.bytesWritten))
      ensures isRecording == old(isRecording) && pending == old(pending) && released == old(released)
    {
      ok := true;
      rotated := false;
      var writer := currentWriter;
      if writer == null {
        return;
      }
      if now - currentSegmentStartMillis >= MaxSegmentDurationMillis || writer.bytesWritten >= MaxSegmentSizeBytes {
        rotated := true;
        ok := OpenNewSegment(now);
      }
    }

    /**
     * The body of `appendFrame`: open a segment if none is open, write the
     * frame to the current writer, then rotate if needed. `w` is the
     * writer the frame went to; it is null only when the segment could
     * not be opened, and then the body stopped there.
     */
    method AppendBody(frame: seq<byte>, now: int) returns (ghost w: SegmentWriter?)
      requires Valid()
      modifies this, st, currentWriter
      ensures Valid()
      ensures w == null <==> old(currentWriter) == null && ReadEntries(old(st.manifest)).None?
      ensures w != null && w == old(currentWriter) ==>
        w.frames == old(currentWriter.frames) + (if frame == [] then [] else [frame])
      ensures w != null && w != old(currentWriter) ==>
        fresh(w) && w.entry == Entry(fileName(now), now) && w.frames == (if frame == [] then [] else [frame])
      ensures w != null ==> var start := if w == old(currentWriter) then old(currentSegmentStartMillis) else now;
        (currentWriter == w <==> !NeedsRotation(now - start, w.bytesWritten))
      ensures w != null && currentWriter != w ==> w.closed && currentWriter != null && fresh(currentWriter)
      ensures w != null && w == old(currentWriter) && currentWriter == w ==>
        st.files == old(st.files) && st.manifest == old(st.manifest)
      // the disk: an open when no segment was open, then another on a rotation
      ensures var e := Entry(fileName(now), now);
        var d0 := Disk(old(st.manifest), old(st.files));
        var d1 := if old(currentWriter) == null then Opened(d0, e, now, undeletable) else d0;
        Disk(st.manifest, st.files) == if w != null && currentWriter != w then Opened(d1, e, now, undeletable) else d1
      // the writer left current: the one that took the frame, or a fresh empty one
      ensures currentWriter != null
      ensures w != null && currentWriter == w ==>
        currentSegmentStartMillis == if w == old(currentWriter) then old(currentSegmentStartMillis) else now
      ensures currentWriter != w ==> (fresh(currentWriter) && currentWriter.entry == Entry(fileName(now), now)
        && currentWriter.contents == [] && currentWriter.frames == [] && currentSegmentStartMillis == now)
      ensures isRecording == old(isRecording) && pending == old(pending) && released == old(released)
    {
      if currentWriter == null {
        var ok := OpenNewSegment(now);
        if !ok {
          return null;
        }
      }
      ghost var d1 := Disk(st.manifest, st.files);
      var writer := currentWriter;
      w := writer;
      ghost var start := currentSegmentStartMillis;
      assert start == if w == old(currentWriter) then old(currentSegmentStartMillis) else now;
      writer.WriteFrame(frame);
      ghost var size := writer.bytesWritten;
      var rotated, _ := RotateIfNeeded(now);
      assert rotated <==> NeedsRotation(now - start, size);
    }

    /**
     * Run the oldest queued body with the clock at `now`. Nothing runs when
     * the queue is empty. For an append, `w` is the writer the frame went
     * to, as in `AppendBody`; it is null for the other bodies.
     */
    method RunNext(now: int) returns (ran: bool, ghost w: SegmentWriter?)
      requires Valid()
      modifies this, st, currentWriter
      ensures Valid()
      ensures ran <==> old(pending) != []
      ensures !ran ==> currentWriter == old(currentWriter) && st.files == old(st.files) && st.manifest == old(st.manifest)
      ensures ran ==> pending == old(pending)[1..]
      ensures isRecording == old(isRecording) && released == old(released)
      // a close body
      ensures ran && old(pending)[0] == CloseSegment ==> (currentWriter == null
        && currentSegmentStartMillis == old(currentSegmentStartMillis)
        && st.files == old(st.files) && st.manifest == old(st.manifest))
      ensures ran && old(pending)[0] == CloseSegment && old(currentWriter) != null ==>
        old(currentWriter).closed && old(currentWriter).contents == old(currentWriter.contents)
      // an open body
      ensures ran && old(pending)[0] == OpenSegment ==> (currentWriter != null && fresh(currentWriter)
        && currentWriter.entry == Entry(fileName(now), now) && currentWriter.contents == []
        && currentSegmentStartMillis == now)
      ensures ran && old(pending)[0] == OpenSegment && old(currentWriter) != null ==>
        old(currentWriter).closed && old(currentWriter).contents == old(currentWriter.contents)
        && old(currentWriter).frames == old(currentWriter.frames)
      ensures ran && old(pending)[0] == OpenSegment && ReadEntries(old(st.manifest)).None? ==>
        st.manifest == old(st.manifest) && st.files == old(st.files) + {fileName(now)}
      ensures ran && old(pending)[0] == OpenSegment && ReadEntries(old(st.manifest)).Some? ==>
        var m := Persisted(old(st.manifest), Entry(fileName(now), now));
        && st.manifest == PrunedManifest(m, now)
        && st.files == PrunedFiles(old(st.files) + {fileName(now)}, m, now, undeletable)
      // an append body
      ensures !(ran && old(pending)[0].Append?) ==> w == null
      ensures ran && old(pending)[0].Append? ==>
        (w == null <==> old(currentWriter) == null && ReadEntries(old(st.manifest)).None?)
      ensures ran && old(pending)[0].Append? && w != null && w == old(currentWriter) ==>
        w.frames == old(currentWriter.frames) + (if old(pending)[0].frame == [] then [] else [old(pending)[0].frame])
      ensures ran && old(pending)[0].Append? && w != null && w != old(currentWriter) ==>
        fresh(w) && w.entry == Entry(fileName(now), now)
        && w.frames == (if old(pending)[0].frame == [] then [] else [old(pending)[0].frame])
      ensures ran && old(pending)[0].Append? && w != null ==>
        var start := if w == old(currentWriter) then old(currentSegmentStartMillis) else now;
        (currentWriter == w <==> !NeedsRotation(now - start, w.bytesWritten))
      ensures ran && old(pending)[0].Append? && w != null && currentWriter != w ==>
        w.closed && currentWriter != null && fresh(currentWriter)
      ensures ran && old(pending)[0].Append? && w != null && w == old(currentWriter) && currentWriter == w ==>
        st.files == old(st.files) && st.manifest == old(st.manifest)
      ensures ran && old(pending)[0].Append? ==> var e := Entry(fileName(now), now);
        var d0 := Disk(old(st.manifest), old(st.files));
        var d1 := if old(currentWriter) == null then Opened(d0, e, now, undeletable) else d0;
        Disk(st.manifest, st.files) == if w != null && currentWriter != w then Opened(d1, e, now, undeletable) else d1
      ensures ran && old(pending)[0].Append? ==> currentWriter != null
      ensures ran && old(pending)[0].Append? && w != null && currentWriter == w ==>
        currentSegmentStartMillis == if w == old(currentWriter) then old(currentSegmentStartMillis) else now
      ensures ran && old(pending)[0].Append? && currentWriter != w ==>
        (fresh(currentWriter) && currentWriter.entry == Entry(fileName(now), now)
        && currentWriter.contents == [] && currentWriter.frames == [] && currentSegmentStartMillis == now)
    {
      w := null;
      if pending == [] {
        return false, null;
      }
      var op := pending[0];
      pending := pending[1..];
      ran := true;
      match op
      case OpenSegment =>
        var _ := OpenNewSegment(now);
      case CloseSegment =>
        CloseSegmentBody();
      case Append(frame) =>
        w := AppendBody(frame, now);
    }
  }
}

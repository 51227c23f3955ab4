# camera-link, modelled in Dafny

camera-link is an Android app that turns a phone into an IP camera. This
project models its core in Dafny and proves properties of that model.

- **Streaming.** Every camera frame is packed from its Y, U and V planes
  into one NV21 buffer and compressed to JPEG (`Nv21`). The latest
  non-empty JPEG is kept in the streaming server's frame slot. The server
  answers `/`, `/stream`, `/snapshot` and `/test`, and returns 404 for every
  other path. `/stream` is an MJPEG input stream. It hands out whole
  multipart records (`--frame`, a content type, a content length, the JPEG,
  CRLF) of whatever frame the slot holds when it needs the next one
  (`Streaming`, `Multipart`).
- **Local recording.** The recorder writes the same records, with boundary
  `--CameraLinkMJPEG`, into segment files (`Recorder`). Its `start` and `stop`
  calls flip a recording flag at once; `start`, `stop` and `appendFrame` all
  queue their work, which runs one body at a time in submission order. A segment is
  rotated after ten minutes or about 150 MB.
- **Retention.** Every new segment is listed in a JSON manifest. A prune
  deletes, oldest first, the segments older than 24 hours (`Retention`,
  `SegmentEntry`).
- **Preferences and scheduling.** The recording preferences are stored in
  a key-value store, with minutes normalised into one day (`Preferences`).
  On every change of the preferences, the scheduler cancels and re-arms two
  exact alarms and issues one start or stop command (`Scheduler`).
- **Tailscale.** The Tailscale pinger collects ping targets: local IPv4
  addresses in 100.64.0.0/10, plus a set of configured names or addresses.
  It maps each target to whether it was reachable (`Tailscale`).
- **Shared helpers.** `Text` holds what the JVM libraries provide and the
  core relies on: `trim`, `isBlank`, `split`, decimal rendering,
  `toIntOrNull`, `%02d`, and `toByteArray` of ASCII text.

The model's form follows the source's form:

- Objects whose fields change become classes with `modifies` frames:
  - the frame slot (`Streaming.StreamingServer`);
  - the MJPEG stream (`Streaming.MjpegStream`);
  - the segment writer and recorder (`Recorder.SegmentWriter`, `Recorder.LocalVideoRecorder`);
  - the files on disk (`Retention.Storage`);
  - the preferences repository, the scheduler and the pinger.
- Loops become methods with invariants, proved against specification functions:
  - the prune loop;
  - the NV21 copy loops, which keep the `array`;
  - the interface scan;
  - `read()`.
- Pure code becomes functions and lemmas:
  - the active-window check;
  - JSON conversion;
  - routing;
  - the IP and hostname checks.

Things outside the program are parameters:

- the clock (`now`);
- the alarm manager's presence;
- the network interfaces;
- reachability;
- the JPEG encoder;
- the segment file name for a time;
- which files cannot be deleted.

## Model

| member | source | states |
|---|---|---|
| Text.IsWhitespace | app/src/main/java/com/example/cameralink/LocalSegmentEntry.kt:24 | Kotlin's `Char.isWhitespace()`: TAB..CR, FS..US, the space, and the Unicode space, line and paragraph separators; the characters `trim()` drops and `isBlank()` looks for |
| Text.IsBlank | app/src/main/java/com/example/cameralink/LocalSegmentEntry.kt:24 | `isNullOrBlank()` of a present string: every character is whitespace, the empty string included; `Text.BlankIffTrimEmpty` ties it to `trim()` |
| Text.TrimStart | app/src/main/java/com/example/cameralink/TailscalePinger.kt:35 | drops leading whitespace; `Text.TrimStartSpec` proves the cut is exactly the leading whitespace |
| Text.TrimEnd | app/src/main/java/com/example/cameralink/TailscalePinger.kt:35 | drops trailing whitespace; `Text.TrimEndSpec` proves the cut is exactly the trailing whitespace |
| Text.Trim | app/src/main/java/com/example/cameralink/TailscalePinger.kt:35 | `trim()`: both ends trimmed; `Text.TrimEnds`, `Text.TrimSlice` and `Text.TrimIdempotent` state what it returns |
| Text.TrimStartSpec | app/src/main/java/com/example/cameralink/TailscalePinger.kt:35 | trimming the start leaves a suffix that starts with non-whitespace, and what was cut is all whitespace |
| Text.TrimEndSpec | app/src/main/java/com/example/cameralink/TailscalePinger.kt:35 | trimming the end leaves a prefix that ends with non-whitespace, and what was cut is all whitespace |
| Text.TrimEnds | app/src/main/java/com/example/cameralink/TailscalePinger.kt:35 | `trim()` is no longer than its input, and its result is empty or starts and ends with non-whitespace |
| Text.TrimSlice | app/src/main/java/com/example/cameralink/TailscalePinger.kt:35 | `trim()` is a contiguous slice of the input, with only whitespace before it and after it |
| Text.BlankIffTrimEmpty | app/src/main/java/com/example/cameralink/LocalSegmentEntry.kt:24 | a string is blank exactly when trimming it leaves nothing |
| Text.TrimIdempotent | app/src/main/java/com/example/cameralink/TailscalePinger.kt:35 | trimming twice is trimming once |
| Text.Split | app/src/main/java/com/example/cameralink/TailscalePinger.kt:82 | `split(".")` yields at least one part, and no part contains the delimiter |
| Text.SplitJoin | app/src/main/java/com/example/cameralink/TailscalePinger.kt:82 | joining the parts with the delimiter gives back the input |
| Text.SplitCount | app/src/main/java/com/example/cameralink/TailscalePinger.kt:82-83 | the number of parts is the number of delimiters plus one |
| Text.Decimal | app/src/main/java/com/example/cameralink/LocalVideoRecorder.kt:110 | the decimal text of a count is non-empty, all digits, has no leading zero and has the count as its value |
| Text.DecimalInjective | app/src/main/java/com/example/cameralink/LocalVideoRecorder.kt:110 | different counts render differently |
| Text.ParseInt | app/src/main/java/com/example/cameralink/TailscalePinger.kt:85-86 | `toIntOrNull` of the empty string is null |
| Text.DecimalParses | app/src/main/java/com/example/cameralink/TailscalePinger.kt:85-86 | `toIntOrNull` reads back every rendered count |
| Text.NegativeParses | app/src/main/java/com/example/cameralink/TailscalePinger.kt:85-86 | `toIntOrNull` reads a minus sign followed by a rendered count as the negative number |
| Text.Pad2 | app/src/main/java/com/example/cameralink/RecordingPreferencesRepository.kt:92 | `%02d` of a value below 100 is two digits with that value |
| Text.Ascii | app/src/main/java/com/example/cameralink/LocalVideoRecorder.kt:126-128 | `toByteArray()` of ASCII text is one byte per character, with the same code |
| Text.AsciiAppend | app/src/main/java/com/example/cameralink/StreamingServer.kt:302 | the bytes of concatenated text are the concatenated bytes |
| Text.DecimalIsAscii | app/src/main/java/com/example/cameralink/LocalVideoRecorder.kt:110 | a rendered count is ASCII text |
| Multipart.BoundaryLineAscii | app/src/main/java/com/example/cameralink/LocalVideoRecorder.kt:126 | the boundary line of a token boundary is ASCII |
| Multipart.ContentTypeLineAscii | app/src/main/java/com/example/cameralink/LocalVideoRecorder.kt:127 | the content-type line is ASCII |
| Multipart.LengthLineAscii | app/src/main/java/com/example/cameralink/LocalVideoRecorder.kt:110 | the content-length line with its blank line is ASCII |
| Multipart.HeaderIsAscii | app/src/main/java/com/example/cameralink/StreamingServer.kt:299 | the record header is ASCII, and its bytes are the bytes of its three lines in order |
| Multipart.Record | app/src/main/java/com/example/cameralink/LocalVideoRecorder.kt:106-113 | one record: the boundary line, `Content-Type: image/jpeg`, `Content-Length: n` and a blank line, the frame, CRLF; `Multipart.RecordFromHeader` shows the stream builds the same bytes and `Multipart.ParseRecordRoundTrip` reads it back |
| Multipart.Records | app/src/main/java/com/example/cameralink/LocalVideoRecorder.kt:106-113 | the bytes of a sequence of frames, record after record in order; `Multipart.RecordsAppend` and `Multipart.ParseRecordsRoundTrip` are its partners |
| Multipart.ParseRecord | app/src/main/java/com/example/cameralink/StreamingServer.kt:299-303 | a reader of the record format, written independently of the writers: the fixed prefix, a decimal length, CRLF CRLF, that many bytes and CRLF; `Multipart.ParseRecordRoundTrip` proves it takes one written record off the front |
| Multipart.ParseRecords | app/src/main/java/com/example/cameralink/LocalVideoRecorder.kt:106-113 | splits bytes into frames record by record, failing on anything else; `Multipart.ParseRecordsRoundTrip` proves every written sequence of records parses back into its frames |
| Multipart.RecordFromHeader | app/src/main/java/com/example/cameralink/StreamingServer.kt:299-302 | a record is the header's bytes, then the frame, then CRLF |
| Multipart.RecordsAppend | app/src/main/java/com/example/cameralink/LocalVideoRecorder.kt:106-113 | writing one more frame appends exactly its record to the records of the earlier frames |
| Multipart.RecordLength | app/src/main/java/com/example/cameralink/LocalVideoRecorder.kt:106-113 | a record is its header, its frame and two bytes long, and is never empty |
| Multipart.Chars | app/src/main/java/com/example/cameralink/StreamingServer.kt:302 | reading bytes back as characters keeps length and codes |
| Multipart.LeadingDigits | app/src/main/java/com/example/cameralink/StreamingServer.kt:299 | the leading-digit count of a header tail is maximal: all digits before it, a non-digit at it |
| Multipart.CharsAscii | app/src/main/java/com/example/cameralink/StreamingServer.kt:302 | reading back the bytes of ASCII text gives the text |
| Multipart.LengthBytes | app/src/main/java/com/example/cameralink/LocalVideoRecorder.kt:108-110 | the header's bytes are the fixed prefix, the length's digits and CRLF CRLF |
| Multipart.LeadingDigitsOf | app/src/main/java/com/example/cameralink/StreamingServer.kt:299 | a length's digits followed by CR are read as exactly that many digits |
| Multipart.RecordTail | app/src/main/java/com/example/cameralink/StreamingServer.kt:299-302 | after the length's digits come CRLF CRLF, the frame, CRLF and the rest, at known offsets |
| Multipart.ParseRecordRoundTrip | app/src/main/java/com/example/cameralink/StreamingServer.kt:299-302 | a reader of the record format takes one record off the front and gets back its frame and the rest |
| Multipart.RecordsFromAppend | app/src/main/java/com/example/cameralink/LocalVideoRecorder.kt:106-113 | the front-recursive form of the records also grows by one record per frame |
| Multipart.RecordsSame | app/src/main/java/com/example/cameralink/LocalVideoRecorder.kt:106-113 | the two recursive forms of a sequence of records agree |
| Multipart.ParseRecordsRoundTrip | app/src/main/java/com/example/cameralink/LocalVideoRecorder.kt:106-113 | the bytes of any sequence of records parse back into exactly those frames, in order |
| Multipart.ParseRecordsStep | app/src/main/java/com/example/cameralink/StreamingServer.kt:289-316 | parsing one record and then the rest gives the frame followed by the rest's frames |
| Multipart.ParseFrom | app/src/main/java/com/example/cameralink/StreamingServer.kt:289-316 | records built front to back parse back into their frames |
| SegmentEntry.LongText | app/src/main/java/com/example/cameralink/LocalSegmentEntry.kt:22 | `Long.toString()`: the decimal digits, with a minus sign when negative, as `optString` renders a number |
| SegmentEntry.OptString | app/src/main/java/com/example/cameralink/LocalSegmentEntry.kt:22 | `optString(key)`: "" for an absent key, a string as is, any other value as its text; `SegmentEntry.FromJson` reads the path through it |
| SegmentEntry.OptLong | app/src/main/java/com/example/cameralink/LocalSegmentEntry.kt:23 | `optLong(key, -1)`: a number as is, a string holding an integer as that integer, the fallback otherwise; `SegmentEntry.CreatedAtAsString` shows the string case |
| SegmentEntry.IsValid | app/src/main/java/com/example/cameralink/LocalSegmentEntry.kt:24 | the entries `fromJson` accepts: a non-blank path and a positive time; `SegmentEntry.RoundTrip` and `SegmentEntry.RoundTripRejects` show the round trip holds exactly for these |
| SegmentEntry.ToJson | app/src/main/java/com/example/cameralink/LocalSegmentEntry.kt:12-15 | the object has exactly the keys `path` and `createdAt` |
| SegmentEntry.FromJson | app/src/main/java/com/example/cameralink/LocalSegmentEntry.kt:21-26 | an entry is returned exactly when `optString("path")` is not blank and `optLong("createdAt", -1)` is positive, and it carries those two values |
| SegmentEntry.FromJsonEmpty | app/src/main/java/com/example/cameralink/LocalSegmentEntry.kt:21-26 | an empty object gives no entry |
| SegmentEntry.RoundTrip | app/src/main/java/com/example/cameralink/LocalSegmentEntry.kt:12-26 | reading back the object of an entry with a non-blank path and a positive time gives that entry |
| SegmentEntry.RoundTripRejects | app/src/main/java/com/example/cameralink/LocalSegmentEntry.kt:12-26 | an entry with a blank path or a non-positive time does not survive its own round trip |
| SegmentEntry.CreatedAtAsString | app/src/main/java/com/example/cameralink/LocalSegmentEntry.kt:23 | `optLong` also accepts the time written as a decimal string |
| Retention.ReadEntriesAsWritten | app/src/main/java/com/example/cameralink/LocalVideoRetentionDao.kt:34-43 | `readEntries` as written: a missing manifest reads as empty, an unparsable one fails, and so does one with any non-object element; `Retention.AsWrittenAbortsOnNonObject` and `Retention.AsWrittenAgreesOnObjects` are its partners |
| Retention.WriteEntries | app/src/main/java/com/example/cameralink/LocalVideoRetentionDao.kt:45-49 | `writeEntries`: a JSON array of one `toJson` object per entry, in list order; `Retention.Objects` and `Retention.WriteReadRoundTrip` state what it holds and what reads back |
| Retention.ValidEntries | app/src/main/java/com/example/cameralink/LocalVideoRetentionDao.kt:38-41 | the entries kept from the array are no more than its elements, and all of them are valid |
| Retention.ReadEntries | app/src/main/java/com/example/cameralink/LocalVideoRetentionDao.kt:34-43 | reading fails exactly for an unparsable manifest, a missing manifest reads as no entries, and every entry read is valid |
| Retention.AsWrittenAbortsOnNonObject | app/src/main/java/com/example/cameralink/LocalVideoRetentionDao.kt:39-40 | with one non-object element, the source's reader fails while the corrected one keeps the valid entry |
| Retention.AsWrittenAgreesOnObjects | app/src/main/java/com/example/cameralink/LocalVideoRetentionDao.kt:38-41 | on arrays of objects only, the source's reader and the corrected one agree |
| Retention.Objects | app/src/main/java/com/example/cameralink/LocalVideoRetentionDao.kt:45-49 | written entries become one object each, in order |
| Retention.OnlyValidAll | app/src/main/java/com/example/cameralink/LocalVideoRetentionDao.kt:45-49 | filtering a list of valid entries keeps them all |
| Retention.OnlyValidKeeps | app/src/main/java/com/example/cameralink/LocalVideoRetentionDao.kt:37-42 | a valid entry of a list survives the filter to valid entries that a read applies |
| Retention.WriteReadRoundTrip | app/src/main/java/com/example/cameralink/LocalVideoRetentionDao.kt:34-49 | writing entries and reading them back gives the valid ones, in order |
| Retention.WriteReadValid | app/src/main/java/com/example/cameralink/LocalVideoRetentionDao.kt:34-49 | writing valid entries and reading them back gives exactly those entries |
| Retention.InsertByCreated | app/src/main/java/com/example/cameralink/LocalVideoRetentionDao.kt:22 | inserting into an ascending list keeps it ascending and adds exactly that entry |
| Retention.SortByCreated | app/src/main/java/com/example/cameralink/LocalVideoRetentionDao.kt:22 | `sortedBy { createdAtMillis }` is ascending and a permutation of its input |
| Retention.WithTime | app/src/main/java/com/example/cameralink/LocalVideoRetentionDao.kt:22 | the entries of a list created at one time, in their order; `Retention.SortStable` states stability through it |
| Retention.InsertStable | app/src/main/java/com/example/cameralink/LocalVideoRetentionDao.kt:22 | an inserted entry goes after every entry already present with the same time, and the others of that time keep their order |
| Retention.SortStable | app/src/main/java/com/example/cameralink/LocalVideoRetentionDao.kt:22 | `sortedBy` is stable: for every time, the entries created at that time appear in the sorted list in their input order |
| Retention.SortSorted | app/src/main/java/com/example/cameralink/LocalVideoRetentionDao.kt:22 | sorting an ascending list leaves it unchanged, order of equal times included |
| Retention.Expired | app/src/main/java/com/example/cameralink/LocalVideoRetentionDao.kt:24 | an entry is expired when it is more than 24 hours (`MAX_RETENTION_MILLIS`, line 10) older than `now`; the strict test keeps an entry exactly 24 hours old |
| Retention.ExpiredPrefix | app/src/main/java/com/example/cameralink/LocalVideoRetentionDao.kt:24 | the loop removes a maximal prefix of entries older than 24 hours |
| Retention.ExpiredPrefixIs | app/src/main/java/com/example/cameralink/LocalVideoRetentionDao.kt:24 | a length with only expired entries before it and a fresh entry or the end at it is that prefix |
| Retention.PrefixIsExpired | app/src/main/java/com/example/cameralink/LocalVideoRetentionDao.kt:22-28 | on a sorted list, an entry is in the removed prefix exactly when it is expired |
| Retention.PathsOfLonger | app/src/main/java/com/example/cameralink/LocalVideoRetentionDao.kt:25-26 | removing one more entry adds exactly its path to the deleted paths |
| Retention.FilesAfterStep | app/src/main/java/com/example/cameralink/LocalVideoRetentionDao.kt:25-26 | one loop step deletes exactly the removed entry's file, unless that file cannot be deleted |
| Retention.Kept | app/src/main/java/com/example/cameralink/LocalVideoRetentionDao.kt:22-28 | the entries left by the prune loop: the sorted entries after the expired prefix; `Retention.PruneSplits` states that they are every fresh entry, ascending |
| Retention.Removed | app/src/main/java/com/example/cameralink/LocalVideoRetentionDao.kt:22-28 | the entries the prune loop takes off, oldest first: the expired prefix of the sorted entries; `Retention.PruneSplits` states that they are every expired entry |
| Retention.FilesAfter | app/src/main/java/com/example/cameralink/LocalVideoRetentionDao.kt:25-26 | the files left after deleting each removed entry's file, except those whose delete fails; `Retention.FilesAfterStep` gives one step of the loop |
| Retention.PruneSplits | app/src/main/java/com/example/cameralink/LocalVideoRetentionDao.kt:21-32 | a prune splits the entries without loss: every removed entry is expired, every kept one is fresh, and the kept list is ascending |
| Retention.PruneIdempotent | app/src/main/java/com/example/cameralink/LocalVideoRetentionDao.kt:21-32 | pruning the kept entries again at the same time removes nothing |
| Retention.PruneExample | app/src/main/java/com/example/cameralink/LocalVideoRetentionDao.kt:21-32 | of three segments that are 25, 23 and 1 hours old, only the first is removed |
| Retention.PrunedManifest | app/src/main/java/com/example/cameralink/LocalVideoRetentionDao.kt:21-32 | the manifest after a prune: rewritten with the kept entries only when something was removed; `Retention.PruneKeepsFresh`, `Retention.PruneKeepsValid` and `Retention.PruneIdempotent` state its meaning |
| Retention.PrunedFiles | app/src/main/java/com/example/cameralink/LocalVideoRetentionDao.kt:21-32 | the files after a prune; `Retention.PruneDeletesExpired` and `Retention.PruneTouchesOnlyExpired` state which go |
| Retention.PruneKeepsValid | app/src/main/java/com/example/cameralink/LocalVideoRetentionDao.kt:21-32 | a prune keeps in the rewritten manifest every valid entry that has not expired |
| Retention.KeptHolds | app/src/main/java/com/example/cameralink/LocalVideoRetentionDao.kt:24 | an entry that has not expired is kept |
| Retention.PruneDeletesExpired | app/src/main/java/com/example/cameralink/LocalVideoRetentionDao.kt:24-26 | every expired segment's file is gone after a prune, unless it cannot be deleted |
| Retention.PruneTouchesOnlyExpired | app/src/main/java/com/example/cameralink/LocalVideoRetentionDao.kt:24-26 | a file that disappears in a prune belongs to an expired entry |
| Retention.KeptFromInput | app/src/main/java/com/example/cameralink/LocalVideoRetentionDao.kt:22-28 | a prune keeps only entries it was given |
| Retention.PruneKeepsFresh | app/src/main/java/com/example/cameralink/LocalVideoRetentionDao.kt:21-32 | after a prune, the manifest reads back, and only with entries that were there before and are not expired |
| Retention.Storage.constructor | app/src/main/java/com/example/cameralink/LocalVideoRetentionDao.kt:12-13 | the storage holds the given files and manifest |
| Retention.PersistSegment | app/src/main/java/com/example/cameralink/LocalVideoRetentionDao.kt:15-19 | it succeeds exactly when the manifest can be read, and the manifest then becomes the old entries plus the new one; segment files are untouched |
| Retention.PersistAppends | app/src/main/java/com/example/cameralink/LocalVideoRetentionDao.kt:15-19 | after persisting a valid entry, the manifest reads back as the old entries followed by it |
| Retention.DropExpired | app/src/main/java/com/example/cameralink/LocalVideoRetentionDao.kt:23-28 | the loop leaves the entries after the expired prefix, deletes exactly that prefix's deletable files, and reports a change exactly when it removed something |
| Retention.PruneOldSegments | app/src/main/java/com/example/cameralink/LocalVideoRetentionDao.kt:21-32 | it succeeds exactly when the manifest can be read; the files and manifest are then the pruned ones, and otherwise both are unchanged |
| Recorder.NeedsRotation | app/src/main/java/com/example/cameralink/LocalVideoRecorder.kt:78-80 | rotate once ten minutes have passed or about 150 MB are written (constants at lines 20-21), either bound inclusive; `Recorder.LocalVideoRecorder.RotateIfNeeded` rotates exactly when it holds |
| Recorder.FlagAfter | app/src/main/java/com/example/cameralink/LocalVideoRecorder.kt:31-55 | the recording flag after a call: set by `start`, cleared by `stop`, left alone by `appendFrame`; `Recorder.RunAlternates` relates it to the queued bodies |
| Recorder.Submits | app/src/main/java/com/example/cameralink/LocalVideoRecorder.kt:31-65 | the bodies one call queues, given the flag it finds: an open from a stopped recorder, a close from a recording one, an append of a non-empty frame while recording; `Recorder.SubmitsOnlyOnChange` and `Recorder.StartTwiceOpensOnce` state its meaning |
| Recorder.Run | app/src/main/java/com/example/cameralink/LocalVideoRecorder.kt:31-65 | the flag and the queued bodies after a sequence of calls; `Recorder.RunStep`, `Recorder.RunAlternates` and `Recorder.RunAppendsWhileOpen` state what it produces |
| Recorder.ControlsAppend | app/src/main/java/com/example/cameralink/LocalVideoRecorder.kt:31-65 | the open and close bodies of two queues are those of each, in order |
| Recorder.AlternatingSnoc | app/src/main/java/com/example/cameralink/LocalVideoRecorder.kt:31-50 | the open or close that is due next keeps opens and closes alternating |
| Recorder.RunStep | app/src/main/java/com/example/cameralink/LocalVideoRecorder.kt:31-65 | a sequence of calls is its prefix followed by the last call's effect on the flag and the queue |
| Recorder.RunAlternates | app/src/main/java/com/example/cameralink/LocalVideoRecorder.kt:31-50 | from a stopped recorder, the queued opens and closes always alternate, starting with an open, and the flag is set exactly when an open is the last of them |
| Recorder.RunAppendsWhileOpen | app/src/main/java/com/example/cameralink/LocalVideoRecorder.kt:54-65 | every queued append carries a non-empty frame and is queued while a segment has been opened and not closed |
| Recorder.StartTwiceOpensOnce | app/src/main/java/com/example/cameralink/LocalVideoRecorder.kt:31-39 | two starts in a row queue at most one open and leave the recorder recording |
| Recorder.SubmitsOnlyOnChange | app/src/main/java/com/example/cameralink/LocalVideoRecorder.kt:31-50 | start and stop queue work exactly when they change the flag |
| Recorder.SegmentWriter.constructor | app/src/main/java/com/example/cameralink/LocalVideoRecorder.kt:97-104 | a new writer creates its file, has written nothing and carries the entry for its path and creation time |
| Recorder.SegmentWriter.WriteBytes | app/src/main/java/com/example/cameralink/LocalVideoRecorder.kt:115-118 | the bytes are appended to the file and the byte count grows by their length |
| Recorder.SegmentWriter.WriteFrame | app/src/main/java/com/example/cameralink/LocalVideoRecorder.kt:106-113 | an empty frame writes nothing; any other frame appends exactly its record, so the file stays the records of the frames written |
| Recorder.SegmentWriter.Close | app/src/main/java/com/example/cameralink/LocalVideoRecorder.kt:120-123 | closing leaves the contents and counters as they are |
| Recorder.RecordWritten | app/src/main/java/com/example/cameralink/LocalVideoRecorder.kt:106-113 | the five writes of `writeFrame` add up to the frame's record, appended to the earlier records |
| Recorder.SegmentParses | app/src/main/java/com/example/cameralink/LocalVideoRecorder.kt:106-113 | a segment file parses back into the frames written to it, in order |
| Recorder.Persisted | app/src/main/java/com/example/cameralink/LocalVideoRecorder.kt:72 | after persisting, the manifest reads back as the valid ones among the old entries plus the new one |
| Recorder.Opened | app/src/main/java/com/example/cameralink/LocalVideoRecorder.kt:67-74 | the files and manifest after opening a segment: its file is created, then, when the manifest reads, its entry is appended and a prune runs with the same `now`; `OpenNewSegment`, `RotateIfNeeded`, `AppendBody` and `RunNext` state their outcome through it |
| Recorder.OpenedKeepsEntry | app/src/main/java/com/example/cameralink/LocalVideoRecorder.kt:72-73 | a segment opened at `now` keeps its entry in the manifest through the prune that follows it |
| Recorder.LocalVideoRecorder.constructor | app/src/main/java/com/example/cameralink/LocalVideoRecorder.kt:23-29 | a new recorder is not recording, has no writer and nothing queued |
| Recorder.LocalVideoRecorder.Submit | app/src/main/java/com/example/cameralink/LocalVideoRecorder.kt:31-65 | a call sets the flag as `getAndSet` does and queues its body unless the scope is cancelled |
| Recorder.LocalVideoRecorder.Start | app/src/main/java/com/example/cameralink/LocalVideoRecorder.kt:31-39 | the recorder is recording afterwards; an open is queued only if it was not recording before |
| Recorder.LocalVideoRecorder.Stop | app/src/main/java/com/example/cameralink/LocalVideoRecorder.kt:41-50 | the recorder is stopped afterwards; a close is queued only if it was recording before |
| Recorder.LocalVideoRecorder.AppendFrame | app/src/main/java/com/example/cameralink/LocalVideoRecorder.kt:54-65 | an append is queued only while recording and only for a non-empty frame |
| Recorder.LocalVideoRecorder.Release | app/src/main/java/com/example/cameralink/LocalVideoRecorder.kt:85-87 | cancelling the scope drops every queued body and leaves the flag and the writer alone |
| Recorder.LocalVideoRecorder.OpenNewSegment | app/src/main/java/com/example/cameralink/LocalVideoRecorder.kt:67-74 | the old writer is closed with its contents intact, a fresh empty writer starts at `now`, and the manifest and files are persisted and then pruned (the manifest is left as it was when it cannot be read) |
| Recorder.LocalVideoRecorder.CloseSegmentBody | app/src/main/java/com/example/cameralink/LocalVideoRecorder.kt:44-47 | the writer, if any, is closed with its contents intact, and none is current afterwards |
| Recorder.LocalVideoRecorder.RotateIfNeeded | app/src/main/java/com/example/cameralink/LocalVideoRecorder.kt:76-83 | a new segment is opened exactly when a writer exists and ten minutes have passed or 150 MB were written: the old writer is closed intact, a fresh empty writer for `now` starts at `now`, and the manifest and files are persisted then pruned with the same `now` (`Recorder.Opened`; only the new file when the manifest cannot be read); otherwise nothing changes |
| Recorder.LocalVideoRecorder.AppendBody | app/src/main/java/com/example/cameralink/LocalVideoRecorder.kt:57-63 | the frame lands in the current writer, or in a fresh one opened at `now`, and that writer is replaced exactly when it then needs rotation; the files and manifest are the outcome of those opens, each persisting then pruning with the same `now` (`Recorder.Opened`), and untouched without either; a replacing writer is fresh, empty and starts at `now` |
| Recorder.LocalVideoRecorder.RunNext | app/src/main/java/com/example/cameralink/LocalVideoRecorder.kt:33-63 | the oldest queued body runs and leaves the queue, with that body's whole outcome: a close closes the writer with its contents intact and leaves none, files and manifest untouched; an open closes the old writer intact, starts a fresh empty one at `now`, and persists then prunes the manifest and files (or, with an unreadable manifest, only adds the new file); an append puts the frame into the current or a freshly opened writer and rotates it exactly when due, with the files and manifest of those opens (`Recorder.Opened`) and a fresh empty writer after a rotation |
| Preferences.IsWithinActiveWindow | app/src/main/java/com/example/cameralink/RecordingPreferencesRepository.kt:26-33 | `isWithinActiveWindow`: always inside when scheduling is off or start equals end, `[start, end)` when start is before end, wrapping past midnight otherwise; the `Preferences.Window*` lemmas state each case |
| Preferences.WindowAlwaysWhenOff | app/src/main/java/com/example/cameralink/RecordingPreferencesRepository.kt:27 | with scheduling off or start equal to end, every minute is inside the window |
| Preferences.WindowPlain | app/src/main/java/com/example/cameralink/RecordingPreferencesRepository.kt:28-29 | when start is before end, a minute is inside exactly when start <= now < end |
| Preferences.WindowWraps | app/src/main/java/com/example/cameralink/RecordingPreferencesRepository.kt:30-31 | when the window spans midnight, a minute is inside exactly when now >= start or now < end |
| Preferences.WindowComplement | app/src/main/java/com/example/cameralink/RecordingPreferencesRepository.kt:26-33 | swapping start and end gives exactly the complementary window |
| Preferences.OvernightExample | app/src/main/java/com/example/cameralink/RecordingPreferencesRepository.kt:30-31 | a 22:00 to 06:00 window contains 23:30 and 02:00 but not 12:00 |
| Preferences.KotlinRemDay | app/src/main/java/com/example/cameralink/RecordingPreferencesRepository.kt:83 | Kotlin's `%` of a day keeps the sign of the dividend, stays within one day, and differs from the input by whole days |
| Preferences.Normalize | app/src/main/java/com/example/cameralink/RecordingPreferencesRepository.kt:82-86 | the result is in [0, 1440) and differs from the input by whole days |
| Preferences.NormalizeUnique | app/src/main/java/com/example/cameralink/RecordingPreferencesRepository.kt:82-86 | that result is the only such value |
| Preferences.NormalizeIdentity | app/src/main/java/com/example/cameralink/RecordingPreferencesRepository.kt:82-86 | minutes already in range are unchanged |
| Preferences.NormalizeIdempotent | app/src/main/java/com/example/cameralink/RecordingPreferencesRepository.kt:82-86 | normalising twice is normalising once |
| Preferences.NormalizeShift | app/src/main/java/com/example/cameralink/RecordingPreferencesRepository.kt:82-86 | adding whole days does not change the result |
| Preferences.MinutesLabel | app/src/main/java/com/example/cameralink/RecordingPreferencesRepository.kt:88-93 | the label is `HH:MM` with hours below 24 and minutes below 60, and encodes the normalised minutes |
| Preferences.LabelInjective | app/src/main/java/com/example/cameralink/RecordingPreferencesRepository.kt:88-93 | two minute counts get the same label exactly when they normalise to the same minute |
| Preferences.LoadFromPrefs | app/src/main/java/com/example/cameralink/RecordingPreferencesRepository.kt:40-48 | the loaded minutes are in range, and the flags are the stored booleans, false when absent |
| Preferences.LoadEmpty | app/src/main/java/com/example/cameralink/RecordingPreferencesRepository.kt:40-48 | an empty store loads with end 0, not with the constructor's default of 1440 |
| Preferences.LoadedDefaultWindowAgrees | app/src/main/java/com/example/cameralink/RecordingPreferencesRepository.kt:20-33 | both the loaded default window (0, 0) and the constructor default (0, 1440) contain every minute of the day |
| Preferences.Save | app/src/main/java/com/example/cameralink/RecordingPreferencesRepository.kt:53-59 | the store then holds all four fields under their keys |
| Preferences.SaveLoad | app/src/main/java/com/example/cameralink/RecordingPreferencesRepository.kt:40-59 | saving and then loading gives back any preferences whose minutes are in range |
| Preferences.PreferencesRepository.constructor | app/src/main/java/com/example/cameralink/RecordingPreferencesRepository.kt:36-38 | the initial state is what the store loads |
| Preferences.PreferencesRepository.SaveAndEmit | app/src/main/java/com/example/cameralink/RecordingPreferencesRepository.kt:50-61 | the store and the state become the new preferences, and the flow emits exactly when they differ from the old |
| Preferences.PreferencesRepository.UpdateLocalRecordingEnabled | app/src/main/java/com/example/cameralink/RecordingPreferencesRepository.kt:63-65 | only the recording flag changes; the store stays in step with the state |
| Preferences.PreferencesRepository.UpdateScheduleEnabled | app/src/main/java/com/example/cameralink/RecordingPreferencesRepository.kt:67-69 | only the schedule flag changes |
| Preferences.PreferencesRepository.UpdateStartMinutes | app/src/main/java/com/example/cameralink/RecordingPreferencesRepository.kt:71-74 | only the start changes, to the normalised value |
| Preferences.PreferencesRepository.UpdateEndMinutes | app/src/main/java/com/example/cameralink/RecordingPreferencesRepository.kt:76-79 | only the end changes, to the normalised value |
| Scheduler.ShouldRecordNow | app/src/main/java/com/example/cameralink/RecordingScheduler.kt:31-33 | `shouldRecordNow`: local recording on and the minute inside the window; `Scheduler.OneCommand` proves each run starts recording exactly when it holds |
| Scheduler.MinutesUntil | app/src/main/java/com/example/cameralink/RecordingScheduler.kt:66-72 | `minutesUntil`: the forward distance to the target minute, wrapping at midnight; `Scheduler.MinutesUntilSpec` and `Scheduler.MinutesUntilLeast` state its meaning |
| Scheduler.MinutesUntilSpec | app/src/main/java/com/example/cameralink/RecordingScheduler.kt:66-72 | the delay is under one day, zero exactly at the target, and lands on the target modulo one day |
| Scheduler.MinutesUntilLeast | app/src/main/java/com/example/cameralink/RecordingScheduler.kt:66-72 | no shorter delay reaches the target |
| Scheduler.NextWindowEffects | app/src/main/java/com/example/cameralink/RecordingScheduler.kt:35-64 | without an alarm manager nothing happens; otherwise both alarms are cancelled first and a command is issued last |
| Scheduler.Scheduled | app/src/main/java/com/example/cameralink/RecordingScheduler.kt:40 | alarms are set only with local recording on, scheduling on and a non-empty window; `Scheduler.NoAlarmsUnscheduled` and `Scheduler.AlarmsScheduled` state both sides |
| Scheduler.Alarms | app/src/main/java/com/example/cameralink/RecordingScheduler.kt:56-57 | the alarms set among a run's effects, in order; `Scheduler.AlarmsScheduled` gives them |
| Scheduler.Commands | app/src/main/java/com/example/cameralink/RecordingScheduler.kt:41-62 | the commands issued among a run's effects, in order; `Scheduler.OneCommand` gives them |
| Scheduler.AlarmsAppend | app/src/main/java/com/example/cameralink/RecordingScheduler.kt:35-64 | the alarms set by two runs are those of each, in order |
| Scheduler.CommandsAppend | app/src/main/java/com/example/cameralink/RecordingScheduler.kt:35-64 | the commands issued by two runs are those of each, in order |
| Scheduler.FiltersAppend | app/src/main/java/com/example/cameralink/RecordingScheduler.kt:35-64 | alarms and commands both distribute over concatenation |
| Scheduler.FiltersOne | app/src/main/java/com/example/cameralink/RecordingScheduler.kt:35-64 | a single effect contributes itself as an alarm or its command, or nothing |
| Scheduler.FiltersOfShape | app/src/main/java/com/example/cameralink/RecordingScheduler.kt:35-64 | alarms and commands of a three- or five-effect run are those of its effects, in order |
| Scheduler.EffectsShape | app/src/main/java/com/example/cameralink/RecordingScheduler.kt:40-63 | unscheduled: cancel both, then start or stop by the recording flag; scheduled: cancel both, set the start and stop alarms at their delays, then start or stop by the window |
| Scheduler.OneCommand | app/src/main/java/com/example/cameralink/RecordingScheduler.kt:31-63 | each run issues exactly one command, and it is start exactly when `shouldRecordNow` holds |
| Scheduler.NoAlarmsUnscheduled | app/src/main/java/com/example/cameralink/RecordingScheduler.kt:40-47 | without an active schedule no alarm is set |
| Scheduler.AlarmsScheduled | app/src/main/java/com/example/cameralink/RecordingScheduler.kt:49-57 | with an active schedule exactly the start and stop alarms are set, each within the next 24 hours |
| Scheduler.OnReceive | app/src/main/java/com/example/cameralink/RecordingScheduler.kt:108-114 | the start action starts recording, the stop action stops it, and any other intent does nothing |
| Scheduler.RecordingScheduler.constructor | app/src/main/java/com/example/cameralink/RecordingScheduler.kt:17-20 | the cached preferences are the defaults and nothing has happened yet |
| Scheduler.RecordingScheduler.ScheduleNextWindow | app/src/main/java/com/example/cameralink/RecordingScheduler.kt:35-64 | the run's effects are appended, and the cached preferences are unchanged |
| Scheduler.RecordingScheduler.OnPreferences | app/src/main/java/com/example/cameralink/RecordingScheduler.kt:22-29 | each collected value becomes the cached preferences and triggers one run for them |
| Scheduler.RecordingScheduler.OnAlarm | app/src/main/java/com/example/cameralink/RecordingScheduler.kt:108-114 | a fired alarm issues at most its command and sets no alarm, so no reschedule happens |
| Streaming.RouteOf | app/src/main/java/com/example/cameralink/StreamingServer.kt:125-147 | each known path goes to its handler, in both directions |
| Streaming.SnapshotResponse | app/src/main/java/com/example/cameralink/StreamingServer.kt:323-331 | 200 with the frame as `image/jpeg` of its own length exactly when a non-empty frame is held, else 503 "No frame available" |
| Streaming.ServeWith | app/src/main/java/com/example/cameralink/StreamingServer.kt:121-148 | a response is the 404 "Not Found" exactly for unknown paths |
| Streaming.ServeStatuses | app/src/main/java/com/example/cameralink/StreamingServer.kt:121-148 | 503 is only a frameless snapshot, and everything else known is 200 |
| Streaming.StreamContentTypeNamesBoundary | app/src/main/java/com/example/cameralink/StreamingServer.kt:284-299 | the stream's content type ends with the boundary its records use |
| Streaming.TestText | app/src/main/java/com/example/cameralink/StreamingServer.kt:140 | the `/test` body: a fixed text ending in whether a frame is held |
| Streaming.StreamingServer.constructor | app/src/main/java/com/example/cameralink/StreamingServer.kt:15 | the slot starts empty |
| Streaming.StreamingServer.UpdateFrame | app/src/main/java/com/example/cameralink/StreamingServer.kt:17-30 | a non-empty JPEG replaces the frame; an empty one leaves it, so the slot never holds an empty frame |
| Streaming.StreamingServer.Serve | app/src/main/java/com/example/cameralink/StreamingServer.kt:121-147 | `serve` on the stored frame; `Streaming.ServeWith`, `Streaming.ServeStatuses` and `Streaming.SnapshotIffStored` state its responses |
| Streaming.SnapshotIffStored | app/src/main/java/com/example/cameralink/StreamingServer.kt:323-331 | under the slot's invariant, a snapshot is 200 exactly when a frame is stored, and it carries that frame |
| Streaming.StreamRecord | app/src/main/java/com/example/cameralink/StreamingServer.kt:299-302 | the stream's combined bytes are the multipart record of the frame |
| Streaming.NextRecordKeeps | app/src/main/java/com/example/cameralink/StreamingServer.kt:297-305 | the next record is non-empty and extends the bytes handed out to the records of one more frame |
| Streaming.MjpegStream.constructor | app/src/main/java/com/example/cameralink/StreamingServer.kt:286-287 | a new stream has built no record and handed out nothing |
| Streaming.MjpegStream.TakeByte | app/src/main/java/com/example/cameralink/StreamingServer.kt:291-293 | the next byte of the current record is handed out and the records are unchanged |
| Streaming.MjpegStream.NextRecord | app/src/main/java/com/example/cameralink/StreamingServer.kt:297-305 | the frame's record becomes the current data and the frame count grows by one |
| Streaming.MjpegStream.Read | app/src/main/java/com/example/cameralink/StreamingServer.kt:289-316 | a byte is handed out, or the stream keeps waiting while no poll finds a frame; a new record is built only from a polled frame once the current one is drained; the end of the stream is never reported |
| Streaming.WholeRecords | app/src/main/java/com/example/cameralink/StreamingServer.kt:289-316 | between records, the bytes sent parse back into exactly the frames taken, in order |
| Tailscale.SplitPrefix | app/src/main/java/com/example/cameralink/TailscalePinger.kt:82 | a dot-free part followed by a dot splits off as the first part |
| Tailscale.SplitNoSep | app/src/main/java/com/example/cameralink/TailscalePinger.kt:82 | a dot-free string splits into itself alone |
| Tailscale.SplitOfJoin | app/src/main/java/com/example/cameralink/TailscalePinger.kt:82 | dot-free parts joined by dots split back into those parts |
| Tailscale.SplitFour | app/src/main/java/com/example/cameralink/TailscalePinger.kt:82-83 | four dot-free parts joined by dots split back into four parts |
| Tailscale.DecimalHasNoDot | app/src/main/java/com/example/cameralink/TailscalePinger.kt:82 | a rendered octet contains no dot |
| Tailscale.IsTailscaleIp | app/src/main/java/com/example/cameralink/TailscalePinger.kt:80-95 | `isTailscaleIp`: four dot-separated parts, the first parsing to 100 and the second to 64..127; `Tailscale.TailscaleIpIsCgnat` and the other `Tailscale.TailscaleIp*` lemmas state its meaning |
| Tailscale.InCgnatRange | app/src/main/java/com/example/cameralink/TailscalePinger.kt:16-17 | the address's 32-bit value has the top ten bits of 100.64.0.0/10, an independent statement of the range |
| Tailscale.CgnatOctets | app/src/main/java/com/example/cameralink/TailscalePinger.kt:16-17 | an address is in 100.64.0.0/10 exactly when it starts 100 and 64..127 |
| Tailscale.QuadIsTailscaleIp | app/src/main/java/com/example/cameralink/TailscalePinger.kt:80-95 | a dotted quad passes the check exactly when its first octet is 100 and its second is 64..127 |
| Tailscale.TailscaleIpIsCgnat | app/src/main/java/com/example/cameralink/TailscalePinger.kt:80-95 | on real octets, the check is membership of 100.64.0.0/10 |
| Tailscale.TailscaleIpIgnoresLastParts | app/src/main/java/com/example/cameralink/TailscalePinger.kt:82-91 | the last two parts are never examined, so `100.64.x.y` passes for any dot-free x and y |
| Tailscale.TailscaleIpHasThreeDots | app/src/main/java/com/example/cameralink/TailscalePinger.kt:82-83 | a string without exactly three dots is rejected |
| Tailscale.IsValidHostname | app/src/main/java/com/example/cameralink/TailscalePinger.kt:71-75 | `isValidHostname`: either regex matches the whole string; `Tailscale.HostnameIff` and `Tailscale.DottedNameRejected` state its meaning |
| Tailscale.HostnameIff | app/src/main/java/com/example/cameralink/TailscalePinger.kt:71-75 | a hostname is non-empty, starts and ends alphanumeric, and holds only letters, digits and hyphens |
| Tailscale.DottedNameRejected | app/src/main/java/com/example/cameralink/TailscalePinger.kt:71-75 | no name containing a dot is a valid hostname |
| Tailscale.Without | app/src/main/java/com/example/cameralink/TailscalePinger.kt:50-53 | removing a target keeps every other one and keeps the set free of duplicates |
| Tailscale.Distinct | app/src/main/java/com/example/cameralink/TailscalePinger.kt:154 | `distinct()` has no duplicates and the same members |
| Tailscale.DistinctOfNoDup | app/src/main/java/com/example/cameralink/TailscalePinger.kt:154 | `distinct()` of a list without duplicates is that list |
| Tailscale.DistinctPrefix | app/src/main/java/com/example/cameralink/TailscalePinger.kt:154 | `distinct()` keeps first occurrences, so the distinct prefix leads the distinct whole |
| Tailscale.Usable | app/src/main/java/com/example/cameralink/TailscalePinger.kt:120-122 | an address is kept when it has a host address, is not loopback and has no colon |
| Tailscale.UsableAll | app/src/main/java/com/example/cameralink/TailscalePinger.kt:107-133 | the usable addresses of every interface, in enumeration order; `Tailscale.UsableAllSnoc` and `Tailscale.UsableOfSnoc` give each step |
| Tailscale.TailscaleOnly | app/src/main/java/com/example/cameralink/TailscalePinger.kt:127-130 | the addresses in the Tailscale range, in order; `Tailscale.TailscaleOnlyMembers` states exactly which |
| Tailscale.TailscaleOnlyMembers | app/src/main/java/com/example/cameralink/TailscalePinger.kt:127-130 | the Tailscale list is exactly the usable addresses that pass the check |
| Tailscale.LocalSelection | app/src/main/java/com/example/cameralink/TailscalePinger.kt:100-147 | `getLocalTailscaleIps`: the Tailscale addresses when there are any, otherwise all usable ones, and nothing when enumeration fails; `Tailscale.LocalSelectionSpec` and `Tailscale.GetLocalTailscaleIps` are its partners |
| Tailscale.LocalSelectionSpec | app/src/main/java/com/example/cameralink/TailscalePinger.kt:135-146 | the selection holds only usable IPv4 addresses: the Tailscale ones when there are any, otherwise all of them |
| Tailscale.UsableOfSnoc | app/src/main/java/com/example/cameralink/TailscalePinger.kt:118-131 | one more address adds its text exactly when it has one, is not loopback and has no colon |
| Tailscale.TailscaleOnlySnoc | app/src/main/java/com/example/cameralink/TailscalePinger.kt:127-130 | one more usable address joins the Tailscale list exactly when it passes the check |
| Tailscale.UsableAllSnoc | app/src/main/java/com/example/cameralink/TailscalePinger.kt:107-133 | one more interface adds its usable addresses after the earlier ones |
| Tailscale.ScanAddresses | app/src/main/java/com/example/cameralink/TailscalePinger.kt:117-132 | the inner loop appends the interface's usable addresses and keeps the Tailscale list equal to the filtered list |
| Tailscale.GetLocalTailscaleIps | app/src/main/java/com/example/cameralink/TailscalePinger.kt:100-147 | the scan returns the local selection, and nothing when enumeration fails |
| Tailscale.Acceptable | app/src/main/java/com/example/cameralink/TailscalePinger.kt:35-38 | what `addTailscaleIp` accepts after trimming: non-empty, and a Tailscale IP or a valid hostname; `Tailscale.TailscalePinger.AddTailscaleIp` and `Tailscale.DottedNameNotAcceptable` are its partners |
| Tailscale.DottedNameNotAcceptable | app/src/main/java/com/example/cameralink/TailscalePinger.kt:34-45 | a dotted name that does not start like a number is refused by `addTailscaleIp` |
| Tailscale.DefaultsNotAddable | app/src/main/java/com/example/cameralink/TailscalePinger.kt:21-29 | the two default MagicDNS names with dots could not be added by `addTailscaleIp` |
| Tailscale.TailscalePinger.constructor | app/src/main/java/com/example/cameralink/TailscalePinger.kt:21-29 | the configured targets start as the six defaults, in order |
| Tailscale.TailscalePinger.AddTailscaleIp | app/src/main/java/com/example/cameralink/TailscalePinger.kt:34-45 | the trimmed input is added at the end exactly when it is non-empty, is a Tailscale IP or a hostname, and is not already configured |
| Tailscale.TailscalePinger.RemoveTailscaleIp | app/src/main/java/com/example/cameralink/TailscalePinger.kt:50-53 | exactly the given string is removed, untrimmed |
| Tailscale.TailscalePinger.GetConfiguredIps | app/src/main/java/com/example/cameralink/TailscalePinger.kt:58 | the configured targets are returned as they are |
| Tailscale.TailscalePinger.ClearConfiguredIps | app/src/main/java/com/example/cameralink/TailscalePinger.kt:63-66 | no targets remain configured |
| Tailscale.TailscalePinger.GetTailscaleIps | app/src/main/java/com/example/cameralink/TailscalePinger.kt:152-159 | the targets are the local selection followed by the configured ones, without duplicates |
| Tailscale.TailscalePinger.PingAll | app/src/main/java/com/example/cameralink/TailscalePinger.kt:188-208 | the result maps the targets to their reachability |
| Tailscale.Targets | app/src/main/java/com/example/cameralink/TailscalePinger.kt:152-159 | the targets have no duplicates, and a name is a target exactly when it is local or configured |
| Tailscale.PingResults | app/src/main/java/com/example/cameralink/TailscalePinger.kt:198-202 | the results map built target by target; `Tailscale.PingResultsShape` and `Tailscale.PingResultsSize` state its keys and values |
| Tailscale.PingResultsShape | app/src/main/java/com/example/cameralink/TailscalePinger.kt:188-208 | the results have exactly the targets as keys, each holding that target's reachability; no targets give the empty map |
| Tailscale.PingResultsSize | app/src/main/java/com/example/cameralink/TailscalePinger.kt:198-202 | there are exactly as many results as targets |
| Tailscale.TargetsOrder | app/src/main/java/com/example/cameralink/TailscalePinger.kt:154 | the local addresses come first, in their order |
| Nv21.ChromaFits | app/src/main/java/com/example/cameralink/ImageProcessing.kt:22-25 | the chroma loops write no more than `w·h/2` bytes |
| Nv21.ChromaRowFits | app/src/main/java/com/example/cameralink/ImageProcessing.kt:52-73 | each chroma row's bytes fit inside the chroma region |
| Nv21.LumaRowFits | app/src/main/java/com/example/cameralink/ImageProcessing.kt:36-41 | each luma row fits inside the luma region |
| Nv21.Overlay | app/src/main/java/com/example/cameralink/ImageProcessing.kt:34 | writing a piece into a buffer keeps the buffer's length |
| Nv21.OverlayAt | app/src/main/java/com/example/cameralink/ImageProcessing.kt:34 | after writing, a position holds the piece's byte inside the piece's range and the old byte outside it |
| Nv21.OverlayCompose | app/src/main/java/com/example/cameralink/ImageProcessing.kt:36-41 | writing two pieces back to back is writing their concatenation |
| Nv21.CopyInto | app/src/main/java/com/example/cameralink/ImageProcessing.kt:39 | `get(dst, pos, n)` writes the bytes at `pos` and changes nothing else |
| Nv21.YRows | app/src/main/java/com/example/cameralink/ImageProcessing.kt:36-41 | the first `n` luma rows are `n·w` bytes |
| Nv21.YPart | app/src/main/java/com/example/cameralink/ImageProcessing.kt:33-42 | the luma part is `w·h` bytes |
| Nv21.YRowsFast | app/src/main/java/com/example/cameralink/ImageProcessing.kt:33-34 | for tightly packed rows, copying row by row and copying in one piece agree |
| Nv21.YRowsIndex | app/src/main/java/com/example/cameralink/ImageProcessing.kt:37-40 | byte `c` of luma row `row` is taken from `row·rowStride + c` of the Y plane |
| Nv21.YPartIndex | app/src/main/java/com/example/cameralink/ImageProcessing.kt:33-42 | on either path, byte `c` of row `row` of the luma part is plane byte `row·rowStride + c` |
| Nv21.CellsOkStep | app/src/main/java/com/example/cameralink/ImageProcessing.kt:64-72 | one more readable chroma row extends the readable prefix |
| Nv21.UnreadableCell | app/src/main/java/com/example/cameralink/ImageProcessing.kt:64-72 | one out-of-range chroma block makes the conversion fail |
| Nv21.PackedRowIff | app/src/main/java/com/example/cameralink/ImageProcessing.kt:55-61 | a packed chroma row reads without exception exactly when `w/2` bytes from its row start exist in both planes |
| Nv21.ChromaRow | app/src/main/java/com/example/cameralink/ImageProcessing.kt:58-61 | the first `n` blocks of a chroma row give `2n` bytes |
| Nv21.ChromaRows | app/src/main/java/com/example/cameralink/ImageProcessing.kt:54-73 | the first `n` chroma rows give `n` times the row length |
| Nv21.ChromaRowIndex | app/src/main/java/com/example/cameralink/ImageProcessing.kt:65-70 | in a chroma row, byte `2·col` is V and byte `2·col+1` is U, both at `row·rowStride + col·pixelStride` |
| Nv21.ChromaRowsIndex | app/src/main/java/com/example/cameralink/ImageProcessing.kt:54-73 | the same holds for every block of the chroma rows, at offset `row·rowBytes + 2·col` |
| Nv21.ChromaReadableCells | app/src/main/java/com/example/cameralink/ImageProcessing.kt:54-73 | a readable chroma pass can read every block |
| Nv21.Nv21Of | app/src/main/java/com/example/cameralink/ImageProcessing.kt:22-25 | the NV21 buffer is `w·h + ⌊w·h/2⌋` bytes |
| Nv21.Nv21Parts | app/src/main/java/com/example/cameralink/ImageProcessing.kt:22-73 | the buffer is the luma part, the chroma rows and zeros |
| Nv21.Nv21Layout | app/src/main/java/com/example/cameralink/ImageProcessing.kt:52-73 | after the luma, block (row, col) is V then U, taken from the planes at its source offset |
| Nv21.Nv21Luma | app/src/main/java/com/example/cameralink/ImageProcessing.kt:33-42 | the luma region holds each row's `w` bytes from the Y plane's row start |
| Nv21.Nv21Tail | app/src/main/java/com/example/cameralink/ImageProcessing.kt:25 | bytes past what the chroma loops write stay zero |
| Nv21.Append | app/src/main/java/com/example/cameralink/ImageProcessing.kt:59-60 | writing at the end of what was written so far extends it by the piece |
| Nv21.YRowsSnoc | app/src/main/java/com/example/cameralink/ImageProcessing.kt:37-40 | one more luma row appends its `w` bytes from its row start |
| Nv21.CopyLumaRow | app/src/main/java/com/example/cameralink/ImageProcessing.kt:38-40 | one row is copied exactly when it can be read, and the buffer then holds the rows so far |
| Nv21.CopyLumaRows | app/src/main/java/com/example/cameralink/ImageProcessing.kt:36-41 | the row-by-row copy succeeds exactly when every row can be read, and then writes all the luma rows |
| Nv21.PackedFromZeros | app/src/main/java/com/example/cameralink/ImageProcessing.kt:25-73 | a zeroed buffer with the luma part and the chroma rows written is the NV21 buffer |
| Nv21.YReadable | app/src/main/java/com/example/cameralink/ImageProcessing.kt:31-42 | the luma copy raises no exception: the whole plane on the packed path, each row start plus `width` bytes otherwise; `Nv21.CopyLuma` succeeds exactly when it holds |
| Nv21.CopyLuma | app/src/main/java/com/example/cameralink/ImageProcessing.kt:31-42 | the luma copy, on either path, succeeds exactly when it is readable and writes the luma part at 0 |
| Nv21.ChromaRowSnoc | app/src/main/java/com/example/cameralink/ImageProcessing.kt:59-60 | one more block appends its V and U bytes |
| Nv21.CopyPackedRow | app/src/main/java/com/example/cameralink/ImageProcessing.kt:56-61 | a packed row succeeds exactly when all its blocks can be read, and appends them as V, U pairs |
| Nv21.CopyStridedRow | app/src/main/java/com/example/cameralink/ImageProcessing.kt:65-71 | a sampled row succeeds exactly when all its blocks can be read, and appends them as V, U pairs |
| Nv21.CopyChromaRow | app/src/main/java/com/example/cameralink/ImageProcessing.kt:54-72 | a chroma row, by whichever path the pixel stride picks, succeeds exactly when it can be read |
| Nv21.ChromaReadable | app/src/main/java/com/example/cameralink/ImageProcessing.kt:44-73 | the chroma copy raises no exception: every block readable in both planes, and each row start on the packed path; `Nv21.CopyChroma` succeeds exactly when it holds and `Nv21.UnreadableCell` shows the converse |
| Nv21.CopyChroma | app/src/main/java/com/example/cameralink/ImageProcessing.kt:44-73 | the chroma pass succeeds exactly when it is readable and writes all chroma rows after the luma |
| Nv21.Readable | app/src/main/java/com/example/cameralink/ImageProcessing.kt:22-73 | the whole conversion raises no exception; `Nv21.PackNv21` succeeds exactly when it holds |
| Nv21.PackNv21 | app/src/main/java/com/example/cameralink/ImageProcessing.kt:22-73 | packing succeeds exactly when every plane access is in range, and the array is then the NV21 buffer |
| Nv21.ImageToJpeg | app/src/main/java/com/example/cameralink/ImageProcessing.kt:11-83 | no image or an out-of-range access gives empty bytes; otherwise the result is the encoder's output for the NV21 buffer at quality 80, or empty if it fails |

## Left out

- Concurrency is left out. This covers the coroutine scopes, the mutex, `AtomicBoolean`, `AtomicReference` and the server's threads. The recorder's bodies run in submission order, one at a time, by explicit `RunNext` steps.
- Each queued recorder body reads the clock once. `openNewSegmentLocked` and `rotateIfNeededLocked` may read it separately in the source.
- Crashes and I/O failures are left out. This covers writes to the segment file and a manifest write that fails halfway.
- An unparsable manifest makes the read throw. In the source that exception escapes the launched body; the scope has a `SupervisorJob` and no exception handler (`LocalVideoRecorder.kt:24`), so it reaches the thread's uncaught-exception handler, which on Android ends the process. The model only stops that body (`Retention.PersistSegment` and `Retention.PruneOldSegments` return `false`, `Recorder.LocalVideoRecorder.OpenNewSegment` keeps the new writer and skips the prune), and the recorder keeps running and takes the next body. The process ending is not modelled.
- Retention.PersistSegment, Retention.PruneOldSegments, Recorder.LocalVideoRecorder.OpenNewSegment, Recorder.LocalVideoRecorder.RotateIfNeeded, Recorder.LocalVideoRecorder.AppendBody and Recorder.LocalVideoRecorder.RunNext read the manifest with the corrected reader `Retention.ReadEntries` of the Findings table: a manifest holding a non-object element is persisted to and pruned with its valid entries, where the source's reader throws there and nothing is persisted or pruned.
- Two segments opened in the same second get the same file name. This collision is not modelled: the name for a time is the parameter `fileName`.
- JSON text is not parsed. The manifest is modelled as absent, unparsable, or an array of elements.
- SegmentEntry.OptLong reads a string only when it is an optionally signed ASCII integer. Android's `optLong` on a string goes through `Double.parseDouble`, which also trims surrounding whitespace and accepts fractions, exponents, `d`/`f` suffixes, NaN and Infinity (so `" 12"` reads as 12 there and falls back to -1 here). JSON number values that are not integers are not expressible in `JsonValue` at all.
- Integer widths are left out. `Int` and `Long` are unbounded here. This covers overflow of `width * height`, of the millisecond arithmetic, and of `toIntOrNull`'s 32-bit range.
- `toIntOrNull` accepts ASCII digits only. The JVM also takes other Unicode digits.
- The hostname check treats letters as ASCII only.
- `Locale.getDefault()` in `minutesLabel` is left out. Western digits are assumed.
- `currentMinutesOfDay` (the calendar and the time zone) is a parameter, `nowMinutes`.
- `SharedPreferences` type mismatches (`ClassCastException`) are left out. The store is two typed maps.
- The alarm manager's scheduling, `PendingIntent` and the SDK version branch are left out. Setting an alarm is recorded as an effect with its time and action.
- `RecordingController` is a command effect. WorkManager, the service and the UI are not part of this model.
- `Nv21.ImageToJpeg`: the JPEG encoder (`YuvImage.compressToJpeg`) is the parameter `compress`. Its failure stands for the exception path.
- The home page's HTML is the single value `HomePage`. Logging (`println`, `Log`) is left out.
- `StreamingServer.imageProxyToJpeg` is modelled once, as `Nv21.ImageToJpeg`. It repeats `imageProxyToJpegByteArray` line for line, apart from logging.
- The Y pixel stride is read only to choose the fast path. The row-by-row copy ignores it, as the source does.
- `pingIp` (DNS and ICMP through `InetAddress.isReachable`) is the parameter `reachable`.
- `Tailscale.GetLocalTailscaleIps`: an exception during enumeration is modelled only as a failure before any interface is read, which returns nothing. An exception after some addresses were collected, which returns the Tailscale ones found so far, is left out.
- `Text.TrimStart`, `Text.TrimEnd`: their own contracts state only the length. Their meaning is proved in `Text.TrimStartSpec` and `Text.TrimEndSpec`.

Behaviour of the code worth knowing:

- **Deleting files.** A prune never deletes files that are not in the manifest. A file whose deletion fails loses its entry but stays on disk (`undeletable`).
- **Manifest order.** The manifest is in ascending age only after a prune has rewritten it. `persistSegment` appends in call order, and a prune keeps entries of equal time in that order (`Retention.SortStable`).
- **Default preferences.** The stored default end of 1440 normalises to 0 on load (`Preferences.LoadEmpty`). The window still contains every minute (`Preferences.LoadedDefaultWindowAgrees`).
- **Alarms.** A fired alarm only issues its command. The receiver does not run the schedule again (`Scheduler.RecordingScheduler.OnAlarm`).
- **Default targets.** They include two dotted MagicDNS names that `addTailscaleIp` would refuse (`Tailscale.DefaultsNotAddable`).

## Findings

| source | as written | input that shows it | evidently intended | confidence | as-written member | corrected member |
|---|---|---|---|---|---|---|
| app/src/main/java/com/example/cameralink/LocalVideoRetentionDao.kt:39-40 | `optJSONObject(i)` returns null for an element that is not an object. Passing null to `fromJson`, whose parameter is non-null, throws, so the whole read fails and neither persist nor prune happens | a manifest `[{"path":"/segment.mjpg","createdAt":1}, 7]` | skip such elements, as `fromJson` skips invalid objects, and keep the valid entries | not executed | Retention.ReadEntriesAsWritten, shown by Retention.AsWrittenAbortsOnNonObject | Retention.ReadEntries |

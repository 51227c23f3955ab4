/**
 * The retention manifest `local_segments.json` and age-based eviction
 * (`LocalVideoRetentionDao`). The disk is a set of existing segment paths
 * plus the manifest file's content; the manifest is a JSON array whose
 * elements are objects or other JSON values.
 */
module Retention {
  import opened Text
  import opened SegmentEntry

  /** One hour in milliseconds. */
  const HourMillis: int := 60 * 60 * 1000

  /** 24 hours in milliseconds. */
  const MaxRetentionMillis: int := 24 * 60 * 60 * 1000

  /** One element of the manifest's JSON array. */
  datatype Element = Obj(fields: JsonObject) | NonObject(value: JsonValue)

  /**
   * The manifest file: absent, present but not a JSON array (the
   * `JSONArray` constructor throws), or an array.
   */
  datatype ManifestFile = Missing | Unparsable | Array(items: seq<Element>)

  // ------------------------------------------------------------ reading

  /** The entries `fromJson` accepts, in array order; other elements are skipped. */
  function ValidEntries(items: seq<Element>): (r: seq<Entry>)
    ensures |r| <= |items|
    ensures forall i :: 0 <= i < |r| ==> IsValid(r[i])
  {
    if items == [] then []
    else
      var head := match items[0]
        case Obj(o) => (match FromJson(o) case Some(e) => [e] case None => [])
        case NonObject(_) => [];
      head + ValidEntries(items[1..])
  }

  /**
   * `readEntries`: a missing file reads as no entries, an unparsable one
   * fails (None), and an array yields its valid entries in order.
   */
  function ReadEntries(m: ManifestFile): (r: Option<seq<Entry>>)
    ensures r.None? <==> m.Unparsable?
    ensures m.Missing? ==> r == Some([])
    ensures r.Some? ==> forall i :: 0 <= i < |r.value| ==> IsValid(r.value[i])
  {
    match m
    case Missing => Some([])
    case Unparsable => None
    case Array(items) => Some(ValidEntries(items))
  }

  /**
   * `readEntries` as the source has it: `optJSONObject(i)` yields null for an
   * element that is not an object, and passing null to `fromJson`, whose
   * parameter is non-null, throws. One such element makes the whole read fail.
   */
  function ReadEntriesAsWritten(m: ManifestFile): Option<seq<Entry>> {
    match m
    case Missing => Some([])
    case Unparsable => None
    case Array(items) => ReadItemsAsWritten(items)
  }

  function ReadItemsAsWritten(items: seq<Element>): Option<seq<Entry>> {
    if items == [] then Some([])
    else match items[0]
      case NonObject(_) => None
      case Obj(o) =>
        match ReadItemsAsWritten(items[1..])
        case None => None
        case Some(rest) => Some((match FromJson(o) case Some(e) => [e] case None => []) + rest)
  }

  /** A manifest holding an object and then a bare number. */
  const MixedManifest: ManifestFile :=
    Array([Obj(ToJson(Entry("/segment.mjpg", 1))), NonObject(JLong(7))])

  /** The as-written read drops the whole manifest over one non-object element. */
  lemma AsWrittenAbortsOnNonObject()
    ensures ReadEntriesAsWritten(MixedManifest) == None
    ensures ReadEntries(MixedManifest) == Some([Entry("/segment.mjpg", 1)])
  {
    var e := Entry("/segment.mjpg", 1);
    assert !IsWhitespace(e.filePath[0]);
    RoundTrip(e);
    var items := MixedManifest.items;
    assert items == [Obj(ToJson(e)), NonObject(JLong(7))];
    assert items[1..][1..] == [];
    assert ValidEntries(items[1..]) == [];
    assert FromJson(ToJson(e)) == Some(e);
    assert ValidEntries(items) == [e] + ValidEntries(items[1..]) == [e];
    assert ReadEntries(MixedManifest) == Some(ValidEntries(items));
  }

  /** On arrays of objects only (all the program itself writes) both reads agree. */
  lemma {:induction false} AsWrittenAgreesOnObjects(items: seq<Element>)
    requires forall i :: 0 <= i < |items| ==> items[i].Obj?
    ensures ReadItemsAsWritten(items) == Some(ValidEntries(items))
  {
    if items != [] { AsWrittenAgreesOnObjects(items[1..]); }
  }

  // ------------------------------------------------------------ writing

  function Objects(es: seq<Entry>): (r: seq<Element>)
    ensures |r| == |es|
    ensures forall i :: 0 <= i < |r| ==> r[i] == Obj(ToJson(es[i]))
  {
    if es == [] then [] else [Obj(ToJson(es[0]))] + Objects(es[1..])
  }

  /** `writeEntries`: one `toJson` object per entry, in list order. */
  function WriteEntries(es: seq<Entry>): ManifestFile {
    Array(Objects(es))
  }

  /** The valid entries of a list, in order. */
  function OnlyValid(es: seq<Entry>): seq<Entry> {
    if es == [] then [] else (if IsValid(es[0]) then [es[0]] else []) + OnlyValid(es[1..])
  }

  lemma {:induction false} OnlyValidAll(es: seq<Entry>)
    requires forall i :: 0 <= i < |es| ==> IsValid(es[i])
    ensures OnlyValid(es) == es
  {
    if es != [] { OnlyValidAll(es[1..]); }
  }

  /** A valid entry of a list is among its valid entries. */
  lemma {:induction false} OnlyValidKeeps(es: seq<Entry>, e: Entry)
    requires e in es && IsValid(e)
    ensures e in OnlyValid(es)
  {
    if es[0] != e { OnlyValidKeeps(es[1..], e); }
  }

  /** Writing then reading gives back the same list of valid entries. */
  lemma {:induction false} WriteReadRoundTrip(es: seq<Entry>)
    ensures ReadEntries(WriteEntries(es)) == Some(OnlyValid(es))
  {
    if es != [] {
      assert Objects(es)[1..] == Objects(es[1..]);
      WriteReadRoundTrip(es[1..]);
      if IsValid(es[0]) { RoundTrip(es[0]); } else { RoundTripRejects(es[0]); }
    }
  }

  /** ... so a list of valid entries survives a write and a read unchanged. */
  lemma WriteReadValid(es: seq<Entry>)
    requires forall i :: 0 <= i < |es| ==> IsValid(es[i])
    ensures ReadEntries(WriteEntries(es)) == Some(es)
  {
    WriteReadRoundTrip(es);
    OnlyValidAll(es);
  }

  // ------------------------------------------------------------- sorting

  predicate SortedByCreated(s: seq<Entry>) {
    forall i, j :: 0 <= i < j < |s| ==> s[i].createdAtMillis <= s[j].createdAtMillis
  }

  predicate AllAtMost(s: seq<Entry>, t: int) {
    forall k :: 0 <= k < |s| ==> s[k].createdAtMillis <= t
  }

  lemma SortedSnoc(s: seq<Entry>, x: Entry)
    requires SortedByCreated(s) && AllAtMost(s, x.createdAtMillis)
    ensures SortedByCreated(s + [x])
  {
  }

  /** Places `x` after every element whose time is not later than its own. */
  function InsertByCreated(s: seq<Entry>, x: Entry): (r: seq<Entry>)
    requires SortedByCreated(s)
    ensures SortedByCreated(r)
    ensures multiset(r) == multiset(s) + multiset{x}
    ensures forall t :: AllAtMost(s, t) && x.createdAtMillis <= t ==> AllAtMost(r, t)
  {
    if s == [] || s[|s| - 1].createdAtMillis <= x.createdAtMillis then
      SortedSnoc(s, x);
      s + [x]
    else
      var init := s[..|s| - 1];
      var last := s[|s| - 1];
      assert s == init + [last];
      var r := InsertByCreated(init, x);
      assert AllAtMost(init, last.createdAtMillis);
      SortedSnoc(r, last);
      r + [last]
  }

  /** `sortedBy { it.createdAtMillis }`: a stable sort by creation time. */
  function SortByCreated(s: seq<Entry>): (r: seq<Entry>)
    ensures SortedByCreated(r)
    ensures multiset(r) == multiset(s)
  {
    if s == [] then []
    else
      assert s == s[..|s| - 1] + [s[|s| - 1]];
      InsertByCreated(SortByCreated(s[..|s| - 1]), s[|s| - 1])
  }

  /** The entries created at time `t`, in their order. */
  function WithTime(s: seq<Entry>, t: int): seq<Entry> {
    if s == [] then []
    else WithTime(s[..|s| - 1], t) + (if s[|s| - 1].createdAtMillis == t then [s[|s| - 1]] else [])
  }

  lemma WithTimeSnoc(s: seq<Entry>, x: Entry, t: int)
    ensures WithTime(s + [x], t) == WithTime(s, t) + (if x.createdAtMillis == t then [x] else [])
  {
    assert (s + [x])[..|s|] == s;
  }

  lemma SortedInit(s: seq<Entry>)
    requires SortedByCreated(s) && s != []
    ensures SortedByCreated(s[..|s| - 1])
  {
    var init := s[..|s| - 1];
    assert forall i :: 0 <= i < |init| ==> init[i] == s[i];
  }

  /** Inserting `x` puts it after every entry of the same time already present. */
  lemma {:induction false} InsertStable(s: seq<Entry>, x: Entry, t: int)
    requires SortedByCreated(s)
    ensures WithTime(InsertByCreated(s, x), t) == WithTime(s, t) + (if x.createdAtMillis == t then [x] else [])
  {
    if s == [] || s[|s| - 1].createdAtMillis <= x.createdAtMillis {
      InsertAtEnd(s, x);
      WithTimeSnoc(s, x, t);
    } else {
      var init, last := s[..|s| - 1], s[|s| - 1];
      assert s == init + [last];
      SortedInit(s);
      var r := InsertByCreated(init, x);
      InsertStable(init, x, t);
      InsertStableStep(init, last, r, x, t);
      assert InsertByCreated(s, x) == r + [last];
    }
  }

  /** Moving an entry later than `x` past it keeps each time's order. */
  lemma InsertStableStep(init: seq<Entry>, last: Entry, r: seq<Entry>, x: Entry, t: int)
    requires x.createdAtMillis < last.createdAtMillis
    requires WithTime(r, t) == WithTime(init, t) + (if x.createdAtMillis == t then [x] else [])
    ensures WithTime(r + [last], t) == WithTime(init + [last], t) + (if x.createdAtMillis == t then [x] else [])
  {
    WithTimeSnoc(r, last, t);
    WithTimeSnoc(init, last, t);
  }

  /**
   * `sortedBy` is stable: for every time, the entries created at that time
   * keep their input order.
   */
  lemma {:induction false} SortStable(s: seq<Entry>, t: int)
    ensures WithTime(SortByCreated(s), t) == WithTime(s, t)
  {
    if s != [] {
      var init := s[..|s| - 1];
      SortStable(init, t);
      InsertStable(SortByCreated(init), s[|s| - 1], t);
    }
  }

  /** An element no earlier than the last goes at the end. */
  lemma InsertAtEnd(s: seq<Entry>, x: Entry)
    requires SortedByCreated(s) && (s == [] || s[|s| - 1].createdAtMillis <= x.createdAtMillis)
    ensures InsertByCreated(s, x) == s + [x]
  {
  }

  /** Sorting a sorted list changes nothing. */
  lemma {:induction false} SortSorted(s: seq<Entry>)
    requires SortedByCreated(s)
    ensures SortByCreated(s) == s
  {
    if s != [] {
      var init := s[..|s| - 1];
      var x := s[|s| - 1];
      assert s == init + [x];
      assert SortedByCreated(init) && (init == [] || init[|init| - 1].createdAtMillis <= x.createdAtMillis) by {
        assert forall i, j :: 0 <= i < j < |init| ==> init[i] == s[i] && init[j] == s[j];
      }
      SortSorted(init);
      assert SortByCreated(s) == InsertByCreated(SortByCreated(init), x);
      InsertAtEnd(init, x);
    }
  }

  // ------------------------------------------------------------- pruning

  /** The strict 24-hour test: an entry exactly 24 hours old is kept. */
  predicate Expired(now: int, e: Entry) {
    now - e.createdAtMillis > MaxRetentionMillis
  }

  /** How many leading entries the prune loop removes. */
  function ExpiredPrefix(s: seq<Entry>, now: int): (k: nat)
    ensures k <= |s|
    ensures forall i :: 0 <= i < k ==> Expired(now, s[i])
    ensures k < |s| ==> !Expired(now, s[k])
  {
    if s == [] || !Expired(now, s[0]) then 0 else 1 + ExpiredPrefix(s[1..], now)
  }

  /** The prefix length is pinned down by its two defining facts. */
  lemma {:induction false} ExpiredPrefixIs(s: seq<Entry>, now: int, i: nat)
    requires i <= |s|
    requires forall j :: 0 <= j < i ==> Expired(now, s[j])
    requires i == |s| || !Expired(now, s[i])
    ensures ExpiredPrefix(s, now) == i
  {
    if i > 0 {
      assert Expired(now, s[0]);
      ExpiredPrefixIs(s[1..], now, i - 1);
    }
  }

  /**
   * On a list sorted by time the expired entries are exactly the prefix the
   * loop removes: the trim removes every expired entry and nothing else.
   */
  lemma PrefixIsExpired(s: seq<Entry>, now: int)
    requires SortedByCreated(s)
    ensures forall i :: 0 <= i < |s| ==> (i < ExpiredPrefix(s, now) <==> Expired(now, s[i]))
  {
    var k := ExpiredPrefix(s, now);
    forall i | 0 <= i < |s| && k <= i ensures !Expired(now, s[i]) {
      assert s[k].createdAtMillis <= s[i].createdAtMillis;
    }
  }

  /** The paths of a list of entries. */
  function Paths(es: seq<Entry>): set<string> {
    set i | 0 <= i < |es| :: es[i].filePath
  }

  lemma PathsOfLonger(s: seq<Entry>, i: nat)
    requires i < |s|
    ensures Paths(s[..i + 1]) == Paths(s[..i]) + {s[i].filePath}
  {
    var a, b := s[..i + 1], s[..i];
    assert forall k :: 0 <= k < i ==> a[k] == b[k];
    assert a[i] == s[i];
  }

  /** The segment files left after deleting the paths of `removed`, except the undeletable ones. */
  function FilesAfter(files: set<string>, removed: seq<Entry>, undeletable: set<string>): set<string> {
    files - (Paths(removed) - undeletable)
  }

  lemma FilesAfterStep(files: set<string>, s: seq<Entry>, i: nat, undeletable: set<string>)
    requires i < |s|
    ensures FilesAfter(files, s[..i + 1], undeletable)
         == FilesAfter(files, s[..i], undeletable) - ({s[i].filePath} - undeletable)
  {
    PathsOfLonger(s, i);
  }

  /** The entries kept by a prune at `now` of the entries read from a manifest. */
  function Kept(es: seq<Entry>, now: int): seq<Entry> {
    var s := SortByCreated(es);
    s[ExpiredPrefix(s, now)..]
  }

  /** The entries removed by a prune at `now`, oldest first. */
  function Removed(es: seq<Entry>, now: int): seq<Entry> {
    var s := SortByCreated(es);
    s[..ExpiredPrefix(s, now)]
  }

  /**
   * A prune splits the entries without loss: the removed ones are every
   * expired entry, the kept ones every other, and the kept list is ascending.
   */
  lemma PruneSplits(es: seq<Entry>, now: int)
    ensures multiset(Removed(es, now)) + multiset(Kept(es, now)) == multiset(es)
    ensures forall e :: e in Removed(es, now) ==> Expired(now, e)
    ensures forall e :: e in Kept(es, now) ==> !Expired(now, e)
    ensures SortedByCreated(Kept(es, now))
  {
    var s := SortByCreated(es);
    var k := ExpiredPrefix(s, now);
    PrefixIsExpired(s, now);
    assert s == s[..k] + s[k..];
  }

  /** A second prune at the same time finds nothing to remove. */
  lemma PruneIdempotent(es: seq<Entry>, now: int)
    ensures Removed(Kept(es, now), now) == []
    ensures Kept(Kept(es, now), now) == Kept(es, now)
  {
    var kept := Kept(es, now);
    PruneSplits(es, now);
    SortSorted(kept);
    if kept != [] { assert kept[0] in kept; }
  }

  /** Of entries 25 h, 23 h and 1 h old, only the first is removed. */
  lemma PruneExample(es: seq<Entry>, now: int)
    requires |es| == 3
    requires es[0].createdAtMillis == now - 25 * HourMillis
    requires es[1].createdAtMillis == now - 23 * HourMillis
    requires es[2].createdAtMillis == now - HourMillis
    ensures Removed(es, now) == [es[0]] && Kept(es, now) == es[1..]
  {
    assert SortedByCreated(es);
    SortSorted(es);
    assert Expired(now, es[0]) && !Expired(now, es[1]);
    ExpiredPrefixIs(es, now, 1);
  }

  /** A prune keeps every valid entry that has not expired. */
  lemma PruneKeepsValid(m: ManifestFile, now: int, e: Entry)
    requires ReadEntries(m).Some? && e in ReadEntries(m).value && IsValid(e) && !Expired(now, e)
    ensures ReadEntries(PrunedManifest(m, now)).Some?
    ensures e in ReadEntries(PrunedManifest(m, now)).value
  {
    var es := ReadEntries(m).value;
    if Removed(es, now) != [] {
      KeptHolds(es, now, e);
      WriteReadRoundTrip(Kept(es, now));
      OnlyValidKeeps(Kept(es, now), e);
    }
  }

  /** An entry that has not expired is kept. */
  lemma KeptHolds(es: seq<Entry>, now: int, e: Entry)
    requires e in es && !Expired(now, e)
    ensures e in Kept(es, now)
  {
    PruneSplits(es, now);
    assert e in multiset(es);
    assert e !in Removed(es, now);
    assert e !in multiset(Removed(es, now));
  }

  /** The manifest after a prune at `now`: rewritten with the kept entries only if something expired. */
  function PrunedManifest(m: ManifestFile, now: int): ManifestFile
    requires ReadEntries(m).Some?
  {
    var es := ReadEntries(m).value;
    if Removed(es, now) == [] then m else WriteEntries(Kept(es, now))
  }

  /** The segment files after a prune at `now`. */
  function PrunedFiles(files: set<string>, m: ManifestFile, now: int, undeletable: set<string>): set<string>
    requires ReadEntries(m).Some?
  {
    FilesAfter(files, Removed(ReadEntries(m).value, now), undeletable)
  }

  /** A prune deletes the file of every expired entry, unless that delete fails. */
  lemma PruneDeletesExpired(files: set<string>, es: seq<Entry>, now: int, undeletable: set<string>, e: Entry)
    requires e in es && Expired(now, e) && e.filePath !in undeletable
    ensures e.filePath !in FilesAfter(files, Removed(es, now), undeletable)
  {
    PruneSplits(es, now);
    var removed := Removed(es, now);
    assert e in multiset(es);
    if e !in removed {
      assert false;
    }
    var i :| 0 <= i < |removed| && removed[i] == e;
  }

  /** A prune deletes no file but those of expired entries, and creates none. */
  lemma PruneTouchesOnlyExpired(files: set<string>, es: seq<Entry>, now: int, undeletable: set<string>, p: string)
    requires p in files && p !in FilesAfter(files, Removed(es, now), undeletable)
    ensures exists e :: e in es && Expired(now, e) && e.filePath == p
  {
    PruneSplits(es, now);
    var removed := Removed(es, now);
    var i :| 0 <= i < |removed| && removed[i].filePath == p;
    assert removed[i] in multiset(es);
  }

  /** The kept entries all come from the input. */
  lemma KeptFromInput(es: seq<Entry>, now: int)
    ensures forall e :: e in Kept(es, now) ==> e in es
  {
    PruneSplits(es, now);
    forall e | e in Kept(es, now) ensures e in es {
      assert e in multiset(Kept(es, now));
      assert e in multiset(Removed(es, now)) + multiset(Kept(es, now));
      assert e in multiset(es);
    }
  }

  /** The manifest a prune leaves reads back, and holds only fresh entries that were there before. */
  lemma PruneKeepsFresh(m: ManifestFile, now: int)
    requires ReadEntries(m).Some?
    ensures ReadEntries(PrunedManifest(m, now)).Some?
    ensures forall e :: e in ReadEntries(PrunedManifest(m, now)).value ==> e in ReadEntries(m).value && !Expired(now, e)
  {
    var es := ReadEntries(m).value;
    PruneSplits(es, now);
    KeptFromInput(es, now);
    var kept := Kept(es, now);
    if Removed(es, now) != [] {
      forall i | 0 <= i < |kept| ensures IsValid(kept[i]) {
        assert kept[i] in kept;
      }
      WriteReadValid(kept);
    } else {
      assert multiset(kept) == multiset(es);
      forall e | e in es ensures !Expired(now, e) {
        assert e in multiset(kept);
      }
    }
  }

  // ------------------------------------------------------------- the files

  /** The app's files: segment files on disk and the manifest file. */
  class Storage {
    var files: set<string>
    var manifest: ManifestFile

    constructor (files: set<string>, manifest: ManifestFile)
      ensures this.files == files && this.manifest == manifest
    {
      this.files := files;
      this.manifest := manifest;
    }
  }

  /**
   * `persistSegment`: read the manifest, append the entry, write the whole
   * list back. An unparsable manifest makes the read throw; nothing is written.
   */
  method PersistSegment(st: Storage, e: Entry) returns (ok: bool)
    modifies st
    ensures ok <==> ReadEntries(old(st.manifest)).Some?
    ensures ok ==> st.manifest == WriteEntries(ReadEntries(old(st.manifest)).value + [e])
    ensures !ok ==> st.manifest == old(st.manifest)
    ensures st.files == old(st.files)
  {
    var read := ReadEntries(st.manifest);
    if read.None? {
      return false;
    }
    var entries := read.value + [e];
    st.manifest := WriteEntries(entries);
    ok := true;
  }

  /** After a persist the manifest reads back as the old entries with the new one last. */
  lemma PersistAppends(m: ManifestFile, e: Entry)
    requires ReadEntries(m).Some? && IsValid(e)
    ensures ReadEntries(WriteEntries(ReadEntries(m).value + [e])) == Some(ReadEntries(m).value + [e])
  {
    WriteReadValid(ReadEntries(m).value + [e]);
  }

  /**
   * The loop of `pruneOldSegments`: while the oldest remaining entry is
   * expired, remove it and delete its file (a delete of an `undeletable`
   * path fails and the loop goes on). `changed` records that something went.
   */
  method DropExpired(sorted: seq<Entry>, now: int, files: set<string>, undeletable: set<string>)
    returns (entries: seq<Entry>, remaining: set<string>, changed: bool)
    ensures entries == sorted[ExpiredPrefix(sorted, now)..]
    ensures remaining == FilesAfter(files, sorted[..ExpiredPrefix(sorted, now)], undeletable)
    ensures changed <==> ExpiredPrefix(sorted, now) > 0
  {
    entries, remaining, changed := sorted, files, false;
    ghost var i := 0;
    while entries != [] && now - entries[0].createdAtMillis > MaxRetentionMillis
      invariant 0 <= i <= |sorted|
      invariant entries == sorted[i..]
      invariant forall j :: 0 <= j < i ==> Expired(now, sorted[j])
      invariant changed <==> i > 0
      invariant remaining == FilesAfter(files, sorted[..i], undeletable)
      decreases |entries|
    {
      var entry := entries[0];
      entries := entries[1..];
      FilesAfterStep(files, sorted, i, undeletable);
      if entry.filePath !in undeletable {
        remaining := remaining - {entry.filePath};
      }
      changed := true;
      i := i + 1;
    }
    ExpiredPrefixIs(sorted, now, i);
  }

  /**
   * `pruneOldSegments(now)`: sort the entries by time, drop the expired
   * ones from the front, and rewrite the manifest only if something was
   * removed. An unparsable manifest makes the read throw; nothing changes.
   */
  method PruneOldSegments(st: Storage, now: int, undeletable: set<string>) returns (ok: bool)
    modifies st
    ensures ok <==> ReadEntries(old(st.manifest)).Some?
    ensures !ok ==> st.files == old(st.files) && st.manifest == old(st.manifest)
    ensures ok ==> st.files == PrunedFiles(old(st.files), old(st.manifest), now, undeletable)
    ensures ok ==> st.manifest == PrunedManifest(old(st.manifest), now)
  {
    var read := ReadEntries(st.manifest);
    if read.None? {
      return false;
    }
    var entries, remaining, changed := DropExpired(SortByCreated(read.value), now, st.files, undeletable);
    st.files := remaining;
    if changed {
      st.manifest := WriteEntries(entries);
    }
    ok := true;
  }
}

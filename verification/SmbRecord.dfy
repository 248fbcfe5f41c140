/** One open file together with its record: when the recorded size is the length of the
    object, and what closing the handle loses. */
module SmbRecord {
  import opened Wrappers
  import opened Segments
  import opened FlushImage
  import opened FileRuns
  import Books
  import Rows

  /** The handle's state, the size in the file record, and whether an early flush has
      stored an object since the record was last brought up to date. */
  datatype OpenFile = OpenFile(st: FileState, record: nat, unsynced: bool)

  /** The write overfills the cache and is flushed at once. */
  predicate FlushesEarly(st: FileState, e: Event) {
    e.Write? && e.accepted && CacheSize(MergeAll(e.sorted)) >= MAX_CACHE
  }

  /** The flush has something to store and is let through: the record follows. */
  predicate FlushesOnRequest(st: FileState, e: Event) {
    e.Flush? && e.accepted && st.NeedsFlush()
  }

  function RecordStep(f: OpenFile, e: Event): OpenFile
    requires AllValid(f.st.table)
    requires e.Write? ==> AllValid(MergeAll(e.sorted))
  {
    var st1 := Step(f.st, e);
    if FlushesOnRequest(f.st, e) then OpenFile(st1, st1.size, false)
    else OpenFile(st1, f.record, f.unsynced || FlushesEarly(f.st, e))
  }

  /** The record follows a flush on request that is let through and has something to store,
      and nothing else; an early flush leaves it behind. */
  lemma RecordFollowsExactly(f: OpenFile, e: Event)
    requires AllValid(f.st.table) && (e.Write? ==> AllValid(MergeAll(e.sorted)))
    ensures RecordStep(f, e).st == Step(f.st, e)
    ensures e.Flush? && e.accepted && f.st.cached && (f.st.dirty || f.st.truncateAt >= 0) ==>
              RecordStep(f, e).record == f.st.size && !RecordStep(f, e).unsynced
    ensures e.Flush? && !(e.accepted && f.st.cached && (f.st.dirty || f.st.truncateAt >= 0)) ==> RecordStep(f, e) == f
    ensures e.Truncate? ==> RecordStep(f, e).record == f.record && RecordStep(f, e).unsynced == f.unsynced
    ensures e.Write? ==>
              && RecordStep(f, e).record == f.record
              && (RecordStep(f, e).unsynced <==> f.unsynced || (e.accepted && CacheSize(MergeAll(e.sorted)) >= 4 * 1024 * 1024))
  {
  }

  ghost function RecordRun(f: OpenFile, events: seq<Event>): OpenFile
    requires GuardedRun(f.st, events)
    decreases |events|
  {
    if events == [] then f else RecordRun(RecordStep(f, events[0]), events[1..])
  }

  /** What closing leaves: the record's size and the object, or nothing of either. */
  datatype Closed = Kept(record: nat, obj: Option<seq<byte>>) | Dropped

  /** A handle without a cache has nothing to do. Otherwise a close that is let through
      stores what is pending and syncs; one that the quota
      refuses drops a record of size zero with its object; one that the store fails
      leaves both. */
  ghost function Close(f: OpenFile, accepted: bool, stored: bool): Closed
    requires AllValid(f.st.table)
  {
    if !f.st.cached then Kept(f.record, f.st.obj)
    else if !f.st.NeedsFlush() then Kept(f.st.size, f.st.obj)
    else if !accepted then if f.record == 0 then Dropped else Kept(f.record, f.st.obj)
    else if !stored then Kept(f.record, f.st.obj)
    else Kept(f.st.size, Flushed(f.st).obj)
  }

  /** What closing does to this file is what it does to the file's row in the books. */
  lemma ClosesAgree(f: OpenFile, files: map<nat, Rows.FileRow>, objects: set<nat>, x: nat, accepted: bool, stored: bool)
    requires AllValid(f.st.table) && f.st.cached
    requires x in files && !files[x].deleted && files[x].size == f.record && (x in objects <==> f.st.obj.Some?)
    ensures var end, after := Close(f, accepted, stored), Books.AfterClose(files, objects, x, f.st.size, f.st.NeedsFlush(), accepted, stored);
            && after.files == (if end.Dropped? then files - {x} else files[x := files[x].(size := end.record)])
            && after.objects == if end.Kept? && end.obj.Some? then objects + {x} else objects - {x}
  {
  }

  /** A handle that was never written to closes without a trace. */
  lemma UnwrittenCloseChangesNothing(f: OpenFile, accepted: bool, stored: bool)
    requires AllValid(f.st.table) && !f.st.cached
    ensures Close(f, accepted, stored) == Kept(f.record, f.st.obj)
  {
  }

  /** Unless an early flush came in between, the record tells the object's length; after
      one the object is not empty. */
  ghost predicate RecordTells(f: OpenFile) {
    if f.unsynced then |ObjectBytes(f.st.obj)| > 0 else f.record == |ObjectBytes(f.st.obj)|
  }

  lemma {:induction false} CachedIsInFile(t: seq<Segment>, size: nat)
    requires AllValid(t) && Trimmed(t, size) && CacheSize(t) > 0
    ensures size > 0
  {
    if |t[0].data| == 0 {
      forall i | 0 <= i < |t[1..]| ensures t[1..][i].end <= size && t[1..][i].Valid() {
        assert t[1..][i] == t[i + 1];
      }
      CachedIsInFile(t[1..], size);
    } else {
      assert t[0].end <= size;
    }
  }

  lemma StepTells(f: OpenFile, e: Event)
    requires Inv(f.st) && Guarded(f.st, e) && RecordTells(f)
    requires e.Write? ==> AllValid(MergeAll(e.sorted))
    ensures RecordTells(RecordStep(f, e))
  {
    match e
    case Write(off, data, sorted, accepted) =>
      if FlushesEarly(f.st, e) {
        var st1 := Written(f.st, off, data, sorted);
        WriteShows(f.st, off, data, sorted, accepted);
        FlushShows(st1);
        CachedIsInFile(st1.table, st1.size);
      }
    case Truncate(length) =>
    case Flush(accepted) =>
      if FlushesOnRequest(f.st, e) {
        FlushShows(f.st);
      }
  }

  lemma {:induction false} RunTells(f: OpenFile, events: seq<Event>)
    requires Inv(f.st) && GuardedRun(f.st, events) && RecordTells(f)
    ensures RecordRun(f, events).st == Run(f.st, events) && Inv(Run(f.st, events))
    ensures RecordTells(RecordRun(f, events))
    decreases |events|
  {
    if events != [] {
      StepShows(f.st, events[0]);
      StepTells(f, events[0]);
      RunTells(RecordStep(f, events[0]), events[1..]);
    }
  }

  /** The file as it is opened: the record tells the object's length. */
  function Open(obj: Option<seq<byte>>, overwrite: bool): OpenFile {
    OpenFile(Opened(obj, overwrite), |ObjectBytes(obj)|, false)
  }

  /** After every successful close the record has the object's length, and that is the
      length of the byte array the same operations make. */
  lemma ClosedRecordIsLength(obj: Option<seq<byte>>, overwrite: bool, events: seq<Event>)
    requires GuardedRun(Opened(obj, overwrite), events)
    requires FlushSafe(Run(Opened(obj, overwrite), events))
    ensures var f := RecordRun(Open(obj, overwrite), events);
            && AllValid(f.st.table)
            && var end := Close(f, true, true);
            && var plain := PlainRun(if overwrite then [] else ObjectBytes(obj), events);
            && end.Kept? && ObjectBytes(end.obj) == plain && end.record == |plain|
  {
    OpenedShows(obj, overwrite);
    RunTells(Open(obj, overwrite), events);
    FlushedRunIsPlain(obj, overwrite, events);
  }

  /** A close that the quota refuses loses stored bytes exactly when the record still says
      zero and an early flush, not followed by a flush on request, has stored some. If it
      loses nothing, it leaves a record that is not the object's length exactly when such
      a flush has stored another length than the record's. */
  lemma RefusedCloseLosesExactly(obj: Option<seq<byte>>, overwrite: bool, events: seq<Event>)
    requires GuardedRun(Opened(obj, overwrite), events)
    ensures var f := RecordRun(Open(obj, overwrite), events);
            && AllValid(f.st.table)
            && (Close(f, false, true).Dropped? && |ObjectBytes(f.st.obj)| > 0
                <==> f.st.NeedsFlush() && f.record == 0 && f.unsynced)
            && (Close(f, false, true).Kept? && Close(f, false, true).record != |ObjectBytes(Close(f, false, true).obj)|
                <==> f.st.NeedsFlush() && f.record > 0 && f.unsynced && f.record != |ObjectBytes(f.st.obj)|)
  {
    OpenedShows(obj, overwrite);
    RunTells(Open(obj, overwrite), events);
  }

  /** Such runs: one write that fills the cache and is stored at once, one more byte, and a
      close over quota. On a new or empty file the stored bytes are gone; on any other the
      record keeps the old size beside the new object. */
  lemma EarlyFlushIsLost(obj: Option<seq<byte>>, data: seq<byte>, more: byte)
    requires |data| >= MAX_CACHE && |ObjectBytes(obj)| <= |data|
    ensures var first, second := Segment(0, |data|, data), Segment(|data|, |data| + 1, [more]);
            var events := [Write(0, data, [first], true), Write(|data|, [more], [second], true)];
            && GuardedRun(Opened(obj, false), events)
            && var f := RecordRun(Open(obj, false), events);
            && f.st.obj == Some(data) && AllValid(f.st.table)
            && Close(f, false, true) == if |ObjectBytes(obj)| == 0 then Dropped else Kept(|ObjectBytes(obj)|, Some(data))
  {
    var first, second := Segment(0, |data|, data), Segment(|data|, |data| + 1, [more]);
    var w1, w2 := Write(0, data, [first], true), Write(|data|, [more], [second], true);
    FirstWrite(obj, data);
    SecondWrite(data, more);
    hide Step, Guarded;
    var events := [w1, w2];
    assert events[1..] == [w2] && [w2][1..] == [];
    var st1 := FileState(|data|, -1, true, [], false, Some(data));
    assert GuardedRun(st1, [w2]);
    var f1 := RecordStep(Open(obj, false), w1);
    assert f1 == OpenFile(st1, |ObjectBytes(obj)|, true);
    assert RecordRun(f1, [w2]) == RecordStep(f1, w2);
  }

  lemma FirstWrite(obj: Option<seq<byte>>, data: seq<byte>)
    requires |data| >= MAX_CACHE && |ObjectBytes(obj)| <= |data|
    ensures var first := Segment(0, |data|, data);
            var w := Write(0, data, [first], true);
            && AllValid(MergeAll([first])) && Guarded(Opened(obj, false), w) && FlushesEarly(Opened(obj, false), w)
            && Step(Opened(obj, false), w) == FileState(|data|, -1, true, [], false, Some(data))
  {
    hide MergeAll, CacheSize, OrderedPermutation, Contents, Assemble, View;
    var first := Segment(0, |data|, data);
    var st0 := Opened(obj, false);
    OneSegment(first);
    assert st0.table + [first] == [first];
    ShownIsData(st0, data, first);
    NoGaps(obj, data);
    SafeFlush(obj, [first], -1, |data|);
  }

  lemma NoGaps(obj: Option<seq<byte>>, data: seq<byte>)
    ensures GapSafe(obj, [Segment(0, |data|, data)], -1, 0, |data|)
  {
  }

  lemma SecondWrite(data: seq<byte>, more: byte)
    requires |data| >= MAX_CACHE
    ensures var second := Segment(|data|, |data| + 1, [more]);
            var st := FileState(|data|, -1, true, [], false, Some(data));
            var w := Write(|data|, [more], [second], true);
            && AllValid(MergeAll([second])) && Guarded(st, w) && !FlushesEarly(st, w)
            && Step(st, w) == FileState(|data| + 1, -1, true, [second], true, Some(data))
  {
    hide MergeAll, CacheSize, OrderedPermutation, MergeStep, Contents, FlushSafe, Flushed, Upload;
    var second := Segment(|data|, |data| + 1, [more]);
    OneSegment(second);
    var st := FileState(|data|, -1, true, [], false, Some(data));
    assert st.table + [second] == [second];
    assert Written(st, |data|, [more], [second]) == FileState(|data| + 1, -1, true, [second], true, Some(data));
  }

  lemma OneSegment(s: Segment)
    requires s.Valid()
    ensures MergeAll([s]) == [s] && CacheSize([s]) == |s.data| && Table([s]) && OrderedPermutation([s], [s])
  {
    assert [s][..0] == [] && [s][1..] == [];
  }

  lemma ShownIsData(st0: FileState, data: seq<byte>, first: Segment)
    requires st0 == Opened(st0.obj, false) && |ObjectBytes(st0.obj)| <= |data| && first == Segment(0, |data|, data) && MergeAll([first]) == [first]
    ensures AllValid([first]) && Shown(Written(st0, 0, data, [first])) == data
  {
    OneSegment(first);
    forall p | 0 <= p < |data| ensures p in Contents([first]) && Contents([first])[p] == data[p] {
      ContentsAt([first], 0, p);
    }
  }
}

/** Runs of Write, Truncate and Flush on one handle against a plain byte array. */
module FileRuns {
  import opened Wrappers
  import opened Segments
  import opened FlushImage

  /** The cache holds at most this many bytes before a write flushes it. */
  const MAX_CACHE: nat := 0x40_0000

  /** All state of one open file: the handle's logical end of file and truncation point
      (-1 = none), its cache (if any) and the stored object. */
  datatype FileState = FileState(size: nat, truncateAt: int, cached: bool, table: seq<Segment>, dirty: bool, obj: Option<seq<byte>>) {
    /** There is something to upload: a cached write or a pending truncation. */
    predicate NeedsFlush() { cached && (dirty || truncateAt >= 0) }
  }

  /** What a client may ask, with the environment's answers: the order the sort picked
      and whether quota and storage accepted an upload. */
  datatype Event =
    | Write(off: nat, data: seq<byte>, sorted: seq<Segment>, accepted: bool)
    | Truncate(length: nat)
    | Flush(accepted: bool)

  function CacheSize(t: seq<Segment>): nat {
    if t == [] then 0 else |t[0].data| + CacheSize(t[1..])
  }

  /** A file opened for writing; `overwrite` discards the old content. */
  function Opened(obj: Option<seq<byte>>, overwrite: bool): FileState {
    FileState(if overwrite then 0 else |ObjectBytes(obj)|, if overwrite then 0 else -1, true, [], false, obj)
  }

  function Written(st: FileState, off: nat, data: seq<byte>, sorted: seq<Segment>): FileState {
    st.(cached := true, dirty := true, table := MergeAll(sorted),
        size := if off + |data| > st.size then off + |data| else st.size)
  }

  function Flushed(st: FileState): FileState
    requires AllValid(st.table)
  {
    st.(table := [], dirty := false, truncateAt := -1, obj := Some(Upload(st.obj, st.table, st.truncateAt, st.size)))
  }

  function Truncated(st: FileState, length: nat): FileState {
    st.(size := length, cached := true,
        truncateAt := if st.truncateAt < 0 || length < st.truncateAt then length else st.truncateAt)
  }

  function Step(st: FileState, e: Event): FileState
    requires AllValid(st.table)
    requires e.Write? ==> AllValid(MergeAll(e.sorted))
  {
    match e
    case Write(off, data, sorted, accepted) =>
      var st1 := Written(st, off, data, sorted);
      if CacheSize(st1.table) >= MAX_CACHE && accepted then Flushed(st1) else st1
    case Truncate(length) => Truncated(st, length)
    case Flush(accepted) => if st.NeedsFlush() && accepted then Flushed(st) else st
  }

  /** The file as the handle shows it. */
  ghost function Shown(st: FileState): seq<byte>
    requires AllValid(st.table)
  {
    View(st.obj, st.table, st.truncateAt, st.size)
  }

  // ----- the specification: a plain byte array -----

  function Resize(a: seq<byte>, n: nat): (r: seq<byte>)
    ensures |r| == n
  {
    if n <= |a| then a[..n] else a + Zeros(n - |a|)
  }

  function PlainStep(a: seq<byte>, e: Event): seq<byte> {
    match e
    case Write(off, data, _, _) =>
      var b := if off + |data| > |a| then Resize(a, off + |data|) else a;
      b[..off] + data + b[off + |data|..]
    case Truncate(length) => Resize(a, length)
    case Flush(_) => a
  }

  /** A flush with nothing to store does nothing, and one that stores leaves nothing to
      store. */
  lemma FlushStepExactly(st: FileState)
    requires AllValid(st.table)
    ensures (!st.dirty && st.truncateAt < 0) || !st.cached ==> Step(st, Flush(true)) == st
    ensures st.cached && (st.dirty || st.truncateAt >= 0) ==> Step(st, Flush(true)) == Flushed(st)
    ensures !Step(st, Flush(true)).NeedsFlush() && Step(st, Flush(false)) == st
  {
  }

  // ----- how much is cached -----

  lemma {:induction false} CacheSizeLast(t: seq<Segment>)
    requires t != []
    ensures CacheSize(t) == CacheSize(t[..|t| - 1]) + |t[|t| - 1].data|
  {
    if |t| > 1 {
      assert t[1..][..|t| - 2] == t[..|t| - 1][1..];
      CacheSizeLast(t[1..]);
    }
  }

  function Positions(a: int, b: int): (r: set<int>)
    requires a <= b
    ensures |r| == b - a && forall p :: p in r <==> a <= p < b
    decreases b - a
  {
    if a == b then {} else Positions(a, b - 1) + {b - 1}
  }

  lemma SegmentPositions(s: Segment)
    requires s.Valid()
    ensures s.Bytes().Keys == Positions(s.off, s.end)
  {
    forall p ensures p in s.Bytes().Keys <==> s.off <= p < s.end {
      assert s.Covers(p) <==> s.off <= p < s.end;
    }
  }

  /** The size of a merged cache is the number of positions it caches. */
  lemma {:induction false} CacheSizeIsPositions(t: seq<Segment>)
    requires Table(t)
    ensures AllValid(t) && CacheSize(t) == |Contents(t).Keys|
  {
    if t != [] {
      var front, last := t[..|t| - 1], t[|t| - 1];
      CacheSizeIsPositions(front);
      CacheSizeLast(t);
      SegmentPositions(last);
      hide CacheSize;
      forall p | p in Contents(front) ensures p !in last.Bytes() {
        ContentsMember(front, p);
      }
      assert Contents(t).Keys == Contents(front).Keys + last.Bytes().Keys;
    }
  }

  lemma MergedSize(t: seq<Segment>, off: nat, data: seq<byte>, sorted: seq<Segment>)
    requires Table(t) && OrderedPermutation(sorted, t + [Segment(off, off + |data|, data)])
    ensures Table(MergeAll(sorted)) && CacheSize(MergeAll(sorted)) == |Contents(t).Keys + Positions(off, off + |data|)|
  {
    hide Contents, MergeAll, OrderedPermutation, CacheSize, Positions;
    var s := Segment(off, off + |data|, data);
    MergeKeepsTable(t, s, sorted);
    hide Table;
    SizeOfKeys(t, s, MergeAll(sorted));
  }

  lemma SizeOfKeys(t: seq<Segment>, s: Segment, merged: seq<Segment>)
    requires Table(t) && s.Valid() && Table(merged) && Contents(merged).Keys == Contents(t).Keys + s.Bytes().Keys
    ensures CacheSize(merged) == |Contents(t).Keys + Positions(s.off, s.end)|
  {
    hide Contents, CacheSize, Positions, Table;
    SegmentPositions(s);
    CacheSizeIsPositions(merged);
  }

  /** Exactly when a write that is let through is stored at once: when four mebibytes of
      positions or more are cached after it. */
  lemma EarlyFlushExactly(st: FileState, off: nat, data: seq<byte>, sorted: seq<Segment>)
    requires Table(st.table) && OrderedPermutation(sorted, st.table + [Segment(off, off + |data|, data)])
    ensures AllValid(MergeAll(sorted))
    ensures var cached := Contents(st.table).Keys + Positions(off, off + |data|);
            && (|cached| >= 4 * 1024 * 1024 <==> Step(st, Write(off, data, sorted, true)) == Flushed(Written(st, off, data, sorted)))
            && (|cached| < 4 * 1024 * 1024 <==> Step(st, Write(off, data, sorted, true)) == Written(st, off, data, sorted))
  {
    hide Contents, MergeAll, OrderedPermutation, CacheSize, Upload;
    MergedSize(st.table, off, data, sorted);
  }

  // ----- guards and invariant -----

  ghost predicate Trimmed(t: seq<Segment>, size: nat) {
    forall i | 0 <= i < |t| :: t[i].end <= size
  }

  ghost predicate FlushSafe(st: FileState) {
    GapSafe(st.obj, st.table, st.truncateAt, 0, st.size)
  }

  ghost predicate Guarded(st: FileState, e: Event)
    requires Table(st.table)
  {
    match e
    case Write(off, data, sorted, accepted) =>
      && OrderedPermutation(sorted, st.table + [Segment(off, off + |data|, data)])
      && MergeGuard(st.table, off, off + |data|)
      && (CacheSize(MergeAll(sorted)) >= MAX_CACHE && accepted ==> FlushSafe(Written(st, off, data, sorted)))
    case Truncate(length) => Trimmed(st.table, length)
    case Flush(accepted) => st.NeedsFlush() && accepted ==> FlushSafe(st)
  }

  ghost predicate Inv(st: FileState) {
    && Table(st.table) && Trimmed(st.table, st.size) && st.cached
    && -1 <= st.truncateAt <= st.size
    && (st.truncateAt < 0 ==> |ObjectBytes(st.obj)| <= st.size)
    && (!st.NeedsFlush() ==> st.table == [] && |ObjectBytes(st.obj)| == st.size)
  }

  // ----- one step -----

  lemma {:induction false} MergeStaysTrimmed(sorted: seq<Segment>, size: nat)
    requires Trimmed(sorted, size)
    ensures Trimmed(MergeAll(sorted), size)
  {
    if sorted != [] {
      MergeStaysTrimmed(sorted[..|sorted| - 1], size);
    }
  }

  lemma WriteKeepsInv(st: FileState, off: nat, data: seq<byte>, sorted: seq<Segment>)
    requires Inv(st) && OrderedPermutation(sorted, st.table + [Segment(off, off + |data|, data)])
    ensures Inv(Written(st, off, data, sorted))
  {
    var s := Segment(off, off + |data|, data);
    var st1 := Written(st, off, data, sorted);
    MergeKeepsTable(st.table, s, sorted);
    forall i | 0 <= i < |sorted| ensures sorted[i].end <= st1.size {
      assert sorted[i] in multiset(st.table + [s]);
      assert sorted[i] in st.table + [s];
    }
    MergeStaysTrimmed(sorted, st1.size);
  }

  lemma UncachedPast(t: seq<Segment>, size: nat, p: nat)
    requires AllValid(t) && Trimmed(t, size) && size <= p
    ensures p !in Contents(t)
  {
    ContentsMember(t, p);
  }

  /** Past the end of file there is nothing to see, cached or stored. */
  lemma ZeroPastEnd(st: FileState, p: nat)
    requires Inv(st) && st.size <= p
    ensures p !in Contents(st.table) && ByteAt(st.obj, st.table, st.truncateAt, p) == 0
  {
    UncachedPast(st.table, st.size, p);
  }

  lemma TableIsValid(t: seq<Segment>)
    requires Table(t)
    ensures AllValid(t)
  {
  }

  /** One byte where the new segment was laid over the old table. */
  lemma WrittenOver(st: FileState, s: Segment, merged: seq<Segment>, p: nat)
    requires AllValid(st.table) && s.Valid() && AllValid(merged) && Contents(merged) == Contents(st.table) + s.Bytes()
    ensures ByteAt(st.obj, merged, st.truncateAt, p)
            == if s.off <= p < s.end then s.data[p - s.off] else ByteAt(st.obj, st.table, st.truncateAt, p)
  {
    hide Contents;
    assert p in s.Bytes() <==> s.Covers(p);
  }

  /** One byte of the file after a write under the merge guard. */
  lemma WrittenByte(st: FileState, off: nat, data: seq<byte>, sorted: seq<Segment>, p: nat)
    requires Inv(st) && OrderedPermutation(sorted, st.table + [Segment(off, off + |data|, data)])
    requires MergeGuard(st.table, off, off + |data|)
    ensures AllValid(MergeAll(sorted))
    ensures ByteAt(st.obj, MergeAll(sorted), st.truncateAt, p)
            == if off <= p < off + |data| then data[p - off] else if p < st.size then Shown(st)[p] else 0
  {
    hide Table, MergeGuard, OrderedPermutation, Contents, MergeAll, AllValid, ByteAt;
    var s := Segment(off, off + |data|, data);
    LaterWriteWins(st.table, s, sorted);
    TableIsValid(st.table);
    TableIsValid(MergeAll(sorted));
    WrittenOver(st, s, MergeAll(sorted), p);
    if p >= st.size {
      ZeroPastEnd(st, p);
    }
  }

  /** A write under the merge guard does to the file what it does to a byte array. */
  lemma WriteShows(st: FileState, off: nat, data: seq<byte>, sorted: seq<Segment>, accepted: bool)
    requires Inv(st) && OrderedPermutation(sorted, st.table + [Segment(off, off + |data|, data)])
    requires MergeGuard(st.table, off, off + |data|)
    ensures Inv(Written(st, off, data, sorted))
    ensures Shown(Written(st, off, data, sorted)) == PlainStep(Shown(st), Write(off, data, sorted, accepted))
  {
    WriteKeepsInv(st, off, data, sorted);
    var shown := Shown(Written(st, off, data, sorted));
    var plain := PlainStep(Shown(st), Write(off, data, sorted, accepted));
    assert |plain| == |shown|;
    forall p | 0 <= p < |shown| ensures shown[p] == plain[p] {
      PlainWriteAt(Shown(st), off, data, sorted, accepted, p);
      WrittenByte(st, off, data, sorted, p);
    }
  }

  lemma PlainWriteAt(a: seq<byte>, off: nat, data: seq<byte>, sorted: seq<Segment>, accepted: bool, p: nat)
    requires p < |PlainStep(a, Write(off, data, sorted, accepted))|
    ensures PlainStep(a, Write(off, data, sorted, accepted))[p]
            == if off <= p < off + |data| then data[p - off] else if p < |a| then a[p] else 0
  {
    var b := if off + |data| > |a| then Resize(a, off + |data|) else a;
    var plain := b[..off] + data + b[off + |data|..];
    if p < off {
      assert plain[p] == b[p];
    } else if p < off + |data| {
      assert plain[p] == data[p - off];
    } else {
      assert plain[p] == b[off + |data|..][p - (off + |data|)] == b[p];
    }
  }

  lemma TruncateShows(st: FileState, length: nat)
    requires Inv(st) && Trimmed(st.table, length)
    ensures Inv(Truncated(st, length))
    ensures Shown(Truncated(st, length)) == Resize(Shown(st), length)
  {
    forall p | 0 <= p < length ensures Shown(Truncated(st, length))[p] == Resize(Shown(st), length)[p] {
      if p >= st.size {
        ZeroPastEnd(st, p);
      }
    }
  }

  /** A safe flush stores the file as shown and shows it unchanged. */
  lemma FlushShows(st: FileState)
    requires Inv(st) && FlushSafe(st)
    ensures Flushed(st).obj == Some(Shown(st)) && |Shown(st)| == st.size
    ensures Inv(Flushed(st)) && Shown(Flushed(st)) == Shown(st)
  {
    SafeFlush(st.obj, st.table, st.truncateAt, st.size);
  }

  // ----- whole runs -----

  ghost predicate GuardedRun(st: FileState, events: seq<Event>)
    decreases |events|
  {
    events != [] ==>
      && Table(st.table) && Guarded(st, events[0])
      && (events[0].Write? ==> AllValid(MergeAll(events[0].sorted)))
      && GuardedRun(Step(st, events[0]), events[1..])
  }

  ghost function Run(st: FileState, events: seq<Event>): FileState
    requires GuardedRun(st, events)
    decreases |events|
  {
    if events == [] then st else Run(Step(st, events[0]), events[1..])
  }

  function PlainRun(a: seq<byte>, events: seq<Event>): seq<byte>
    decreases |events|
  {
    if events == [] then a else PlainRun(PlainStep(a, events[0]), events[1..])
  }

  lemma StepShows(st: FileState, e: Event)
    requires Inv(st) && Guarded(st, e)
    requires e.Write? ==> AllValid(MergeAll(e.sorted))
    ensures Inv(Step(st, e)) && Shown(Step(st, e)) == PlainStep(Shown(st), e)
    ensures e.Flush? && e.accepted ==> Step(st, e).obj == Some(Shown(Step(st, e))) || (st.obj.None? && Shown(st) == [])
  {
    match e
    case Write(off, data, sorted, accepted) =>
      WriteShows(st, off, data, sorted, accepted);
      if CacheSize(MergeAll(sorted)) >= MAX_CACHE && accepted {
        FlushShows(Written(st, off, data, sorted));
      }
    case Truncate(length) => TruncateShows(st, length);
    case Flush(accepted) =>
      if st.NeedsFlush() && accepted {
        FlushShows(st);
      } else if accepted {
        assert Shown(st) == ObjectBytes(st.obj);
      }
  }

  /** Over every guarded run the handle shows the byte array the same operations make. */
  lemma {:induction false} RunShows(st: FileState, events: seq<Event>)
    requires Inv(st) && GuardedRun(st, events)
    ensures Inv(Run(st, events)) && Shown(Run(st, events)) == PlainRun(Shown(st), events)
    decreases |events|
  {
    if events != [] {
      StepShows(st, events[0]);
      RunShows(Step(st, events[0]), events[1..]);
    }
  }

  lemma OpenedShows(obj: Option<seq<byte>>, overwrite: bool)
    ensures Inv(Opened(obj, overwrite))
    ensures Shown(Opened(obj, overwrite)) == if overwrite then [] else ObjectBytes(obj)
  {
    assert Shown(Opened(obj, false)) == ObjectBytes(obj);
  }

  /** The promise of the write-back cache: open, run any guarded operations, flush; the
      stored object is the byte array those operations make, exactly `size` bytes long. */
  lemma FlushedRunIsPlain(obj: Option<seq<byte>>, overwrite: bool, events: seq<Event>)
    requires GuardedRun(Opened(obj, overwrite), events)
    requires FlushSafe(Run(Opened(obj, overwrite), events))
    ensures var st := Run(Opened(obj, overwrite), events);
            && AllValid(st.table)
            && var plain := PlainRun(if overwrite then [] else ObjectBytes(obj), events);
            && ObjectBytes(Step(st, Flush(true)).obj) == plain
            && |plain| == st.size
  {
    OpenedShows(obj, overwrite);
    RunShows(Opened(obj, overwrite), events);
    StepShows(Run(Opened(obj, overwrite), events), Flush(true));
  }

  /** A write that overfills the cache and is refused there is answered with an error, but
      not undone: the file shows it like any other, and the next flush stores it. */
  lemma RefusedWriteIsKept(st: FileState, off: nat, data: seq<byte>, sorted: seq<Segment>)
    requires Inv(st) && OrderedPermutation(sorted, st.table + [Segment(off, off + |data|, data)])
    requires MergeGuard(st.table, off, off + |data|) && FlushSafe(Written(st, off, data, sorted))
    ensures var refused, plain := Write(off, data, sorted, false), PlainStep(Shown(st), Write(off, data, sorted, true));
            && AllValid(MergeAll(sorted)) && Inv(Step(st, refused)) && Shown(Step(st, refused)) == plain
            && Step(Step(st, refused), Flush(true)).obj == Some(plain)
  {
    hide MergeAll, Contents, OrderedPermutation, MergeGuard, PlainStep, View;
    WriteShows(st, off, data, sorted, true);
    FlushShows(Written(st, off, data, sorted));
  }

  // ----- each guard is the exact one -----

  /** Cutting a file and growing it again gives zeros in every case exactly when no
      nonzero byte is cached at or past the cut. */
  lemma TruncateExactly(st: FileState, n: nat)
    requires Inv(st)
    ensures (forall m: nat | n <= m :: Shown(Truncated(Truncated(st, n), m)) == Resize(Resize(Shown(st), n), m))
            <==> forall p | p in Contents(st.table) && n <= p :: Contents(st.table)[p] == 0
  {
    if forall p | p in Contents(st.table) && n <= p :: Contents(st.table)[p] == 0 {
      forall m: nat | n <= m ensures Shown(Truncated(Truncated(st, n), m)) == Resize(Resize(Shown(st), n), m) {
        CutAndGrow(st, n, m);
      }
    } else {
      var p :| p in Contents(st.table) && n <= p && Contents(st.table)[p] != 0;
      CutAndGrowAt(st, n, p + 1, p);
    }
  }

  lemma CutAndGrowAt(st: FileState, n: nat, m: nat, p: nat)
    requires Inv(st) && n <= m && p < m
    ensures Shown(Truncated(Truncated(st, n), m))[p]
            == if p < n then Resize(Shown(st), n)[p]
               else if p in Contents(st.table) then Contents(st.table)[p] else 0
    ensures Resize(Resize(Shown(st), n), m)[p] == if p < n then Resize(Shown(st), n)[p] else 0
  {
    if p >= st.size {
      ZeroPastEnd(st, p);
    }
  }

  lemma CutAndGrow(st: FileState, n: nat, m: nat)
    requires Inv(st) && n <= m
    requires forall p | p in Contents(st.table) && n <= p :: Contents(st.table)[p] == 0
    ensures Shown(Truncated(Truncated(st, n), m)) == Resize(Resize(Shown(st), n), m)
  {
    forall p | 0 <= p < m ensures Shown(Truncated(Truncated(st, n), m))[p] == Resize(Resize(Shown(st), n), m)[p] {
      CutAndGrowAt(st, n, m, p);
    }
  }

  // ----- concrete inputs on which an unguarded operation goes wrong -----

  /** Four bytes are cached; rewriting one of them in the middle has no effect. */
  lemma ContainedWriteIsLost()
    ensures var t := [Segment(0, 4, [1, 1, 1, 1])];
            var s := Segment(1, 2, [2]);
            Table(t) && OrderedPermutation(t + [s], t + [s]) && MergeAll(t + [s]) == t
  {
    var t := [Segment(0, 4, [1, 1, 1, 1])];
    var s := Segment(1, 2, [2]);
    assert (t + [s])[..1] == t && (t + [s])[1] == s;
    MergeAllOfTable(t);
  }

  /** Two bytes are cached; cut to one and grown again, the second shows through. */
  lemma TruncationShowsStaleBytes()
    ensures var st := FileState(2, -1, true, [Segment(0, 2, [7, 7])], true, Some([]));
            && Inv(st)
            && Shown(Truncated(Truncated(st, 1), 2)) == [7, 7] && Resize(Resize(Shown(st), 1), 2) == [7, 0]
  {
    var t := [Segment(0, 2, [7, 7])];
    forall p | 0 <= p < 2 ensures p in Contents(t) && Contents(t)[p] == 7 {
      ContentsAt(t, 0, p);
    }
  }

  /** A two-byte object cut to one byte, with one byte written behind a hole: the hole
      and the end of the file are both filled, the latter with too many zeros. */
  lemma UnsafeFlushIsTooLong()
    ensures |Upload(Some([9, 9]), [Segment(2, 3, [7])], 1, 4)| == 6
  {
    var t := [Segment(2, 3, [7])];
    assert t[1..] == [];
    assert Assemble(Some([9, 9]), t[1..], 3, 4, 1) == GapBytes(Some([9, 9]), 3, 4, 1);
  }

  /** An empty write can hide two wrong gaps from each other: the flush is not safe and
      still uploads the right bytes, so `FlushExactly` needs its `NoEmpty`. */
  lemma EmptyWriteHidesUnsafeGaps()
    ensures var t := [Segment(2, 2, [])];
            && Table(t) && !GapSafe(Some([]), t, 1, 0, 3)
            && Upload(Some([]), t, 1, 3) == [0, 0, 0] == View(Some([]), t, 1, 3)
  {
    var t := [Segment(2, 2, [])];
    assert GapStart(t, 0, 0) == 0 && GapEnd(t, 3, 0) == 2 && !GapOk(Some([]), 1, 0, 2);
    assert t[1..] == [];
    assert Assemble(Some([]), t[1..], 2, 3, 1) == GapBytes(Some([]), 2, 3, 1) == [0, 0];
    assert GapBytes(Some([]), 0, 2, 1) == [0];
    forall p | 0 <= p < 3 ensures ByteAt(Some([]), t, 1, p) == 0 {
      ContentsMember(t, p);
    }
  }
}

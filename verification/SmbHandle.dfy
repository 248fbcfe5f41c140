/** The SMB gateway's open file: write-back cache, handle and object store, with the
    operations that change them in place. */
module SmbHandle {
  import opened Wrappers
  import opened Segments
  import opened FlushImage
  import opened ReadImage
  import opened FileRuns

  datatype Outcome = Done | IsDirectory | Forbidden | QuotaExceeded | StorageFailed

  /** What the environment will answer: the two-level quota check, range reads, uploads. */
  datatype Environment = Environment(quotaOk: bool, readOk: bool, putOk: bool)

  /** One flush request, taken in one piece from the handle. */
  datatype WriteSpec = WriteSpec(size: nat, truncateAt: int, segments: seq<Segment>, dirty: bool)

  /** The object behind one key. */
  class ObjectStore {
    var obj: Option<seq<byte>>

    constructor (obj: Option<seq<byte>>)
      ensures this.obj == obj
    {
      this.obj := obj;
    }

    /** Bytes [start, end) of the object, short at its end; `None` is a failed read. */
    method GetRange(start: nat, end: nat, ok: bool) returns (bytes: Option<seq<byte>>)
      requires start <= end && obj.Some?
      ensures bytes == if ok then Some(ObjectRange(obj, start, end)) else None
    {
      bytes := if ok then Some(ObjectRange(obj, start, end)) else None;
    }
  }

  /** Any ordering of the segments by offset; nothing is promised about ties. */
  method SortByOffset(t: seq<Segment>) returns (sorted: seq<Segment>)
    ensures OrderedPermutation(sorted, t)
  {
    sorted := [];
    NothingOrdered(t);
    hide OrderedPermutation;
    var i := 0;
    while i < |t|
      invariant 0 <= i <= |t|
      invariant OrderedPermutation(sorted, t[..i])
    {
      var k := Place(sorted, t[i]);
      OrderedMore(sorted, t, i, k);
      sorted := sorted[..k] + [t[i]] + sorted[k..];
      i := i + 1;
    }
    assert t[..|t|] == t;
  }

  /** Behind all that start no later. */
  method Place(sorted: seq<Segment>, s: Segment) returns (k: nat)
    ensures k <= |sorted| && (k > 0 ==> sorted[k - 1].off <= s.off)
    ensures forall j | k <= j < |sorted| :: s.off <= sorted[j].off
  {
    k := |sorted|;
    while k > 0 && sorted[k - 1].off > s.off
      invariant 0 <= k <= |sorted|
      invariant forall j | k <= j < |sorted| :: s.off <= sorted[j].off
    {
      k := k - 1;
    }
  }

  lemma OrderedMore(sorted: seq<Segment>, t: seq<Segment>, i: nat, k: nat)
    requires i < |t| && OrderedPermutation(sorted, t[..i])
    requires k <= |sorted| && (k > 0 ==> sorted[k - 1].off <= t[i].off)
    requires forall j | k <= j < |sorted| :: t[i].off <= sorted[j].off
    ensures OrderedPermutation(sorted[..k] + [t[i]] + sorted[k..], t[..i + 1])
  {
    SortedInsert(sorted, t[i], k);
    hide SortedByOff;
    InsertedMembers(sorted, t[i], k);
    assert t[..i + 1] == t[..i] + [t[i]];
  }

  lemma NothingOrdered(t: seq<Segment>)
    ensures OrderedPermutation([], t[..0])
  {
    assert t[..0] == [];
  }

  class WriteBackCache {
    var ranges: seq<Segment>
    var dirty: bool

    constructor ()
      ensures ranges == [] && !dirty
    {
      ranges := [];
      dirty := false;
    }

    /** Sorts the segments and merges overlapping and adjacent ones. */
    method MergeLocked()
      modifies this`ranges
      ensures exists sorted :: OrderedPermutation(sorted, old(ranges)) && ranges == MergeAll(sorted)
    {
      if |ranges| < 2 {
        assert OrderedPermutation(ranges, old(ranges));
        assert ranges != [] ==> ranges[..0] == [] && MergeAll(ranges) == [ranges[0]];
        return;
      }
      var sorted := SortByOffset(ranges);
      var merged: seq<Segment> := [];
      var i := 0;
      while i < |sorted|
        invariant 0 <= i <= |sorted|
        invariant merged == MergeAll(sorted[..i])
      {
        assert sorted[..i + 1][..i] == sorted[..i];
        merged := MergeOne(merged, sorted[i]);
        i := i + 1;
      }
      assert sorted[..|sorted|] == sorted;
      ranges := merged;
    }

    /** One round of the merge loop. */
    static method MergeOne(acc: seq<Segment>, s: Segment) returns (merged: seq<Segment>)
      ensures merged == MergeStep(acc, s)
    {
      if |acc| == 0 {
        return [s];
      }
      var last := acc[|acc| - 1];
      if s.off > last.end {
        return acc + [s];
      }
      if s.end <= last.end {
        return acc;
      }
      var keepLen := s.off - last.off;
      if keepLen > |last.data| {
        keepLen := |last.data|;
      }
      var keep := if 0 <= keepLen then last.data[..keepLen] else [];
      return acc[..|acc| - 1] + [Segment(last.off, s.end, keep + s.data)];
    }

    /** Adds one write and returns the number of cached bytes. */
    method ApplyWrite(offset: nat, data: seq<byte>) returns (total: nat, ghost sorted: seq<Segment>)
      modifies this
      ensures OrderedPermutation(sorted, old(ranges) + [Segment(offset, offset + |data|, data)])
      ensures ranges == MergeAll(sorted)
      ensures dirty && total == CacheSize(ranges)
      ensures Table(old(ranges)) ==> total == |Contents(old(ranges)).Keys + Positions(offset, offset + |data|)|
    {
      ranges := ranges + [Segment(offset, offset + |data|, data)];
      ghost var t := ranges;
      MergeLocked();
      sorted :| OrderedPermutation(sorted, t) && ranges == MergeAll(sorted);
      dirty := true;
      total := 0;
      var i := 0;
      while i < |ranges|
        invariant 0 <= i <= |ranges|
        invariant total + CacheSize(ranges[i..]) == CacheSize(ranges)
      {
        total := total + |ranges[i].data|;
        i := i + 1;
      }
      if Table(old(ranges)) {
        MergedSize(old(ranges), offset, data, sorted);
      }
    }

    /** The cached bytes of a range, or `None` when some of them are not cached. */
    method ReadRange(offset: nat, length: nat) returns (r: Option<seq<byte>>)
      requires Table(ranges)
      ensures r.Some? <==> forall p | offset <= p < offset + length :: p in Contents(ranges)
      ensures r.Some? ==> |r.value| == length && forall i | 0 <= i < length :: r.value[i] == Contents(ranges)[offset + i]
    {
      hide Contents, Collected;
      CollectNothing(ranges, offset);
      var out: seq<byte> := [];
      var cursor, end := offset, offset + length;
      var i := 0;
      while i < |ranges|
        invariant 0 <= i <= |ranges| && offset <= cursor <= end
        invariant cursor == end || forall j | 0 <= j < i :: ranges[j].end <= cursor || ranges[j].off == ranges[j].end
        invariant Collected(ranges, out, offset, cursor)
      {
        var s := ranges[i];
        if s.end <= cursor {
          i := i + 1;
          continue;
        }
        if s.off >= end {
          break;
        }
        var from, to := Max(cursor, s.off), Min(s.end, end);
        if to > from {
          if from > cursor {
            BetweenSegments(ranges, i, cursor);
          }
          CollectMore(ranges, i, out, offset, cursor, from, to);
          out := out + s.data[from - s.off..to - s.off];
          cursor := to;
        }
        i := i + 1;
      }
      if cursor < end {
        BetweenSegments(ranges, i, cursor);
      }
      CollectEnds(ranges, out, offset, cursor, end);
      r := if |out| == length then Some(out) else None;
    }

    /** Appends the bytes for the gap [from, to): old object bytes up to `limit`, then zeros. */
    method CopyFromObject(st: ObjectStore, buf: seq<byte>, from: nat, to: nat, limit: nat, readOk: bool)
      returns (res: seq<byte>, ok: bool)
      requires from < to
      ensures ok <==> readOk || st.obj.None? || limit <= from
      ensures res == if ok then buf + GapBytes(st.obj, from, to, limit) else buf
    {
      res, ok := buf, true;
      var rdTo := Min(to, limit);
      if rdTo > from {
        if st.obj.None? {
          res := res + Zeros(to - from);
          return;
        }
        var bytes := st.GetRange(from, rdTo, readOk);
        if bytes.None? {
          ok := false;
          return;
        }
        res := res + bytes.value;
        if |bytes.value| < rdTo - from {
          res := res + Zeros(rdTo - from - |bytes.value|);
          return;
        }
      }
      if to > rdTo {
        res := res + Zeros(to - rdTo);
      }
    }

    /** Appends the gap [from, to), if there is one. */
    method FillGap(st: ObjectStore, buf: seq<byte>, from: nat, to: nat, limit: nat, readOk: bool) returns (res: seq<byte>, ok: bool)
      ensures ok <==> readOk || st.obj.None? || !(from < to && from < limit)
      ensures ok ==> res == buf + GapBefore(st.obj, from, to, limit)
    {
      hide GapBytes;
      res, ok := buf, true;
      if from < to {
        res, ok := CopyFromObject(st, buf, from, to, limit, readOk);
      } else {
        assert buf + [] == buf;
      }
    }

    /** Appends what one segment contributes: the gap before it and its own bytes. */
    method AppendSegment(st: ObjectStore, buf: seq<byte>, s: Segment, start: nat, total: nat, objLimit: nat, readOk: bool)
      returns (res: seq<byte>, cursor: nat, ok: bool)
      requires s.Valid() && start <= s.off < total
      ensures ok <==> readOk || st.obj.None? || !(start < s.off && start < objLimit)
      ensures ok ==> cursor == Min(s.end, total)
      ensures ok ==> res == buf + GapBefore(st.obj, start, s.off, objLimit) + Clip(s, start, total)
    {
      hide GapBefore, Clip;
      cursor := start;
      res, ok := FillGap(st, buf, start, Min(s.off, total), objLimit, readOk);
      if !ok {
        return;
      }
      ClipWhole(s, start, total);
      cursor := Min(s.off, total);
      var to := Min(s.end, total);
      if to > cursor {
        res := res + s.data[cursor - s.off..to - s.off];
        cursor := to;
      } else {
        assert res + [] == res;
      }
    }

    /** One round of the assembly loop: what is built grows by segment `i`, what is
        still to come shrinks by it. */
    method AssembleOne(st: ObjectStore, buf: seq<byte>, t: seq<Segment>, i: nat, start: nat, total: nat, objLimit: nat, readOk: bool)
      returns (res: seq<byte>, cursor: nat, ok: bool)
      requires Table(t) && i < |t| && start <= t[i].off < total
      ensures AllValid(t[i..]) && AllValid(t[i + 1..])
      ensures ok <==> readOk || st.obj.None? || !(start < t[i].off && start < objLimit)
      ensures ok ==> cursor == Min(t[i].end, total) && (i + 1 < |t| ==> cursor <= t[i + 1].off)
      ensures ok ==> res + Assemble(st.obj, t[i + 1..], cursor, total, objLimit)
                     == buf + Assemble(st.obj, t[i..], start, total, objLimit)
    {
      hide GapBefore, Clip;
      TableSuffix(t, i);
      res, cursor, ok := AppendSegment(st, buf, t[i], start, total, objLimit, readOk);
      if ok {
        assert cursor == Max(start, Min(t[i].end, total));
        RegroupFour(buf, GapBefore(st.obj, start, t[i].off, objLimit), Clip(t[i], start, total),
                    Assemble(st.obj, t[i + 1..], cursor, total, objLimit));
      }
    }

    /** Puts the new object together: segments in order, gaps from the old object. It can
        do without the old object exactly if every position below the limit is cached. */
    method AssembleObject(st: ObjectStore, spec: WriteSpec, readOk: bool) returns (buf: seq<byte>, ok: bool)
      requires Table(spec.segments)
      ensures ok <==> readOk || st.obj.None? || CachedBelow(spec.segments, ObjectLimit(spec.size, spec.truncateAt))
      ensures ok ==> buf == Upload(st.obj, spec.segments, spec.truncateAt, spec.size)
    {
      hide Assemble, CachedBelow, GapBefore, NeedsOld;
      var t, total := spec.segments, spec.size;
      var objLimit := ObjectLimit(total, spec.truncateAt);
      ghost var image := Assemble(st.obj, t, 0, total, objLimit);
      ghost var free := readOk || st.obj.None?;
      OldNeededExactly(t, total, objLimit);
      buf, ok := [], true;
      var cursor: nat, i: nat := 0, 0;
      assert t[0..] == t && [] + image == image;
      while i < |t|
        invariant i <= |t| && cursor <= total
        invariant i < |t| ==> cursor <= t[i].off
        invariant free || NeedsOld(t[i..], cursor, total, objLimit) == NeedsOld(t, 0, total, objLimit)
        invariant buf + Assemble(st.obj, t[i..], cursor, total, objLimit) == image
      {
        if t[i].off >= total {
          break;
        }
        NeedsOldStep(t, i, cursor, total, objLimit);
        buf, cursor, ok := AssembleOne(st, buf, t, i, cursor, total, objLimit, readOk);
        if !ok {
          return;
        }
        i := i + 1;
      }
      AssembleEnds(st.obj, t[i..], cursor, total, objLimit);
      buf, ok := FillGap(st, buf, cursor, total, objLimit, readOk);
    }

    /** Assembles the whole object from `spec` and uploads it. */
    method FlushToStorage(st: ObjectStore, spec: WriteSpec, env: Environment) returns (ok: bool)
      requires Table(spec.segments)
      modifies this, st
      ensures ok <==> !spec.dirty || CanStore(old(st.obj), spec.segments, spec.truncateAt, spec.size, env)
      ensures !ok || !spec.dirty ==> ranges == old(ranges) && dirty == old(dirty) && st.obj == old(st.obj)
      ensures ok && spec.dirty ==> ranges == [] && !dirty
      ensures ok && spec.dirty ==> st.obj == Some(Upload(old(st.obj), spec.segments, spec.truncateAt, spec.size))
    {
      if !spec.dirty {
        return true;
      }
      var buf: seq<byte>;
      buf, ok := AssembleObject(st, spec, env.readOk);
      if !ok {
        return;
      }
      ok := env.putOk;
      if ok {
        st.obj := Some(buf);
        ranges := [];
        dirty := false;
      }
    }
  }

  /** Every position below `n` is cached. */
  ghost predicate CachedBelow(t: seq<Segment>, n: nat)
    requires AllValid(t)
  {
    forall p | 0 <= p < n :: p in Contents(t)
  }

  /** A flush gets its bytes and may store them: the upload is let through, and the old
      object is read, or there is none, or nothing of it is needed. */
  ghost predicate CanStore(obj: Option<seq<byte>>, t: seq<Segment>, truncateAt: int, size: nat, env: Environment)
    requires AllValid(t)
  {
    env.putOk && (env.readOk || obj.None? || CachedBelow(t, ObjectLimit(size, truncateAt)))
  }

  /** How a flush of a file with something to store ends. */
  ghost function FlushOutcome(st: FileState, env: Environment): Outcome
    requires AllValid(st.table)
  {
    if !env.quotaOk then QuotaExceeded
    else if CanStore(st.obj, st.table, st.truncateAt, st.size, env) then Done
    else StorageFailed
  }

  /** From `cursor` on, some stretch between the segments starts below the limit. */
  predicate NeedsOld(t: seq<Segment>, cursor: nat, size: nat, limit: nat) {
    if t == [] || t[0].off >= size then cursor < size && cursor < limit
    else (cursor < t[0].off && cursor < limit) || NeedsOld(t[1..], Min(t[0].end, size), size, limit)
  }

  ghost predicate Uncovered(t: seq<Segment>, p: int) {
    forall i | 0 <= i < |t| :: !t[i].Covers(p)
  }

  lemma {:induction false} OldNeeded(t: seq<Segment>, cursor: nat, size: nat, limit: nat)
    requires Table(t) && limit <= size && (t != [] ==> cursor <= t[0].off)
    ensures NeedsOld(t, cursor, size, limit) <==> exists p :: cursor <= p < limit && Uncovered(t, p)
  {
    if t == [] || t[0].off >= size {
      assert cursor < limit ==> Uncovered(t, cursor);
    } else {
      TableSuffix(t, 0);
      var next := Min(t[0].end, size);
      OldNeeded(t[1..], next, size, limit);
      forall p: int {
        UncoveredRest(t, p);
      }
      assert cursor < t[0].off ==> Uncovered(t, cursor);
      if p :| next <= p < limit && Uncovered(t[1..], p) {
        assert Uncovered(t, p);
      }
      if p :| cursor <= p < limit && Uncovered(t, p) {
        assert p < t[0].off || Uncovered(t[1..], p);
      }
    }
  }

  lemma UncoveredRest(t: seq<Segment>, p: int)
    requires t != []
    ensures Uncovered(t, p) <==> !t[0].Covers(p) && Uncovered(t[1..], p)
  {
    if Uncovered(t, p) {
      forall i | 0 <= i < |t[1..]| ensures !t[1..][i].Covers(p) {
        assert t[1..][i] == t[i + 1];
      }
    }
    if !t[0].Covers(p) && Uncovered(t[1..], p) {
      forall i | 0 <= i < |t| ensures !t[i].Covers(p) {
        assert i > 0 ==> t[i] == t[1..][i - 1];
      }
    }
  }

  lemma OldNeededExactly(t: seq<Segment>, size: nat, limit: nat)
    requires Table(t) && limit <= size
    ensures !NeedsOld(t, 0, size, limit) <==> CachedBelow(t, limit)
  {
    OldNeeded(t, 0, size, limit);
    forall p: int ensures Uncovered(t, p) <==> p !in Contents(t) {
      ContentsMember(t, p);
    }
  }

  lemma TableSuffix(t: seq<Segment>, i: nat)
    requires Table(t) && i < |t|
    ensures Table(t[i..]) && t[i..][0] == t[i] && t[i..][1..] == t[i + 1..]
  {
  }

  lemma NeedsOldStep(t: seq<Segment>, i: nat, cursor: nat, size: nat, limit: nat)
    requires Table(t) && i < |t| && t[i].off < size
    ensures NeedsOld(t[i..], cursor, size, limit)
            <==> (cursor < t[i].off && cursor < limit) || NeedsOld(t[i + 1..], Min(t[i].end, size), size, limit)
  {
    TableSuffix(t, i);
  }

  lemma AssembleEnds(obj: Option<seq<byte>>, t: seq<Segment>, cursor: nat, size: nat, limit: nat)
    requires cursor <= size && AllValid(t) && (t == [] || t[0].off >= size)
    ensures Assemble(obj, t, cursor, size, limit) == GapBefore(obj, cursor, size, limit)
    ensures NeedsOld(t, cursor, size, limit) <==> cursor < size && cursor < limit
  {
  }

  lemma RegroupFour<T>(a: seq<T>, b: seq<T>, c: seq<T>, d: seq<T>)
    ensures a + b + c + d == a + (b + c + d)
  {
  }

  lemma Regroup<T>(a: seq<T>, b: seq<T>, c: seq<T>)
    ensures (a + b) + c == a + (b + c)
  {
  }

  /** `out` holds the cached bytes of [offset, cursor), or is short because one of them is
      not cached. */
  ghost predicate Collected(t: seq<Segment>, out: seq<byte>, offset: nat, cursor: nat)
    requires AllValid(t)
  {
    && offset <= cursor && |out| <= cursor - offset
    && (|out| == cursor - offset ==> HoldsRange(t, out, offset, cursor))
    && (|out| < cursor - offset ==> exists p :: offset <= p < cursor && p !in Contents(t))
  }

  ghost predicate HoldsRange(t: seq<Segment>, out: seq<byte>, offset: nat, cursor: nat)
    requires AllValid(t) && offset <= cursor && |out| == cursor - offset
  {
    forall p | offset <= p < cursor :: p in Contents(t) && out[p - offset] == Contents(t)[p]
  }

  lemma CollectNothing(t: seq<Segment>, offset: nat)
    requires AllValid(t)
    ensures Collected(t, [], offset, offset)
  {
  }

  /** One more overlapping segment, directly behind the cursor or behind an uncached
      position. */
  lemma CollectMore(t: seq<Segment>, i: nat, out: seq<byte>, offset: nat, cursor: nat, from: nat, to: nat)
    requires Table(t) && i < |t| && Collected(t, out, offset, cursor)
    requires t[i].off <= from < to <= t[i].end && cursor <= from
    requires from > cursor ==> cursor !in Contents(t)
    ensures Collected(t, out + t[i].data[from - t[i].off..to - t[i].off], offset, to)
  {
    hide Contents;
    var part := t[i].data[from - t[i].off..to - t[i].off];
    forall p | from <= p < to ensures p in Contents(t) && Contents(t)[p] == part[p - from] {
      ContentsAt(t, i, p);
    }
    if |out| == cursor - offset && from == cursor {
      forall p | offset <= p < to ensures p in Contents(t) && (out + part)[p - offset] == Contents(t)[p] {
        if p < cursor {
          assert out[p - offset] == Contents(t)[p];
        }
      }
    }
  }

  lemma CollectEnds(t: seq<Segment>, out: seq<byte>, offset: nat, cursor: nat, end: nat)
    requires AllValid(t) && Collected(t, out, offset, cursor) && cursor <= end
    requires cursor < end ==> cursor !in Contents(t)
    ensures |out| == end - offset <==> forall p | offset <= p < end :: p in Contents(t)
    ensures |out| == end - offset ==> forall i | 0 <= i < |out| :: out[i] == Contents(t)[offset + i]
  {
    hide Contents;
    if |out| == end - offset {
      forall i | 0 <= i < |out| ensures out[i] == Contents(t)[offset + i] {
        assert offset + i in Contents(t) && out[(offset + i) - offset] == Contents(t)[offset + i];
      }
    }
  }

  /** A position behind the first `i` segments and before the others is not cached. */
  lemma BetweenSegments(t: seq<Segment>, i: nat, p: int)
    requires Table(t) && i <= |t|
    requires forall j | 0 <= j < i :: t[j].end <= p || t[j].off == t[j].end
    requires i < |t| ==> p < t[i].off
    ensures p !in Contents(t)
  {
    hide Contents;
    ContentsMember(t, p);
    assert forall j | i < j < |t| :: t[i].end < t[j].off;
  }

  class RemoteHandle {
    const store: ObjectStore
    const isDir: bool
    const readonly: bool
    var size: nat
    var truncateAt: int
    var writeCache: WriteBackCache?

    /** Opens a file whose record says `recordSize`; `overwrite` discards its content. */
    constructor (store: ObjectStore, recordSize: nat, overwrite: bool, write: bool, isDir: bool, readonly: bool)
      ensures this.store == store && this.isDir == isDir && this.readonly == readonly
      ensures (writeCache != null ==> fresh(writeCache)) && (writeCache != null <==> write)
      ensures write && recordSize == |ObjectBytes(store.obj)| ==> State() == Opened(store.obj, overwrite)
    {
      this.store, this.isDir, this.readonly := store, isDir, readonly;
      size := if overwrite then 0 else recordSize;
      truncateAt := if overwrite then 0 else -1;
      writeCache := null;
      new;
      if write {
        writeCache := new WriteBackCache();
      }
    }

    /** The handle, its cache and the object as one value. */
    ghost function State(): FileState
      reads this, writeCache, store
    {
      FileState(size, truncateAt, writeCache != null,
                if writeCache == null then [] else writeCache.ranges,
                writeCache != null && writeCache.dirty, store.obj)
    }

    method FlushSpec() returns (spec: WriteSpec)
      ensures spec.size == size && spec.truncateAt == truncateAt && spec.segments == State().table
      ensures spec.dirty <==> State().dirty || truncateAt >= 0
    {
      spec := WriteSpec(size, truncateAt, [], false);
      if writeCache != null {
        spec := spec.(segments := writeCache.ranges, dirty := writeCache.dirty);
      }
      if truncateAt >= 0 {
        spec := spec.(dirty := true);
      }
    }

    /** The part of a write that cannot fail: cache the bytes, extend the file. */
    method ApplyToCache(offset: nat, data: seq<byte>) returns (total: nat, ghost sorted: seq<Segment>)
      requires Table(State().table)
      modifies this, writeCache
      ensures writeCache == old(writeCache) || fresh(writeCache)
      ensures OrderedPermutation(sorted, old(State().table) + [Segment(offset, offset + |data|, data)])
      ensures State() == Written(old(State()), offset, data, sorted)
      ensures Table(State().table) && total == |Contents(old(State().table)).Keys + Positions(offset, offset + |data|)|
      ensures total == CacheSize(State().table)
    {
      hide MergeAll, OrderedPermutation, Contents, CacheSize, AllValid;
      if writeCache == null {
        writeCache := new WriteBackCache();
      }
      ghost var t := writeCache.ranges;
      total, sorted := writeCache.ApplyWrite(offset, data);
      MergeKeepsTable(t, Segment(offset, offset + |data|, data), sorted);
      if offset + |data| > size {
        size := offset + |data|;
      }
    }

    method Write(offset: nat, data: seq<byte>, env: Environment) returns (written: nat, outcome: Outcome)
      requires Table(State().table)
      modifies this, writeCache, store
      ensures writeCache == old(writeCache) || fresh(writeCache)
      ensures isDir ==> outcome == IsDirectory && State() == old(State())
      ensures !isDir && readonly ==> outcome == Forbidden && State() == old(State())
      ensures !isDir && !readonly ==>
                exists sorted :: OrderedPermutation(sorted, old(State().table) + [Segment(offset, offset + |data|, data)])
                                 && AllValid(MergeAll(sorted))
                                 && State() == Step(old(State()), Event.Write(offset, data, sorted, outcome == Done))
                                 && outcome == if |Contents(old(State().table)).Keys + Positions(offset, offset + |data|)| < 4 * 1024 * 1024 then Done
                                               else FlushOutcome(Written(old(State()), offset, data, sorted), env)
      ensures written == if outcome == Done then |data| else 0
    {
      if isDir {
        return 0, IsDirectory;
      }
      if readonly {
        return 0, Forbidden;
      }
      var total, sorted := ApplyToCache(offset, data);
      if total >= MAX_CACHE {
        outcome := FlushNow(env);
        return if outcome == Done then |data| else 0, outcome;
      }
      return |data|, Done;
    }

    method Flush(env: Environment) returns (outcome: Outcome)
      requires Table(State().table)
      modifies this, writeCache, store
      ensures writeCache == old(writeCache)
      ensures outcome == if isDir || !old(State()).NeedsFlush() then Done else FlushOutcome(old(State()), env)
      ensures State() == if isDir then old(State()) else Step(old(State()), Event.Flush(outcome == Done))
    {
      if isDir || writeCache == null {
        return Done;
      }
      var spec := FlushSpec();
      if !spec.dirty {
        return Done;
      }
      outcome := FlushNow(env);
    }

    /** Quota check, upload, reset of the truncation point. */
    method FlushNow(env: Environment) returns (outcome: Outcome)
      requires Table(State().table) && State().NeedsFlush()
      modifies this`truncateAt, writeCache, store
      ensures State() == if outcome == Done then Flushed(old(State())) else old(State())
      ensures outcome == FlushOutcome(old(State()), env)
    {
      if !env.quotaOk {
        return QuotaExceeded;
      }
      var spec := FlushSpec();
      var ok := writeCache.FlushToStorage(store, spec, env);
      if !ok {
        return StorageFailed;
      }
      truncateAt := -1;
      return Done;
    }

    method Truncate(length: nat) returns (outcome: Outcome)
      modifies this
      ensures writeCache == old(writeCache) || fresh(writeCache)
      ensures isDir ==> outcome == IsDirectory && State() == old(State())
      ensures !isDir ==> outcome == Done && State() == Truncated(old(State()), length)
    {
      if isDir {
        return IsDirectory;
      }
      size := length;
      if truncateAt < 0 || length < truncateAt {
        truncateAt := length;
      }
      if writeCache == null {
        writeCache := new WriteBackCache();
      }
      return Done;
    }

    /** Reads at most `length` bytes: cached bytes first, the object between them. */
    method Read(offset: nat, length: nat, env: Environment) returns (r: Option<seq<byte>>, outcome: Outcome)
      requires Table(State().table)
      ensures outcome == Done <==> r.Some?
      ensures isDir ==> outcome == IsDirectory
      ensures !isDir && env.readOk ==> outcome == Done
      ensures r.Some? ==> |r.value| <= length
      ensures r.Some? ==> r.value == if size <= offset then []
                                     else ReadThrough(store.obj, State().table, offset, Min(offset + length, size))
    {
      if isDir {
        return None, IsDirectory;
      }
      if size <= offset {
        return Some([]), Done;
      }
      var end := Min(offset + length, size);
      var t := if writeCache == null then [] else writeCache.ranges;
      r := ReadSegments(t, offset, end, env.readOk);
      if r.None? {
        return None, StorageFailed;
      }
      ReadIsRaw(store.obj, t, offset, end);
      outcome := Done;
    }

    method ReadSegments(t: seq<Segment>, offset: nat, end: nat, ok: bool) returns (r: Option<seq<byte>>)
      requires Table(t) && offset <= end
      ensures ok ==> r.Some?
      ensures r.Some? ==> r.value == ReadThrough(store.obj, t, offset, end)
    {
      ghost var image := ReadThrough(store.obj, t, offset, end);
      var out: seq<byte> := [];
      var cursor: nat, i: nat := offset, 0;
      assert t[0..] == t;
      while i < |t|
        invariant i <= |t| && cursor <= end
        invariant out + ReadThrough(store.obj, t[i..], cursor, end) == image
      {
        var seg := t[i];
        if seg.end <= cursor {
          TableSuffix(t, i);
          i := i + 1;
          continue;
        }
        if seg.off >= end {
          break;
        }
        var part := ReadOne(out, t, i, cursor, end, ok);
        if part.None? {
          return None;
        }
        out := part.value;
        cursor := Min(seg.end, end);
        i := i + 1;
      }
      if cursor < end {
        var data := ReadFromObject(cursor, end, ok);
        if data.None? {
          return None;
        }
        out := out + data.value;
      }
      return Some(out);
    }

    /** One round of the read loop. */
    method ReadOne(out: seq<byte>, t: seq<Segment>, i: nat, cursor: nat, end: nat, ok: bool) returns (r: Option<seq<byte>>)
      requires Table(t) && i < |t| && cursor < t[i].end && t[i].off < end && cursor <= end
      ensures AllValid(t[i..]) && AllValid(t[i + 1..]) && cursor <= Min(t[i].end, end)
      ensures ok ==> r.Some?
      ensures r.Some? ==> r.value + ReadThrough(store.obj, t[i + 1..], Min(t[i].end, end), end)
                          == out + ReadThrough(store.obj, t[i..], cursor, end)
    {
      hide ReadThrough, ObjectRange, Contents;
      TableSuffix(t, i);
      ReadStep(store.obj, t[i..], cursor, Max(cursor, t[i].off), Min(t[i].end, end), end);
      var part := ReadSegment(t[i], cursor, end, ok);
      if part.None? {
        return None;
      }
      r := Some(out + part.value);
      ghost var from, to := Max(cursor, t[i].off), Min(t[i].end, end);
      ghost var gap, mid := ObjectRange(store.obj, cursor, from), t[i].data[from - t[i].off..to - t[i].off];
      ghost var rest := ReadThrough(store.obj, t[i + 1..], to, end);
      Regroup(gap, mid, rest);
      Regroup(out, gap + mid, rest);
    }

    /** The gap before one overlapping segment and the overlap itself. */
    method ReadSegment(seg: Segment, start: nat, end: nat, ok: bool) returns (r: Option<seq<byte>>)
      requires seg.Valid() && start < seg.end && seg.off < end && start <= end
      ensures ok ==> r.Some?
      ensures r.Some? ==> var from, to := Max(start, seg.off), Min(seg.end, end);
                          r.value == ObjectRange(store.obj, start, from) + seg.data[from - seg.off..to - seg.off]
    {
      hide ObjectRange;
      EmptyRange(store.obj, start);
      var out: seq<byte> := [];
      var cursor := start;
      if seg.off > cursor {
        var data := ReadFromObject(cursor, Min(seg.off, end), ok);
        if data.None? {
          return None;
        }
        out := out + data.value;
        cursor := Min(seg.off, end);
      }
      assert out == ObjectRange(store.obj, start, cursor);
      var from, to := Max(cursor, seg.off), Min(seg.end, end);
      if to > from {
        out := out + seg.data[from - seg.off..to - seg.off];
      }
      return Some(out);
    }

    /** Object bytes [from, to); a missing object reads as empty. */
    method ReadFromObject(from: nat, to: nat, ok: bool) returns (data: Option<seq<byte>>)
      requires from < to
      ensures ok ==> data.Some?
      ensures data.Some? ==> data.value == ObjectRange(store.obj, from, to)
    {
      if store.obj.None? {
        return Some([]);
      }
      data := store.GetRange(from, to, ok);
    }
  }
}

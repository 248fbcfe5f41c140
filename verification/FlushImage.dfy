/** What a flush uploads, what it should upload, and exactly when the two agree. */
module FlushImage {
  import opened Wrappers
  import opened Segments

  function Min(a: int, b: int): int { if a < b then a else b }

  function Max(a: int, b: int): int { if a > b then a else b }

  function Zeros(n: nat): (z: seq<byte>)
    ensures |z| == n
    ensures forall i | 0 <= i < n :: z[i] == 0
  {
    seq(n, _ => 0)
  }

  /** The bytes of an object; a missing object has none. */
  function ObjectBytes(obj: Option<seq<byte>>): seq<byte> {
    if obj.Some? then obj.value else []
  }

  /** How far old object bytes may be read when assembling `size` bytes. */
  function ObjectLimit(size: nat, truncateAt: int): (limit: nat)
    ensures limit <= size
  {
    if 0 <= truncateAt < size then truncateAt else size
  }

  /** The bytes `copyFromObject` appends for the gap [from, to). */
  function GapBytes(obj: Option<seq<byte>>, from: nat, to: nat, limit: nat): seq<byte>
    requires from < to
  {
    var rdTo := Min(to, limit);
    if rdTo > from then
      if obj.None? then Zeros(to - from)
      else
        var bytes := obj.value[Min(from, |obj.value|)..Min(rdTo, |obj.value|)];
        if |bytes| < rdTo - from then bytes + Zeros(rdTo - from - |bytes|)
        else bytes + (if to > rdTo then Zeros(to - rdTo) else [])
    else Zeros(to - rdTo)
  }

  /** The gap before position `to`, if there is one. */
  function GapBefore(obj: Option<seq<byte>>, cursor: nat, to: nat, limit: nat): seq<byte> {
    if cursor < to then GapBytes(obj, cursor, to, limit) else []
  }

  /** The part of a segment between `cursor` and `size`. */
  function Clip(s: Segment, cursor: nat, size: nat): seq<byte>
    requires s.Valid()
  {
    if Max(cursor, s.off) < Min(s.end, size) then s.data[Max(cursor, s.off) - s.off..Min(s.end, size) - s.off] else []
  }

  /** The bytes `FlushToStorage` assembles from position `cursor` on. */
  function Assemble(obj: Option<seq<byte>>, t: seq<Segment>, cursor: nat, size: nat, limit: nat): seq<byte>
    requires cursor <= size && AllValid(t)
  {
    if t == [] || t[0].off >= size then GapBefore(obj, cursor, size, limit)
    else
      GapBefore(obj, cursor, t[0].off, limit) + Clip(t[0], cursor, size)
      + Assemble(obj, t[1..], Max(cursor, Min(t[0].end, size)), size, limit)
  }

  /** The object byte at `p`, or zero where there is none or a truncation cut it off. */
  function ObjectByte(obj: Option<seq<byte>>, truncateAt: int, p: nat): byte {
    if p < |ObjectBytes(obj)| && (truncateAt < 0 || p < truncateAt) then ObjectBytes(obj)[p] else 0
  }

  /** The byte the handle shows at `p`: cached, else the object's. */
  ghost function ByteAt(obj: Option<seq<byte>>, t: seq<Segment>, truncateAt: int, p: nat): byte
    requires AllValid(t)
  {
    if p in Contents(t) then Contents(t)[p] else ObjectByte(obj, truncateAt, p)
  }

  /** The whole file as the handle shows it. */
  ghost function View(obj: Option<seq<byte>>, t: seq<Segment>, truncateAt: int, size: nat): (v: seq<byte>)
    requires AllValid(t)
    ensures |v| == size
    ensures forall p | 0 <= p < size :: v[p] == ByteAt(obj, t, truncateAt, p)
  {
    seq(size, p requires 0 <= p < size => ByteAt(obj, t, truncateAt, p))
  }

  /** `copyFromObject` appends `to - from` bytes for the gap [from, to). */
  predicate GapOk(obj: Option<seq<byte>>, truncateAt: int, from: nat, to: nat) {
    || truncateAt < 0 || to <= truncateAt || from == truncateAt
    || (from < truncateAt && (obj.None? || truncateAt <= |obj.value|))
  }

  /** Start of the stretch before segment `i` (or after the last one), from `cursor` on. */
  function GapStart(t: seq<Segment>, cursor: nat, i: nat): nat
    requires i <= |t|
  {
    if i == 0 then cursor else t[i - 1].end
  }

  function GapEnd(t: seq<Segment>, size: nat, i: nat): nat
    requires i <= |t|
  {
    if i == |t| then size else Min(t[i].off, size)
  }

  /** Every uncached stretch below `size` is assembled with its exact length. */
  ghost predicate GapSafe(obj: Option<seq<byte>>, t: seq<Segment>, truncateAt: int, cursor: nat, size: nat) {
    forall i | 0 <= i <= |t| && GapStart(t, cursor, i) < GapEnd(t, size, i) ::
      GapOk(obj, truncateAt, GapStart(t, cursor, i), GapEnd(t, size, i))
  }

  // ----- gaps -----

  lemma SafeGap(obj: Option<seq<byte>>, truncateAt: int, from: nat, to: nat, size: nat)
    requires from < to <= size && GapOk(obj, truncateAt, from, to)
    ensures |GapBytes(obj, from, to, ObjectLimit(size, truncateAt))| == to - from
    ensures forall p | from <= p < to ::
              GapBytes(obj, from, to, ObjectLimit(size, truncateAt))[p - from] == ObjectByte(obj, truncateAt, p)
  {
    var g := GapBytes(obj, from, to, ObjectLimit(size, truncateAt));
    var rdTo := Min(to, ObjectLimit(size, truncateAt));
    if rdTo > from && obj.Some? {
      var bytes := obj.value[Min(from, |obj.value|)..Min(rdTo, |obj.value|)];
      forall p | from <= p < to ensures g[p - from] == ObjectByte(obj, truncateAt, p) {
        if p - from < |bytes| {
          assert g[p - from] == bytes[p - from];
        }
      }
    }
  }

  /** An unsafe gap comes out short when the object ends before the truncation point
      inside it, and long when it starts past the truncation point. */
  lemma UnsafeGap(obj: Option<seq<byte>>, truncateAt: int, from: nat, to: nat, size: nat)
    requires from < to <= size && !GapOk(obj, truncateAt, from, to)
    ensures 0 <= truncateAt < to && truncateAt != from
    ensures |GapBytes(obj, from, to, ObjectLimit(size, truncateAt))|
            == if from < truncateAt then truncateAt - from else to - truncateAt
  {
  }

  // ----- assembly -----

  lemma TailContents(t: seq<Segment>)
    requires Table(t) && t != []
    ensures Table(t[1..])
    ensures Contents(t) == t[0].Bytes() + Contents(t[1..])
  {
    SingleContents(t[0]);
    ContentsConcat([t[0]], t[1..]);
    assert [t[0]] + t[1..] == t;
  }

  lemma SingleContents(s: Segment)
    requires s.Valid()
    ensures Contents([s]) == s.Bytes()
  {
    assert [s][..0] == [];
  }

  lemma {:induction false} NothingBefore(t: seq<Segment>, p: int)
    requires Table(t) && (t != [] ==> p < t[0].off)
    ensures p !in Contents(t)
  {
    if t != [] {
      NothingBefore(t[..|t| - 1], p);
      assert |t| > 1 ==> t[0].end < t[|t| - 1].off;
    }
  }

  /** The table's bytes below, inside and behind its first segment. */
  lemma HeadContents(t: seq<Segment>, p: int)
    requires Table(t) && t != []
    ensures Table(t[1..])
    ensures p < t[0].off ==> p !in Contents(t)
    ensures t[0].Covers(p) ==> p in Contents(t) && Contents(t)[p] == t[0].data[p - t[0].off]
    ensures t[0].end <= p ==> (p in Contents(t) <==> p in Contents(t[1..]))
                              && (p in Contents(t) ==> Contents(t)[p] == Contents(t[1..])[p])
  {
    TailContents(t);
    if p < t[0].off {
      NothingBefore(t, p);
    }
    if t[0].Covers(p) {
      ContentsAt(t, 0, p);
    }
  }

  lemma TailSafe(obj: Option<seq<byte>>, t: seq<Segment>, truncateAt: int, cursor: nat, size: nat)
    requires Table(t) && t != [] && GapSafe(obj, t, truncateAt, cursor, size)
    ensures GapSafe(obj, t[1..], truncateAt, Min(t[0].end, size), size)
  {
    var rest, next := t[1..], Min(t[0].end, size);
    forall i | 0 <= i <= |rest| && GapStart(rest, next, i) < GapEnd(rest, size, i)
      ensures GapOk(obj, truncateAt, GapStart(rest, next, i), GapEnd(rest, size, i))
    {
      assert GapStart(rest, next, i) == GapStart(t, cursor, i + 1);
      assert GapEnd(rest, size, i) == GapEnd(t, size, i + 1);
    }
  }

  /** `a` holds the bytes of the file from `cursor` to `size`. */
  ghost predicate Shows(a: seq<byte>, obj: Option<seq<byte>>, t: seq<Segment>, truncateAt: int, cursor: nat, size: nat)
    requires AllValid(t) && cursor <= size
  {
    |a| == size - cursor && forall p | cursor <= p < size :: a[p - cursor] == ByteAt(obj, t, truncateAt, p)
  }

  lemma {:induction false} SafeAssembly(obj: Option<seq<byte>>, t: seq<Segment>, truncateAt: int, cursor: nat, size: nat)
    requires Table(t) && cursor <= size && (t != [] ==> cursor <= t[0].off)
    requires GapSafe(obj, t, truncateAt, cursor, size)
    ensures Shows(Assemble(obj, t, cursor, size, ObjectLimit(size, truncateAt)), obj, t, truncateAt, cursor, size)
  {
    var limit := ObjectLimit(size, truncateAt);
    assert GapStart(t, cursor, 0) == cursor;
    if t == [] || t[0].off >= size {
      assert GapEnd(t, size, 0) == size;
      if cursor < size {
        SafeGap(obj, truncateAt, cursor, size, size);
      }
      forall p | cursor <= p < size ensures p !in Contents(t) {
        NothingBefore(t, p);
      }
    } else {
      var to := Min(t[0].end, size);
      assert GapEnd(t, size, 0) == t[0].off;
      if cursor < t[0].off {
        SafeGap(obj, truncateAt, cursor, t[0].off, size);
      }
      TailContents(t);
      TailSafe(obj, t, truncateAt, cursor, size);
      SafeAssembly(obj, t[1..], truncateAt, to, size);
      HeadShows(obj, t, truncateAt, cursor, size, GapBefore(obj, cursor, t[0].off, limit),
                Assemble(obj, t[1..], to, size, limit));
    }
  }

  lemma ClipWhole(s: Segment, cursor: nat, size: nat)
    requires s.Valid() && cursor <= s.off < size
    ensures Clip(s, cursor, size) == s.data[..Min(s.end, size) - s.off]
  {
  }

  lemma HeadShows(obj: Option<seq<byte>>, t: seq<Segment>, truncateAt: int, cursor: nat, size: nat, gap: seq<byte>, rest: seq<byte>)
    requires Table(t) && t != [] && cursor <= t[0].off < size
    requires |gap| == t[0].off - cursor
    requires forall p | cursor <= p < t[0].off :: gap[p - cursor] == ObjectByte(obj, truncateAt, p)
    requires Table(t[1..]) && Shows(rest, obj, t[1..], truncateAt, Min(t[0].end, size), size)
    ensures Shows(gap + Clip(t[0], cursor, size) + rest, obj, t, truncateAt, cursor, size)
  {
    hide Contents;
    ClipWhole(t[0], cursor, size);
    var to, mid := Min(t[0].end, size), Clip(t[0], cursor, size);
    var a := gap + mid + rest;
    forall p | cursor <= p < size ensures a[p - cursor] == ByteAt(obj, t, truncateAt, p) {
      HeadContents(t, p);
      if p < t[0].off {
        assert a[p - cursor] == gap[p - cursor];
      } else if p < to {
        assert a[p - cursor] == mid[p - t[0].off];
      } else {
        assert a[p - cursor] == rest[p - to];
        assert rest[p - to] == ByteAt(obj, t[1..], truncateAt, p);
      }
    }
  }

  /** No segment is empty: no zero-length write is waiting in the cache. */
  ghost predicate NoEmpty(t: seq<Segment>) {
    forall i | 0 <= i < |t| :: t[i].off < t[i].end
  }

  lemma NoGapsLeft(obj: Option<seq<byte>>, t: seq<Segment>, truncateAt: int, size: nat)
    requires Table(t) && (t != [] ==> size <= t[0].off)
    ensures GapSafe(obj, t, truncateAt, size, size)
  {
    forall i | 0 <= i <= |t| ensures GapStart(t, size, i) >= GapEnd(t, size, i) {
      assert i > 1 ==> t[0].end < t[i - 1].off;
    }
  }

  /** Past the truncation point every further gap makes the upload longer. */
  lemma {:induction false} AssemblyPastLimit(obj: Option<seq<byte>>, t: seq<Segment>, truncateAt: int, cursor: nat, size: nat)
    requires Table(t) && cursor <= size && (t != [] ==> cursor <= t[0].off)
    requires 0 <= truncateAt < cursor
    ensures var n := |Assemble(obj, t, cursor, size, ObjectLimit(size, truncateAt))|;
            || (n == size - cursor && GapSafe(obj, t, truncateAt, cursor, size))
            || n >= size - truncateAt
  {
    if t == [] || t[0].off >= size {
      if cursor == size {
        NoGapsLeft(obj, t, truncateAt, size);
      }
    } else {
      ClipWhole(t[0], cursor, size);
      AssemblyPastLimit(obj, t[1..], truncateAt, Min(t[0].end, size), size);
      if cursor == t[0].off && GapSafe(obj, t[1..], truncateAt, Min(t[0].end, size), size) {
        SafeFromTail(obj, t, truncateAt, cursor, size);
      }
    }
  }

  lemma SafeFromTail(obj: Option<seq<byte>>, t: seq<Segment>, truncateAt: int, cursor: nat, size: nat)
    requires Table(t) && t != [] && cursor <= t[0].off < size
    requires GapSafe(obj, t[1..], truncateAt, Min(t[0].end, size), size)
    requires cursor < t[0].off ==> GapOk(obj, truncateAt, cursor, t[0].off)
    ensures GapSafe(obj, t, truncateAt, cursor, size)
  {
    var rest, next := t[1..], Min(t[0].end, size);
    forall i | 0 <= i <= |t| && GapStart(t, cursor, i) < GapEnd(t, size, i)
      ensures GapOk(obj, truncateAt, GapStart(t, cursor, i), GapEnd(t, size, i))
    {
      if i > 0 {
        assert GapStart(rest, next, i - 1) == GapStart(t, cursor, i);
        assert GapEnd(rest, size, i - 1) == GapEnd(t, size, i);
      }
    }
  }

  /** With no empty segment, the upload has the right length only if every gap is safe. */
  lemma {:induction false} ExactAssembly(obj: Option<seq<byte>>, t: seq<Segment>, truncateAt: int, cursor: nat, size: nat)
    requires Table(t) && NoEmpty(t) && cursor <= size && (t != [] ==> cursor <= t[0].off)
    requires |Assemble(obj, t, cursor, size, ObjectLimit(size, truncateAt))| == size - cursor
    ensures GapSafe(obj, t, truncateAt, cursor, size)
  {
    if t == [] || t[0].off >= size {
      if cursor < size && !GapOk(obj, truncateAt, cursor, size) {
        UnsafeGap(obj, truncateAt, cursor, size, size);
      }
      NoGapsLeft(obj, t, truncateAt, size);
      forall i | 0 <= i <= |t| && GapStart(t, cursor, i) < GapEnd(t, size, i)
        ensures GapOk(obj, truncateAt, GapStart(t, cursor, i), GapEnd(t, size, i))
      {
        if i > 0 {
          assert GapStart(t, size, i) == GapStart(t, cursor, i);
        }
      }
    } else {
      var to := Min(t[0].end, size);
      ClipWhole(t[0], cursor, size);
      if cursor < t[0].off {
        if !GapOk(obj, truncateAt, cursor, t[0].off) {
          UnsafeGap(obj, truncateAt, cursor, t[0].off, size);
          AssemblyPastLimit(obj, t[1..], truncateAt, to, size);
        } else {
          SafeGap(obj, truncateAt, cursor, t[0].off, size);
        }
      }
      ExactAssembly(obj, t[1..], truncateAt, to, size);
      SafeFromTail(obj, t, truncateAt, cursor, size);
    }
  }

  // ----- the flush theorem -----

  /** The bytes `FlushToStorage` uploads. */
  function Upload(obj: Option<seq<byte>>, t: seq<Segment>, truncateAt: int, size: nat): seq<byte>
    requires AllValid(t)
  {
    Assemble(obj, t, 0, size, ObjectLimit(size, truncateAt))
  }

  /** A flush whose gaps are all safe uploads the file as the handle shows it. */
  lemma SafeFlush(obj: Option<seq<byte>>, t: seq<Segment>, truncateAt: int, size: nat)
    requires Table(t) && GapSafe(obj, t, truncateAt, 0, size)
    ensures Upload(obj, t, truncateAt, size) == View(obj, t, truncateAt, size)
  {
    SafeAssembly(obj, t, truncateAt, 0, size);
  }

  /** A flush uploads the file as the handle shows it exactly when its gaps are safe. */
  lemma FlushExactly(obj: Option<seq<byte>>, t: seq<Segment>, truncateAt: int, size: nat)
    requires Table(t) && NoEmpty(t)
    ensures Upload(obj, t, truncateAt, size) == View(obj, t, truncateAt, size)
            <==> GapSafe(obj, t, truncateAt, 0, size)
  {
    if GapSafe(obj, t, truncateAt, 0, size) {
      SafeFlush(obj, t, truncateAt, size);
    } else if |Upload(obj, t, truncateAt, size)| == size {
      ExactAssembly(obj, t, truncateAt, 0, size);
    }
  }
}

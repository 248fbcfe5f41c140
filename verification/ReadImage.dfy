/** What a read through the write-back cache returns, and exactly when that is the
    part of the file the handle shows. */
module ReadImage {
  import opened Wrappers
  import opened Segments
  import opened FlushImage

  /** A range read of the object, short at its end. */
  function ObjectRange(obj: Option<seq<byte>>, from: nat, to: nat): seq<byte>
    requires from <= to
  {
    var bytes := ObjectBytes(obj);
    bytes[Min(from, |bytes|)..Min(to, |bytes|)]
  }

  /** The bytes `readInner` puts together from `cursor` on. */
  function ReadThrough(obj: Option<seq<byte>>, t: seq<Segment>, cursor: nat, end: nat): seq<byte>
    requires AllValid(t) && cursor <= end
  {
    if t == [] then ObjectRange(obj, cursor, end)
    else
      var s := t[0];
      if s.end <= cursor then ReadThrough(obj, t[1..], cursor, end)
      else if s.off >= end then ObjectRange(obj, cursor, end)
      else
        var gap := if s.off > cursor then ObjectRange(obj, cursor, s.off) else [];
        var from := Max(cursor, s.off);
        var to := Min(s.end, end);
        gap + (s.data[from - s.off..to - s.off] + ReadThrough(obj, t[1..], to, end))
  }

  /** Every uncached position of [cursor, end) is inside the object. */
  ghost predicate Backed(obj: Option<seq<byte>>, t: seq<Segment>, cursor: nat, end: nat)
    requires AllValid(t)
  {
    forall p | cursor <= p < end && p !in Contents(t) :: p < |ObjectBytes(obj)|
  }

  /** `r` holds the cached bytes and, between them, the object's, truncated or not. */
  ghost predicate RawBytes(r: seq<byte>, obj: Option<seq<byte>>, t: seq<Segment>, cursor: nat, end: nat)
    requires AllValid(t) && cursor <= end
  {
    |r| == end - cursor && forall p | cursor <= p < end ::
      r[p - cursor] == ByteAt(obj, t, -1, p)
  }

  lemma {:induction false} ReadIsRaw(obj: Option<seq<byte>>, t: seq<Segment>, cursor: nat, end: nat)
    requires Table(t) && cursor <= end
    ensures Backed(obj, t, cursor, end) ==> RawBytes(ReadThrough(obj, t, cursor, end), obj, t, cursor, end)
    ensures !Backed(obj, t, cursor, end) ==> |ReadThrough(obj, t, cursor, end)| < end - cursor
  {
    if t == [] {
      UncachedRead(obj, t, cursor, end);
    } else if t[0].end <= cursor {
      ReadIsRaw(obj, t[1..], cursor, end);
      forall p | cursor <= p ensures p in Contents(t) <==> p in Contents(t[1..]) {
        HeadContents(t, p);
      }
      forall p | cursor <= p < end ensures ByteAt(obj, t, -1, p) == ByteAt(obj, t[1..], -1, p) {
        HeadContents(t, p);
      }
    } else if t[0].off >= end {
      UncachedRead(obj, t, cursor, end);
    } else {
      var from, to := Max(cursor, t[0].off), Min(t[0].end, end);
      ReadIsRaw(obj, t[1..], to, end);
      UncachedRead(obj, t, cursor, from);
      BackedSplit(obj, t, cursor, from, to, end);
      ReadThreeParts(obj, t, cursor, from, to, end);
    }
  }

  /** A stretch without cached bytes is read from the object alone. */
  lemma UncachedRead(obj: Option<seq<byte>>, t: seq<Segment>, cursor: nat, end: nat)
    requires Table(t) && cursor <= end && (t != [] && cursor < end ==> end <= t[0].off)
    ensures Backed(obj, t, cursor, end) <==> |ObjectRange(obj, cursor, end)| == end - cursor
    ensures |ObjectRange(obj, cursor, end)| <= end - cursor
    ensures Backed(obj, t, cursor, end) ==> RawBytes(ObjectRange(obj, cursor, end), obj, t, cursor, end)
  {
    forall p | cursor <= p < end ensures p !in Contents(t) {
      NothingBefore(t, p);
    }
    if cursor < end && Backed(obj, t, cursor, end) {
      assert end - 1 !in Contents(t);
    }
  }

  lemma BackedSplit(obj: Option<seq<byte>>, t: seq<Segment>, cursor: nat, from: nat, to: nat, end: nat)
    requires Table(t) && t != [] && cursor <= from <= to <= end
    requires t[0].off <= from && to <= t[0].end && (to == t[0].end || to == end)
    ensures Table(t[1..])
    ensures Backed(obj, t, cursor, end) <==> Backed(obj, t, cursor, from) && Backed(obj, t[1..], to, end)
  {
    forall p ensures from <= p < to ==> p in Contents(t)
             ensures to <= p < end ==> (p in Contents(t) <==> p in Contents(t[1..]))
    {
      HeadContents(t, p);
    }
  }

  /** One unfolding of the read when its first segment overlaps it. */
  lemma ReadStep(obj: Option<seq<byte>>, t: seq<Segment>, cursor: nat, from: nat, to: nat, end: nat)
    requires Table(t) && t != [] && cursor < t[0].end && t[0].off < end
    requires cursor <= end && from == Max(cursor, t[0].off) && to == Min(t[0].end, end)
    ensures from <= to
    ensures ReadThrough(obj, t, cursor, end)
            == ObjectRange(obj, cursor, from) + (t[0].data[from - t[0].off..to - t[0].off] + ReadThrough(obj, t[1..], to, end))
  {
    hide ObjectRange, ReadThrough;
    EmptyRange(obj, cursor);
    UnfoldRead(obj, t, cursor, end);
  }

  lemma EmptyRange(obj: Option<seq<byte>>, at: nat)
    ensures ObjectRange(obj, at, at) == []
  {
  }

  lemma UnfoldRead(obj: Option<seq<byte>>, t: seq<Segment>, cursor: nat, end: nat)
    requires AllValid(t) && t != [] && cursor < t[0].end && t[0].off < end && cursor <= end
    ensures var from, to := Max(cursor, t[0].off), Min(t[0].end, end);
            var gap := if t[0].off > cursor then ObjectRange(obj, cursor, t[0].off) else [];
            ReadThrough(obj, t, cursor, end) == gap + (t[0].data[from - t[0].off..to - t[0].off] + ReadThrough(obj, t[1..], to, end))
  {
    hide ObjectRange;
  }

  lemma ReadThreeParts(obj: Option<seq<byte>>, t: seq<Segment>, cursor: nat, from: nat, to: nat, end: nat)
    requires Table(t) && t != [] && cursor < t[0].end && t[0].off < end && Table(t[1..])
    requires cursor <= end && from == Max(cursor, t[0].off) && to == Min(t[0].end, end)
    ensures from <= to
    ensures |ReadThrough(obj, t, cursor, end)|
            == |ObjectRange(obj, cursor, from)| + (to - from) + |ReadThrough(obj, t[1..], to, end)|
    ensures RawBytes(ObjectRange(obj, cursor, from), obj, t, cursor, from)
            && RawBytes(ReadThrough(obj, t[1..], to, end), obj, t[1..], to, end)
            ==> RawBytes(ReadThrough(obj, t, cursor, end), obj, t, cursor, end)
  {
    ReadStep(obj, t, cursor, from, to, end);
    var gap, rest := ObjectRange(obj, cursor, from), ReadThrough(obj, t[1..], to, end);
    if RawBytes(gap, obj, t, cursor, from) && RawBytes(rest, obj, t[1..], to, end) {
      JoinRaw(obj, t, cursor, from, to, end, gap, rest);
    }
  }

  lemma JoinRaw(obj: Option<seq<byte>>, t: seq<Segment>, cursor: nat, from: nat, to: nat, end: nat, gap: seq<byte>, rest: seq<byte>)
    requires Table(t) && t != [] && cursor <= from <= to <= end
    requires t[0].off <= from && to <= t[0].end && (to == t[0].end || to == end)
    requires Table(t[1..]) && RawBytes(gap, obj, t, cursor, from) && RawBytes(rest, obj, t[1..], to, end)
    ensures RawBytes(gap + (t[0].data[from - t[0].off..to - t[0].off] + rest), obj, t, cursor, end)
  {
    var mid := t[0].data[from - t[0].off..to - t[0].off];
    var r := gap + (mid + rest);
    forall p | cursor <= p < end ensures r[p - cursor] == ByteAt(obj, t, -1, p) {
      if p < from {
        assert r[p - cursor] == gap[p - cursor];
      } else if p < to {
        HeadContents(t, p);
        assert r[p - cursor] == mid[p - from];
      } else {
        HeadContents(t, p);
        assert r[p - cursor] == rest[p - to];
        assert rest[p - to] == ByteAt(obj, t[1..], -1, p);
      }
    }
  }

  /** Position `p` reads the same from the raw bytes and from the file. */
  ghost predicate SameByte(obj: Option<seq<byte>>, t: seq<Segment>, truncateAt: int, p: nat)
    requires AllValid(t)
  {
    p in Contents(t) || (p < |ObjectBytes(obj)| && (truncateAt < 0 || p < truncateAt || ObjectBytes(obj)[p] == 0))
  }

  /** A read returns the file's bytes exactly when each uncached position it crosses is
      inside the object and either not cut off by a pending truncation or zero anyway. */
  lemma ReadExactly(obj: Option<seq<byte>>, t: seq<Segment>, truncateAt: int, size: nat, offset: nat, end: nat)
    requires Table(t) && offset <= end <= size
    ensures ReadThrough(obj, t, offset, end) == View(obj, t, truncateAt, size)[offset..end]
            <==> forall p | offset <= p < end :: SameByte(obj, t, truncateAt, p)
  {
    var r, v := ReadThrough(obj, t, offset, end), View(obj, t, truncateAt, size)[offset..end];
    ReadIsRaw(obj, t, offset, end);
    if Backed(obj, t, offset, end) {
      forall p | offset <= p < end ensures r[p - offset] == v[p - offset] <==> SameByte(obj, t, truncateAt, p) {
        assert v[p - offset] == ByteAt(obj, t, truncateAt, p);
        assert r[p - offset] == ByteAt(obj, t, -1, p);
      }
      if forall p | offset <= p < end :: SameByte(obj, t, truncateAt, p) {
        forall i | 0 <= i < |r| ensures r[i] == v[i] {
          assert SameByte(obj, t, truncateAt, i + offset);
          assert r[(i + offset) - offset] == v[(i + offset) - offset];
        }
      }
    } else {
      var p :| offset <= p < end && p !in Contents(t) && p >= |ObjectBytes(obj)|;
      assert !SameByte(obj, t, truncateAt, p);
    }
  }
}

/** The interval table of the SMB write-back cache: how written segments are
    sorted and merged, and what the merged table means. */
module Segments {
  import opened Wrappers

  /** One cached write, the half-open range [off, end). */
  datatype Segment = Segment(off: nat, end: nat, data: seq<byte>) {
    predicate Valid() {
      off <= end && |data| == end - off
    }

    predicate Covers(p: int) {
      off <= p < end
    }

    /** The bytes the segment stores, by absolute position. */
    function Bytes(): map<int, byte>
      requires Valid()
    {
      map p: int | off <= p < end && Covers(p) :: data[p - off]
    }
  }

  ghost predicate AllValid(t: seq<Segment>) {
    forall i | 0 <= i < |t| :: t[i].Valid()
  }

  predicate SortedByOff(t: seq<Segment>) {
    forall i, j | 0 <= i < j < |t| :: t[i].off <= t[j].off
  }

  /** What the cache keeps between calls: sorted, strictly separated segments. */
  ghost predicate Table(t: seq<Segment>) {
    AllValid(t) && forall i, j | 0 <= i < j < |t| :: t[i].end < t[j].off
  }

  /** The meaning of a list of segments as a log of writes: later ones win. */
  ghost function Contents(t: seq<Segment>): map<int, byte>
    requires AllValid(t)
  {
    if t == [] then map[] else Contents(t[..|t| - 1]) + t[|t| - 1].Bytes()
  }

  /** The candidates `sort.Slice` may return: the same segments, ordered by offset.
      The sort is not stable, so segments with equal offsets may come in any order. */
  ghost predicate OrderedPermutation(sorted: seq<Segment>, t: seq<Segment>) {
    SortedByOff(sorted) && multiset(sorted) == multiset(t)
  }

  /** One round of the merge loop: `acc` is the merged result so far. */
  function MergeStep(acc: seq<Segment>, s: Segment): seq<Segment> {
    if acc == [] then [s]
    else
      var last := acc[|acc| - 1];
      if s.off <= last.end then
        if s.end <= last.end then acc
        else
          var keepLen := if s.off - last.off > |last.data| then |last.data| else s.off - last.off;
          var keep := if 0 <= keepLen then last.data[..keepLen] else [];
          acc[..|acc| - 1] + [Segment(last.off, s.end, keep + s.data)]
      else acc + [s]
  }

  function MergeAll(sorted: seq<Segment>): seq<Segment> {
    if sorted == [] then [] else MergeStep(MergeAll(sorted[..|sorted| - 1]), sorted[|sorted| - 1])
  }

  /** The cached segment overlaps the new range and reaches past it, or ends with it
      without starting later. */
  predicate Outlasts(g: Segment, off: nat, end: nat) {
    && g.off < end && off < g.end && g.off < g.end && off < end
    && (end < g.end || (end == g.end && g.off <= off))
  }

  /** The caller's side condition: no cached segment outlasts the new range. */
  ghost predicate MergeGuard(t: seq<Segment>, off: nat, end: nat) {
    forall i | 0 <= i < |t| :: !Outlasts(t[i], off, end)
  }

  // ----- meaning of a table -----

  lemma {:induction false} ContentsMember(t: seq<Segment>, p: int)
    requires AllValid(t)
    ensures p in Contents(t) <==> exists i :: 0 <= i < |t| && t[i].Covers(p)
  {
    if t != [] {
      var front := t[..|t| - 1];
      ContentsMember(front, p);
      if p in Contents(front) {
        var i :| 0 <= i < |front| && front[i].Covers(p);
        assert t[i].Covers(p);
      }
      if i :| 0 <= i < |t| && t[i].Covers(p) && i < |t| - 1 {
        assert front[i].Covers(p);
      }
    }
  }

  lemma {:induction false} ContentsAt(t: seq<Segment>, i: nat, p: int)
    requires Table(t) && i < |t| && t[i].Covers(p)
    ensures p in Contents(t) && Contents(t)[p] == t[i].data[p - t[i].off]
  {
    if i < |t| - 1 {
      ContentsAt(t[..|t| - 1], i, p);
    }
  }

  lemma {:induction false} ContentsConcat(a: seq<Segment>, b: seq<Segment>)
    requires AllValid(a) && AllValid(b)
    ensures AllValid(a + b)
    ensures Contents(a + b) == Contents(a) + Contents(b)
  {
    if b == [] {
      assert a + b == a;
    } else {
      var n := |b| - 1;
      ContentsConcat(a, b[..n]);
      assert (a + b)[..|a + b| - 1] == a + b[..n];
      OverrideAssociative(Contents(a), Contents(b[..n]), b[n].Bytes());
    }
  }

  lemma OverrideAssociative(x: map<int, byte>, y: map<int, byte>, z: map<int, byte>)
    ensures (x + y) + z == x + (y + z)
  {
  }

  // ----- one merge round -----

  lemma AppendTable(acc: seq<Segment>, s: Segment)
    requires Table(acc) && s.Valid()
    requires acc != [] ==> acc[|acc| - 1].end < s.off
    ensures Table(acc + [s])
  {
    forall i, j | 0 <= i < j < |acc| + 1 ensures (acc + [s])[i].end < (acc + [s])[j].off {
      if j == |acc| {
        assert i < |acc| - 1 ==> acc[i].end < acc[|acc| - 1].off;
      }
    }
  }

  lemma AppendMeaning(acc: seq<Segment>, s: Segment)
    requires AllValid(acc) && s.Valid()
    ensures AllValid(acc + [s])
    ensures Contents(acc + [s]) == Contents(acc) + s.Bytes()
  {
    assert (acc + [s])[..|acc|] == acc;
  }

  lemma JoinBytes(last: Segment, s: Segment, joined: Segment)
    requires last.Valid() && s.Valid() && last.off <= s.off <= last.end < s.end
    requires joined == Segment(last.off, s.end, last.data[..s.off - last.off] + s.data)
    ensures joined.Valid() && joined.Bytes() == last.Bytes() + s.Bytes()
  {
    var sum := last.Bytes() + s.Bytes();
    forall p ensures p in joined.Bytes() <==> p in sum {
    }
    forall p | p in joined.Bytes() ensures joined.Bytes()[p] == sum[p] {
    }
  }

  lemma JoinMeaning(acc: seq<Segment>, s: Segment, joined: Segment)
    requires Table(acc) && s.Valid() && acc != []
    requires var last := acc[|acc| - 1];
             && last.off <= s.off <= last.end < s.end
             && joined == Segment(last.off, s.end, last.data[..s.off - last.off] + s.data)
    ensures Table(acc[..|acc| - 1] + [joined])
    ensures Contents(acc[..|acc| - 1] + [joined]) == Contents(acc) + s.Bytes()
  {
    var front, last := acc[..|acc| - 1], acc[|acc| - 1];
    JoinBytes(last, s, joined);
    AppendTable(front, joined);
    AppendMeaning(front, joined);
    OverrideAssociative(Contents(front), last.Bytes(), s.Bytes());
  }

  lemma MergeStepMeaning(acc: seq<Segment>, s: Segment)
    requires Table(acc) && s.Valid()
    requires acc != [] ==> acc[|acc| - 1].off <= s.off
    ensures Table(MergeStep(acc, s)) && MergeStep(acc, s) != []
    ensures acc != [] && s.end <= acc[|acc| - 1].end ==> MergeStep(acc, s) == acc
    ensures !(acc != [] && s.end <= acc[|acc| - 1].end) ==>
              && Contents(MergeStep(acc, s)) == Contents(acc) + s.Bytes()
              && MergeStep(acc, s)[|MergeStep(acc, s)| - 1].end == s.end
              && MergeStep(acc, s)[|MergeStep(acc, s)| - 1].off <= s.off
  {
    if acc == [] {
      AppendTable(acc, s);
      AppendMeaning(acc, s);
      assert acc + [s] == [s];
    } else {
      var last := acc[|acc| - 1];
      if last.end < s.off {
        AppendTable(acc, s);
        AppendMeaning(acc, s);
      } else if last.end < s.end {
        JoinMeaning(acc, s, Segment(last.off, s.end, last.data[..s.off - last.off] + s.data));
      }
    }
  }

  lemma {:induction false} MergeAllOfTable(t: seq<Segment>)
    requires Table(t)
    ensures MergeAll(t) == t
  {
    if t != [] {
      MergeAllOfTable(t[..|t| - 1]);
      assert t[..|t| - 1] + [t[|t| - 1]] == t;
    }
  }

  // ----- where the sort puts the new segment -----

  ghost predicate StrictlySorted(t: seq<Segment>) {
    forall i, j | 0 <= i < j < |t| :: t[i].off < t[j].off
  }

  lemma SameMembers<T>(a: seq<T>, b: seq<T>, x: T)
    requires multiset(a) == multiset(b) && x in a
    ensures x in b
  {
    assert x in multiset(a);
  }

  lemma SameCount<T>(a: seq<T>, b: seq<T>)
    requires multiset(a) == multiset(b)
    ensures |a| == |b|
  {
    assert |multiset(a)| == |multiset(b)|;
  }

  lemma SameLast(a: seq<Segment>, b: seq<Segment>)
    requires SortedByOff(a) && StrictlySorted(b) && multiset(a) == multiset(b) && |a| == |b| > 0
    ensures a[|a| - 1] == b[|b| - 1]
  {
    SameMembers(a, b, a[|a| - 1]);
    SameMembers(b, a, b[|b| - 1]);
    var i :| 0 <= i < |b| && b[i] == a[|a| - 1];
    var k :| 0 <= k < |a| && a[k] == b[|b| - 1];
  }

  /** Two lists with the same members, one strictly and one weakly ordered by offset, are
      the same list. */
  lemma {:induction false} SortedUnique(a: seq<Segment>, b: seq<Segment>)
    requires SortedByOff(a) && StrictlySorted(b) && multiset(a) == multiset(b)
    ensures a == b
  {
    SameCount(a, b);
    if a != [] {
      var n := |a| - 1;
      SameLast(a, b);
      SortedFront(a);
      SortedFront(b);
      hide SortedByOff, StrictlySorted;
      SameFronts(a, b, n);
      SortedUnique(a[..n], b[..n]);
      FrontAndLast(a, b, n);
    }
  }

  lemma SortedFront(a: seq<Segment>)
    requires a != []
    ensures SortedByOff(a) ==> SortedByOff(a[..|a| - 1])
    ensures StrictlySorted(a) ==> StrictlySorted(a[..|a| - 1])
  {
  }

  lemma FrontAndLast<T>(a: seq<T>, b: seq<T>, n: nat)
    requires |a| == |b| == n + 1 && a[..n] == b[..n] && a[n] == b[n]
    ensures a == b
  {
    assert a == a[..n] + [a[n]];
    assert b == b[..n] + [b[n]];
  }

  lemma SameFronts<T>(a: seq<T>, b: seq<T>, n: nat)
    requires |a| == |b| == n + 1 && multiset(a) == multiset(b) && a[n] == b[n]
    ensures multiset(a[..n]) == multiset(b[..n])
  {
    DropLast(a, n);
    DropLast(b, n);
  }

  lemma DropLast<T>(a: seq<T>, n: nat)
    requires |a| == n + 1
    ensures multiset(a[..n]) == multiset(a) - multiset{a[n]}
  {
    assert a == a[..n] + [a[n]];
  }

  /** A list holding `x` is, up to order, `x` and the rest. */
  lemma WithoutOne<T>(sorted: seq<T>, t: seq<T>, x: T) returns (k: nat)
    requires multiset(sorted) == multiset(t + [x])
    ensures k < |sorted| == |t| + 1 && sorted[k] == x
    ensures multiset(sorted[..k] + sorted[k + 1..]) == multiset(t)
  {
    SameCount(sorted, t + [x]);
    assert x in t + [x];
    SameMembers(t + [x], sorted, x);
    k :| 0 <= k < |sorted| && sorted[k] == x;
    CutOne(sorted, k);
    assert multiset(t) == multiset(t + [x]) - multiset{x};
  }

  lemma CutOne<T>(a: seq<T>, k: nat)
    requires k < |a|
    ensures multiset(a[..k] + a[k + 1..]) == multiset(a) - multiset{a[k]}
  {
    assert a == a[..k] + [a[k]] + a[k + 1..];
  }

  /** Sorting a table with one appended segment only inserts that segment. */
  lemma InsertionPoint(t: seq<Segment>, s: Segment, sorted: seq<Segment>) returns (k: nat)
    requires Table(t) && s.Valid() && OrderedPermutation(sorted, t + [s])
    ensures Inserts(t, s, k) && sorted == t[..k] + [s] + t[k..]
  {
    k := WithoutOne(sorted, t, s);
    var rest := sorted[..k] + sorted[k + 1..];
    RestSorted(sorted, k);
    TableIsSorted(t);
    SortedUnique(rest, t);
    InsertedAt(t, s, sorted, k);
  }

  lemma RestSorted(sorted: seq<Segment>, k: nat)
    requires SortedByOff(sorted) && k < |sorted|
    ensures SortedByOff(sorted[..k] + sorted[k + 1..])
  {
    var rest := sorted[..k] + sorted[k + 1..];
    forall i, j | 0 <= i < j < |rest| ensures rest[i].off <= rest[j].off {
      assert rest[i] == sorted[if i < k then i else i + 1];
      assert rest[j] == sorted[if j < k then j else j + 1];
    }
  }

  lemma InsertedAt(t: seq<Segment>, s: Segment, sorted: seq<Segment>, k: nat)
    requires Table(t) && s.Valid() && SortedByOff(sorted) && k < |sorted| && sorted[k] == s
    requires t == sorted[..k] + sorted[k + 1..]
    ensures Inserts(t, s, k) && sorted == t[..k] + [s] + t[k..]
  {
    assert t[..k] == sorted[..k] && t[k..] == sorted[k + 1..];
    forall i | 0 <= i < k ensures t[i].off <= s.off { assert t[i] == sorted[i]; }
    forall i | k <= i < |t| ensures s.off <= t[i].off { assert t[i] == sorted[i + 1]; }
  }

  // ----- merging a table with one new segment -----

  /** The new segment `s` belongs between `t[..k]` and `t[k..]`. */
  ghost predicate Inserts(t: seq<Segment>, s: Segment, k: nat) {
    && Table(t) && s.Valid() && k <= |t|
    && (forall i | 0 <= i < k :: t[i].off <= s.off)
    && (forall i | k <= i < |t| :: s.off <= t[i].off)
  }

  /** The merge loop's result after `t[..k]`, the new segment and `t[k..j]`. */
  ghost function Merged(t: seq<Segment>, s: Segment, k: nat, j: nat): seq<Segment>
    requires k <= j <= |t|
    decreases j
  {
    if j == k then MergeStep(t[..k], s) else MergeStep(Merged(t, s, k, j - 1), t[j - 1])
  }

  lemma InsertedPrefix<T>(t: seq<T>, s: T, k: nat, j: nat)
    requires k <= j <= |t|
    ensures var all := t[..k] + [s] + t[k..j];
            && all[|all| - 1] == (if j == k then s else t[j - 1])
            && all[..|all| - 1] == if j == k then t[..k] else t[..k] + [s] + t[k..j - 1]
  {
    if j == k {
      assert t[k..j] == [];
    } else {
      assert t[k..j] == t[k..j - 1] + [t[j - 1]];
    }
  }

  lemma {:induction false} MergedIsMergeAll(t: seq<Segment>, s: Segment, k: nat, j: nat)
    requires Table(t) && k <= j <= |t|
    ensures MergeAll(t[..k] + [s] + t[k..j]) == Merged(t, s, k, j)
    decreases j
  {
    hide MergeStep;
    InsertedPrefix(t, s, k, j);
    if j == k {
      MergeAllOfTable(t[..k]);
    } else {
      MergedIsMergeAll(t, s, k, j - 1);
    }
  }

  /** Shape of the merge at every round: a table whose last segment ends where the
      new segment or the latest old one does. */
  ghost predicate MergedShaped(t: seq<Segment>, s: Segment, j: nat, acc: seq<Segment>)
    requires j <= |t|
  {
    && Table(acc) && acc != []
    && var last := acc[|acc| - 1];
    && s.end <= last.end && (j > 0 ==> t[j - 1].end <= last.end)
    && (last.end == s.end || (j > 0 && last.end == t[j - 1].end))
    && (last.off <= s.off || (j > 0 && last.off <= t[j - 1].off))
  }

  lemma {:induction false} MergedShape(t: seq<Segment>, s: Segment, k: nat, j: nat)
    requires Inserts(t, s, k) && k <= j <= |t|
    ensures MergedShaped(t, s, j, Merged(t, s, k, j))
    decreases j
  {
    hide Contents, MergeStep, MergedShaped, Inserts;
    if j == k {
      FirstShape(t, s, k);
    } else {
      MergedShape(t, s, k, j - 1);
      NextShape(t, s, k, j, Merged(t, s, k, j - 1));
    }
  }

  lemma FirstShape(t: seq<Segment>, s: Segment, k: nat)
    requires Inserts(t, s, k)
    ensures MergedShaped(t, s, k, MergeStep(t[..k], s))
  {
    hide Contents, MergeStep;
    MergeStepMeaning(t[..k], s);
  }

  lemma NextShape(t: seq<Segment>, s: Segment, k: nat, j: nat, acc: seq<Segment>)
    requires Inserts(t, s, k) && k < j <= |t| && MergedShaped(t, s, j - 1, acc)
    ensures MergedShaped(t, s, j, MergeStep(acc, t[j - 1]))
  {
    hide Contents, MergeStep;
    MergeStepMeaning(acc, t[j - 1]);
  }

  /** Every round of the merge either drops an old segment lying inside the new
      range, or lets the old segment override what was merged before it. */
  lemma MergedRound(t: seq<Segment>, s: Segment, k: nat, j: nat)
    requires Inserts(t, s, k) && k < j <= |t|
    ensures AllValid(Merged(t, s, k, j)) && AllValid(Merged(t, s, k, j - 1))
    ensures t[j - 1].end <= s.end ==> Merged(t, s, k, j) == Merged(t, s, k, j - 1)
    ensures t[j - 1].end > s.end ==> Contents(Merged(t, s, k, j)) == Contents(Merged(t, s, k, j - 1)) + t[j - 1].Bytes()
  {
    hide Contents, MergeStep;
    MergedShape(t, s, k, j - 1);
    MergeStepMeaning(Merged(t, s, k, j - 1), t[j - 1]);
  }

  lemma ContentsPrefix(t: seq<Segment>, j: nat)
    requires AllValid(t) && 0 < j <= |t|
    ensures Contents(t[..j]) == Contents(t[..j - 1]) + t[j - 1].Bytes()
  {
    assert t[..j][..j - 1] == t[..j - 1];
  }

  /** The round that merges the new segment drops it exactly when the old segment
      before it reaches at least as far. */
  lemma MergedFirst(t: seq<Segment>, s: Segment, k: nat)
    requires Inserts(t, s, k)
    ensures AllValid(Merged(t, s, k, k))
    ensures k > 0 && s.end <= t[k - 1].end ==> Merged(t, s, k, k) == t[..k]
    ensures !(k > 0 && s.end <= t[k - 1].end) ==> Contents(Merged(t, s, k, k)) == Contents(t[..k]) + s.Bytes()
  {
    MergeStepMeaning(t[..k], s);
  }

  lemma InsideBytes(m: map<int, byte>, x: Segment, s: Segment)
    requires x.Valid() && s.Valid() && s.off <= x.off && x.end <= s.end
    ensures m + x.Bytes() + s.Bytes() == m + s.Bytes()
  {
    assert x.Bytes().Keys <= s.Bytes().Keys;
  }

  lemma ApartBytes(m: map<int, byte>, x: Segment, s: Segment)
    requires x.Valid() && s.Valid() && (s.end <= x.off || x.end <= s.off || s.off == s.end)
    ensures m + x.Bytes() + s.Bytes() == m + s.Bytes() + x.Bytes()
  {
    assert x.Bytes().Keys !! s.Bytes().Keys;
  }

  lemma NewWinsFirst(t: seq<Segment>, s: Segment, k: nat)
    requires Inserts(t, s, k) && MergeGuard(t, s.off, s.end)
    ensures AllValid(Merged(t, s, k, k))
    ensures Contents(Merged(t, s, k, k)) == Contents(t[..k]) + s.Bytes()
  {
    MergedFirst(t, s, k);
    if k > 0 && s.end <= t[k - 1].end {
      assert !Outlasts(t[k - 1], s.off, s.end);
      assert s.Bytes() == map[];
    }
  }

  /** Under the guard an older segment that is merged after the new one lies inside
      the new range or apart from it. */
  lemma NewWinsRound(t: seq<Segment>, s: Segment, k: nat, j: nat, m: map<int, byte>)
    requires Inserts(t, s, k) && k < j <= |t| && MergeGuard(t, s.off, s.end)
    ensures t[j - 1].end <= s.end ==> m + t[j - 1].Bytes() + s.Bytes() == m + s.Bytes()
    ensures t[j - 1].end > s.end ==> m + t[j - 1].Bytes() + s.Bytes() == m + s.Bytes() + t[j - 1].Bytes()
  {
    var older := t[j - 1];
    if older.end <= s.end {
      InsideBytes(m, older, s);
    } else {
      assert !Outlasts(older, s.off, s.end);
      ApartBytes(m, older, s);
    }
  }

  lemma {:induction false} NewWinsUnderGuard(t: seq<Segment>, s: Segment, k: nat, j: nat)
    requires Inserts(t, s, k) && k <= j <= |t| && MergeGuard(t, s.off, s.end)
    ensures AllValid(Merged(t, s, k, j))
    ensures Contents(Merged(t, s, k, j)) == Contents(t[..j]) + s.Bytes()
    decreases j
  {
    hide Contents;
    if j == k {
      NewWinsFirst(t, s, k);
    } else {
      NewWinsUnderGuard(t, s, k, j - 1);
      MergedRound(t, s, k, j);
      ContentsPrefix(t, j);
      NewWinsRound(t, s, k, j, Contents(t[..j - 1]));
    }
  }

  // ----- the three facts about `mergeLocked` -----

  lemma OverrideUnder(m: map<int, byte>, c: map<int, byte>, x: map<int, byte>, top: map<int, byte>)
    requires m + top == c + top
    ensures (m + x) + top == (c + x) + top
  {
    forall p ensures p in (m + x) + top <==> p in (c + x) + top {
      assert p in m + top <==> p in c + top;
    }
    forall p | p in (m + x) + top ensures ((m + x) + top)[p] == ((c + x) + top)[p] {
      if p !in top && p !in x {
        assert (m + top)[p] == (c + top)[p];
      }
    }
  }

  /** Outside the new range the merge changes nothing, inside it every byte is cached. */
  lemma {:induction false} MergedAgrees(t: seq<Segment>, s: Segment, k: nat, j: nat)
    requires Inserts(t, s, k) && k <= j <= |t|
    ensures AllValid(Merged(t, s, k, j))
    ensures Contents(Merged(t, s, k, j)) + s.Bytes() == Contents(t[..j]) + s.Bytes()
    ensures s.Bytes().Keys <= Contents(Merged(t, s, k, j)).Keys
    decreases j
  {
    hide Contents;
    if j == k {
      MergedFirst(t, s, k);
      if k > 0 && s.end <= t[k - 1].end {
        forall p | p in s.Bytes() ensures p in Contents(t[..k]) {
          ContentsAt(t[..k], k - 1, p);
        }
      }
    } else {
      MergedAgrees(t, s, k, j - 1);
      MergedRound(t, s, k, j);
      ContentsPrefix(t, j);
      var older := t[j - 1];
      if older.end <= s.end {
        InsideBytes(Contents(t[..j - 1]), older, s);
      } else {
        OverrideUnder(Contents(Merged(t, s, k, j - 1)), Contents(t[..j - 1]), older.Bytes(), s.Bytes());
      }
    }
  }

  /** Whatever order the sort picks, the merged table is a table again, caches exactly
      the old and the new positions, and keeps every old byte outside the new range. */
  lemma MergeKeepsTable(t: seq<Segment>, s: Segment, sorted: seq<Segment>)
    requires Table(t) && s.Valid() && OrderedPermutation(sorted, t + [s])
    ensures Table(MergeAll(sorted))
    ensures Contents(MergeAll(sorted)).Keys == Contents(t).Keys + s.Bytes().Keys
    ensures forall p | p in Contents(t) && p !in s.Bytes() :: Contents(MergeAll(sorted))[p] == Contents(t)[p]
  {
    var k := InsertionPoint(t, s, sorted);
    MergedIsMergeAll(t, s, k, |t|);
    MergedShape(t, s, k, |t|);
    MergedAgrees(t, s, k, |t|);
    assert t[..|t|] == t && t[k..|t|] == t[k..];
    var merged, top := Contents(MergeAll(sorted)), s.Bytes();
    assert merged.Keys + top.Keys == (merged + top).Keys == (Contents(t) + top).Keys;
    forall p | p in Contents(t) && p !in top ensures p in merged && merged[p] == Contents(t)[p] {
      assert p in merged + top && (merged + top)[p] == (Contents(t) + top)[p];
    }
  }

  /** Under the guard a write is what it should be: the new bytes over the old ones. */
  lemma LaterWriteWins(t: seq<Segment>, s: Segment, sorted: seq<Segment>)
    requires Table(t) && s.Valid() && OrderedPermutation(sorted, t + [s])
    requires MergeGuard(t, s.off, s.end)
    ensures Table(MergeAll(sorted))
    ensures Contents(MergeAll(sorted)) == Contents(t) + s.Bytes()
  {
    MergeKeepsTable(t, s, sorted);
    var k := InsertionPoint(t, s, sorted);
    MergedIsMergeAll(t, s, k, |t|);
    NewWinsUnderGuard(t, s, k, |t|);
    assert t[..|t|] == t && t[k..|t|] == t[k..];
  }

  /** For every content of the new range and every order of the sort, the new bytes win. */
  ghost predicate NewAlwaysWins(t: seq<Segment>, off: nat, end: nat)
    requires Table(t) && off <= end
  {
    forall data: seq<byte>, sorted: seq<Segment> |
      |data| == end - off && OrderedPermutation(sorted, t + [Segment(off, end, data)]) ::
      AllValid(MergeAll(sorted)) && Contents(MergeAll(sorted)) == Contents(t) + Segment(off, end, data).Bytes()
  }

  /** Later writes win exactly when the guard holds. */
  lemma LaterWriteWinsExactly(t: seq<Segment>, off: nat, end: nat)
    requires Table(t) && off <= end
    ensures NewAlwaysWins(t, off, end) <==> MergeGuard(t, off, end)
  {
    hide Contents;
    if MergeGuard(t, off, end) {
      forall data: seq<byte>, sorted: seq<Segment> |
        |data| == end - off && OrderedPermutation(sorted, t + [Segment(off, end, data)])
        ensures AllValid(MergeAll(sorted)) && Contents(MergeAll(sorted)) == Contents(t) + Segment(off, end, data).Bytes()
      {
        LaterWriteWins(t, Segment(off, end, data), sorted);
      }
    } else {
      var i :| 0 <= i < |t| && Outlasts(t[i], off, end);
      var data, sorted, p := OlderByteSurvives(t, off, end, i);
      var s := Segment(off, end, data);
      assert p in s.Bytes() && (Contents(t) + s.Bytes())[p] == data[p - off];
    }
  }

  /** The insertion point of a sort that puts ties after the older segments. */
  lemma {:induction false} LatestPoint(t: seq<Segment>, s: Segment, n: nat) returns (k: nat)
    requires Table(t) && s.Valid() && n <= |t|
    ensures k <= n
    ensures forall i | 0 <= i < k :: t[i].off <= s.off
    ensures forall i | k <= i < n :: s.off < t[i].off
  {
    if n == 0 || t[n - 1].off <= s.off {
      k := n;
      forall i | 0 <= i < n ensures t[i].off <= s.off {
        assert i < n - 1 ==> t[i].end < t[n - 1].off;
      }
    } else {
      k := LatestPoint(t, s, n - 1);
    }
  }

  lemma InsertedIsOrdered(t: seq<Segment>, s: Segment, k: nat)
    requires Inserts(t, s, k)
    ensures OrderedPermutation(t[..k] + [s] + t[k..], t + [s])
  {
    TableIsSorted(t);
    SortedInsert(t, s, k);
    hide SortedByOff, Inserts;
    InsertedMembers(t, s, k);
  }

  lemma TableIsSorted(t: seq<Segment>)
    requires Table(t)
    ensures SortedByOff(t) && StrictlySorted(t)
  {
  }

  lemma InsertedMembers<T>(a: seq<T>, x: T, k: nat)
    requires k <= |a|
    ensures multiset(a[..k] + [x] + a[k..]) == multiset(a) + multiset{x}
  {
    assert a == a[..k] + a[k..];
  }

  lemma SortedInsert(a: seq<Segment>, s: Segment, k: nat)
    requires SortedByOff(a) && k <= |a|
    requires k > 0 ==> a[k - 1].off <= s.off
    requires forall j | k <= j < |a| :: s.off <= a[j].off
    ensures SortedByOff(a[..k] + [s] + a[k..])
  {
    var b := a[..k] + [s] + a[k..];
    forall i, j | 0 <= i < j < |b| ensures b[i].off <= b[j].off {
      assert b[i] == if i < k then a[i] else if i == k then s else a[i - 1];
      assert b[j] == if j < k then a[j] else if j == k then s else a[j - 1];
    }
  }

  /** An older byte that outlives the new segment's round outlives the whole merge. */
  lemma {:induction false} OldByteKept(t: seq<Segment>, s: Segment, k: nat, i: nat, j: nat, p: int)
    requires Inserts(t, s, k) && i < |t| && k <= j <= |t| && t[i].Covers(p) && s.end <= t[i].end
    requires i == k - 1 || (k <= i < j && s.end < t[i].end)
    ensures AllValid(Merged(t, s, k, j))
    ensures HoldsAt(Contents(Merged(t, s, k, j)), p, t[i].data[p - t[i].off])
    decreases j
  {
    hide Contents, MergeStep;
    if j == k {
      MergedFirst(t, s, k);
      ContentsAt(t[..k], i, p);
    } else {
      MergedRound(t, s, k, j);
      if j - 1 == i {
        assert HoldsAt(t[i].Bytes(), p, t[i].data[p - t[i].off]);
      } else {
        OldByteKept(t, s, k, i, j - 1, p);
        LaterApart(t, i, j - 1, p);
      }
    }
  }

  ghost predicate HoldsAt(m: map<int, byte>, p: int, b: byte) {
    p in m && m[p] == b
  }

  lemma LaterApart(t: seq<Segment>, i: nat, j: nat, p: int)
    requires Table(t) && i < j < |t| && t[i].Covers(p)
    ensures p !in t[j].Bytes()
  {
  }

  lemma SeparatedOffsets(t: seq<Segment>, i: nat, j: nat)
    requires Table(t) && i < j < |t|
    ensures t[i].end < t[j].off
  {
  }

  /** An outlasting segment comes right before the new one or somewhere after it. */
  lemma OutlastingPlace(t: seq<Segment>, s: Segment, i: nat) returns (k: nat)
    requires Table(t) && s.Valid() && i < |t| && Outlasts(t[i], s.off, s.end)
    ensures Inserts(t, s, k) && (i == k - 1 || (k <= i && s.end < t[i].end))
  {
    k := LatestPoint(t, s, |t|);
    if i < k - 1 {
      SeparatedOffsets(t, i, k - 1);
    }
  }

  /** Where the guard fails, some order of the sort lets an older byte survive. */
  lemma OlderByteSurvives(t: seq<Segment>, off: nat, end: nat, i: nat)
    returns (data: seq<byte>, sorted: seq<Segment>, p: int)
    requires Table(t) && i < |t| && Outlasts(t[i], off, end)
    ensures |data| == end - off && OrderedPermutation(sorted, t + [Segment(off, end, data)])
    ensures off <= p < end && AllValid(MergeAll(sorted)) && p in Contents(MergeAll(sorted))
    ensures Contents(MergeAll(sorted))[p] != data[p - off]
  {
    var g := t[i];
    p := if off < g.off then g.off else off;
    var other: byte := if g.data[p - g.off] == 0 then 1 else 0;
    data := seq(end - off, _ => other);
    var s := Segment(off, end, data);
    var k := OutlastingPlace(t, s, i);
    sorted := t[..k] + [s] + t[k..];
    InsertedIsOrdered(t, s, k);
    MergedIsMergeAll(t, s, k, |t|);
    assert t[k..|t|] == t[k..];
    OldByteKept(t, s, k, i, |t|, p);
  }
}

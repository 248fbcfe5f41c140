/** The folder download's enumeration: breadth first, every directory page by page with
    two independent cursors, every file once. */
module Enumerator {
  import opened Paging
  import opened Turns
  import opened DirectoryTree

  datatype Entry = Entry(id: nat, dir: nat)

  datatype Visit = Visit(dir: nat, depth: nat)

  /** Server page sizes: 50 by default, 500 at most. */
  function PageSize(asked: int): (size: nat)
    ensures 1 <= asked <= 500 ==> size == asked
    ensures asked <= 0 ==> size == 50
    ensures asked > 500 ==> size == 500
  {
    if asked <= 0 then 50 else if asked > 500 then 500 else asked
  }

  function EntriesOf(ids: seq<nat>, dir: nat): set<Entry> {
    set f | f in ids :: Entry(f, dir)
  }

  ghost predicate Distinct<T(!new)>(s: seq<T>) {
    forall i, j | 0 <= i < j < |s| :: s[i] != s[j]
  }

  lemma DistinctMore<T(!new)>(s: seq<T>, x: T)
    requires Distinct(s) && x !in s
    ensures Distinct(s + [x])
  {
  }

  lemma EntriesMore(ids: seq<nat>, dir: nat, i: nat)
    requires i < |ids|
    ensures EntriesOf(ids[..i + 1], dir) == EntriesOf(ids[..i], dir) + {Entry(ids[i], dir)}
  {
    assert ids[..i + 1] == ids[..i] + [ids[i]];
  }

  class Download {
    /** The task's file list and the set of keys already on it. */
    var files: seq<Entry>
    var keys: set<Entry>

    /** Files waiting for a worker. */
    var queue: seq<Entry>

    ghost predicate Valid()
      reads this
    {
      Distinct(files) && forall e :: e in keys <==> e in files
    }

    /** One page of files: those not listed before are listed and queued. */
    method TakeFiles(ids: seq<nat>, dir: nat)
      requires Valid()
      modifies this
      ensures Valid() && keys == old(keys) + EntriesOf(ids, dir)
      ensures old(files) <= files && queue == old(queue) + files[|old(files)|..]
    {
      var i := 0;
      while i < |ids|
        invariant 0 <= i <= |ids| && Valid() && keys == old(keys) + EntriesOf(ids[..i], dir)
        invariant old(files) <= files && queue == old(queue) + files[|old(files)|..]
      {
        var e := Entry(ids[i], dir);
        EntriesMore(ids, dir, i);
        if e !in keys {
          DistinctMore(files, e);
          assert (files + [e])[|old(files)|..] == files[|old(files)|..] + [e];
          keys := keys + {e};
          files := files + [e];
          queue := queue + [e];
        }
        i := i + 1;
      }
      assert ids[..|ids|] == ids;
    }

    /** One page of subfolders: those not seen before are to be visited. */
    method TakeFolders(ids: seq<nat>, visited0: set<nat>) returns (found: seq<nat>, visited: set<nat>)
      ensures visited == visited0 + Set(ids)
      ensures Distinct(found) && forall d :: d in found <==> d in ids && d !in visited0
    {
      found, visited := [], visited0;
      var i := 0;
      while i < |ids|
        invariant 0 <= i <= |ids| && visited == visited0 + Set(ids[..i])
        invariant Distinct(found) && forall d :: d in found <==> d in ids[..i] && d !in visited0
      {
        assert ids[..i + 1] == ids[..i] + [ids[i]];
        if ids[i] !in visited {
          DistinctMore(found, ids[i]);
          visited := visited + {ids[i]};
          found := found + [ids[i]];
        }
        i := i + 1;
      }
      assert ids[..|ids|] == ids;
    }

    /** All pages of one directory. A file or folder page with nothing after it gives the
        empty cursor, which the next request reads as the first page; so the two tables
        turn until both cursors are empty at once. */
    method ListDirectory(t: Tree, d: nat, asked: int, visited0: set<nat>)
      returns (requests: nat, pushes: seq<nat>, visited: set<nat>)
      requires Valid() && d in t.files && d in t.folders && Descending(t.files[d]) && Descending(t.folders[d])
      modifies this
      ensures Valid() && keys == old(keys) + EntriesOf(t.files[d], d)
      ensures old(files) <= files && queue == old(queue) + files[|old(files)|..]
      ensures visited == visited0 + Set(t.folders[d])
      ensures Distinct(pushes) && forall c :: c in pushes <==> c in t.folders[d] && c !in visited0
      ensures IsLcm(Pages(|t.files[d]|, PageSize(asked)), Pages(|t.folders[d]|, PageSize(asked)), requests)
    {
      var size := PageSize(asked);
      ghost var nf, nd := Pages(|t.files[d]|, size), Pages(|t.folders[d]|, size);
      var fc, dc := 0, 0;
      requests, pushes, visited := 0, [], visited0;
      ProductTurns(nf, nd);
      while true
        invariant Valid() && requests < nf * nd
        invariant fc == CursorOf(t.files[d], size, requests % nf) && dc == CursorOf(t.folders[d], size, requests % nd)
        invariant forall q | 0 < q <= requests :: !(q % nf == 0 && q % nd == 0)
        invariant keys == old(keys) + EntriesOf(Listed(t.files[d], size, requests, nf), d)
        invariant old(files) <= files && queue == old(queue) + files[|old(files)|..]
        invariant visited == visited0 + Set(Listed(t.folders[d], size, requests, nd))
        invariant Distinct(pushes) && forall c :: c in pushes <==> c in Listed(t.folders[d], size, requests, nd) && c !in visited0
        decreases nf * nd - requests
      {
        fc, dc, pushes, visited := OnePage(t, d, size, requests, fc, dc, pushes, visited0, visited);
        requests := requests + 1;
        if fc == 0 && dc == 0 {
          BothEmpty(t, d, size, requests);
          return;
        }
        NotBothEmpty(t, d, size, requests);
      }
    }

    /** One request: a page of files and a page of folders. */
    method OnePage(t: Tree, d: nat, size: nat, ghost r: nat, fc: nat, dc: nat, pushes0: seq<nat>, ghost visited00: set<nat>, visited0: set<nat>)
      returns (fc1: nat, dc1: nat, pushes: seq<nat>, visited: set<nat>)
      requires Valid() && size > 0
      requires d in t.files && d in t.folders && Descending(t.files[d]) && Descending(t.folders[d])
      requires fc == CursorOf(t.files[d], size, r % Pages(|t.files[d]|, size))
      requires dc == CursorOf(t.folders[d], size, r % Pages(|t.folders[d]|, size))
      requires visited0 == visited00 + Set(Listed(t.folders[d], size, r, Pages(|t.folders[d]|, size)))
      requires Distinct(pushes0) && forall c :: c in pushes0 <==> c in Listed(t.folders[d], size, r, Pages(|t.folders[d]|, size)) && c !in visited00
      modifies this
      ensures Valid()
      ensures old(files) <= files && queue == old(queue) + files[|old(files)|..]
      ensures forall before | old(keys) == before + EntriesOf(Listed(t.files[d], size, r, Pages(|t.files[d]|, size)), d) ::
                keys == before + EntriesOf(Listed(t.files[d], size, r + 1, Pages(|t.files[d]|, size)), d)
      ensures fc1 == CursorOf(t.files[d], size, (r + 1) % Pages(|t.files[d]|, size))
      ensures dc1 == CursorOf(t.folders[d], size, (r + 1) % Pages(|t.folders[d]|, size))
      ensures visited == visited00 + Set(Listed(t.folders[d], size, r + 1, Pages(|t.folders[d]|, size)))
      ensures Distinct(pushes) && forall c :: c in pushes <==> c in Listed(t.folders[d], size, r + 1, Pages(|t.folders[d]|, size)) && c !in visited00
    {
      hide Descending, PageAt, CursorOf, Listed, Slice;
      ghost var nf, nd := Pages(|t.files[d]|, size), Pages(|t.folders[d]|, size);
      Turn(t.files[d], size, r);
      Turn(t.folders[d], size, r);
      var page := PageAt(t.files[d], fc, size);
      TakeFiles(page.items, d);
      EntriesUnion(Listed(t.files[d], size, r, nf), page.items, Listed(t.files[d], size, r + 1, nf), d);
      var dirs := PageAt(t.folders[d], dc, size);
      var found: seq<nat>;
      found, visited := TakeFolders(dirs.items, visited0);
      pushes := pushes0 + found;
      PushesMore(Listed(t.folders[d], size, r, nd), dirs.items, Listed(t.folders[d], size, r + 1, nd), visited00, pushes0, found);
      fc1, dc1 := page.next, dirs.next;
    }

    /** The whole walk. Whatever an earlier, interrupted walk already listed, afterwards
        exactly the files of the directories within `maxDepth` levels are added, and no
        file is listed twice. */
    method Enumerate(t: Tree, root: nat, maxDepth: nat, asked: int)
      requires Valid() && Sound(t, root)
      modifies this
      ensures Valid() && keys == old(keys) + Wanted(t, root, maxDepth)
      ensures old(files) <= files && queue == old(queue) + files[|old(files)|..]
    {
      hide Sound, Walk, At, Within, EntriesIn, EntriesOf, Wanted, Distinct, Descending, IsLcm;
      var stack := [Visit(root, 0)];
      var visited := {root};
      ghost var done: set<nat> := {};
      StartWalk(t, root, maxDepth);
      while |stack| > 0
        invariant Valid() && Walk(t, root, maxDepth, stack, visited, done) && done <= t.folders.Keys
        invariant keys == old(keys) + EntriesIn(t, done)
        invariant old(files) <= files && queue == old(queue) + files[|old(files)|..]
        decreases |t.folders.Keys - done|
      {
        var v := stack[0];
        FrontFacts(t, root, maxDepth, stack, visited, done);
        ghost var listed, waiting := files, queue;
        var requests: nat, pushes: seq<nat>, seen: set<nat> := ListDirectory(t, v.dir, asked, visited);
        QueueGrows(old(files), listed, files, old(queue), waiting, queue);
        if v.depth < maxDepth {
          GoDown(t, root, maxDepth, stack, visited, done, pushes);
          stack := stack[1..] + Visits(pushes, v.depth + 1);
          visited := seen;
        } else {
          StayHere(t, root, maxDepth, stack, visited, done);
          stack := stack[1..];
        }
        EntriesInMore(t, done, v.dir);
        assert t.folders.Keys - done == (t.folders.Keys - (done + {v.dir})) + {v.dir};
        done := done + {v.dir};
      }
      EndWalk(t, root, maxDepth, visited, done);
    }
  }

  function Visits(dirs: seq<nat>, depth: nat): seq<Visit> {
    seq(|dirs|, i requires 0 <= i < |dirs| => Visit(dirs[i], depth))
  }

  ghost function EntriesIn(t: Tree, dirs: set<nat>): set<Entry> {
    set d, f | d in dirs && d in t.files && f in t.files[d] :: Entry(f, d)
  }

  /** The way down from the root to a directory, through listed subfolders. */
  ghost predicate IsWay(t: Tree, root: nat, way: seq<nat>, d: nat) {
    && |way| > 0 && way[0] == root && way[|way| - 1] == d
    && forall i | 0 <= i < |way| - 1 :: way[i] in t.folders && way[i + 1] in t.folders[way[i]]
  }

  lemma {:induction false} AtIsWay(t: Tree, root: nat, d: nat, k: nat)
    ensures At(t, root, d, k) <==> exists way :: IsWay(t, root, way, d) && |way| == k + 1
    decreases k
  {
    if k == 0 {
      assert d == root ==> IsWay(t, root, [root], d);
    } else {
      if At(t, root, d, k) {
        var p: nat :| At(t, root, p, k - 1) && Holds(t, p, d);
        AtIsWay(t, root, p, k - 1);
        var way :| IsWay(t, root, way, p) && |way| == k;
        assert IsWay(t, root, way + [d], d);
      }
      forall way | IsWay(t, root, way, d) && |way| == k + 1 ensures At(t, root, d, k) {
        var p := way[k - 1];
        assert IsWay(t, root, way[..k], p);
        AtIsWay(t, root, p, k - 1);
        assert way[k - 1 + 1] == d;
        assert Holds(t, p, d);
      }
    }
  }

  /** What an enumeration adds, said of ways down: the files of the directories at the end
      of a way of at most `limit` steps. */
  lemma WantedExactly(t: Tree, root: nat, limit: nat, f: nat, d: nat)
    ensures Entry(f, d) in Wanted(t, root, limit)
            <==> d in t.folders && d in t.files && f in t.files[d] && exists way :: IsWay(t, root, way, d) && |way| <= limit + 1
  {
    if k: nat :| k <= limit && At(t, root, d, k) {
      AtIsWay(t, root, d, k);
    }
    forall way | IsWay(t, root, way, d) && |way| <= limit + 1 ensures Within(t, root, d, limit) {
      AtIsWay(t, root, d, |way| - 1);
    }
  }

  /** All files of the directories within the depth limit. */
  ghost function Wanted(t: Tree, root: nat, limit: nat): set<Entry> {
    EntriesIn(t, set d | d in t.folders && Within(t, root, d, limit))
  }

  ghost predicate VisitOk(t: Tree, root: nat, limit: nat, visited: set<nat>, done: set<nat>, v: Visit) {
    v.dir in visited && v.dir !in done && v.depth <= limit && At(t, root, v.dir, v.depth)
  }

  ghost predicate Pending(stack: seq<Visit>, d: nat) {
    exists i :: 0 <= i < |stack| && stack[i].dir == d
  }

  ghost predicate Opened(t: Tree, root: nat, limit: nat, visited: set<nat>, p: nat) {
    forall k: nat, c: nat | k < limit && At(t, root, p, k) && Holds(t, p, c) :: c in visited
  }

  /** Directories on the stack are at their true depth, and everything below a finished
      directory, down to the limit, was seen. */
  ghost predicate Walk(t: Tree, root: nat, limit: nat, stack: seq<Visit>, visited: set<nat>, done: set<nat>) {
    && (forall i | 0 <= i < |stack| :: VisitOk(t, root, limit, visited, done, stack[i]))
    && (forall i, j | 0 <= i < j < |stack| :: stack[i].dir != stack[j].dir)
    && done <= visited && root in visited
    && (forall d | d in visited :: d in done || Pending(stack, d))
    && (forall d | d in done :: Within(t, root, d, limit) && Opened(t, root, limit, visited, d))
  }

  lemma StartWalk(t: Tree, root: nat, limit: nat)
    ensures Walk(t, root, limit, [Visit(root, 0)], {root}, {}) && EntriesIn(t, {}) == {}
  {
    assert [Visit(root, 0)][0].dir == root;
  }

  lemma FrontFacts(t: Tree, root: nat, limit: nat, stack: seq<Visit>, visited: set<nat>, done: set<nat>)
    requires Sound(t, root) && Walk(t, root, limit, stack, visited, done) && |stack| > 0
    ensures var d := stack[0].dir;
            d in t.folders && d in t.files && Descending(t.files[d]) && Descending(t.folders[d]) && d !in done
  {
    assert VisitOk(t, root, limit, visited, done, stack[0]);
    AtIsDirectory(t, root, stack[0].dir, stack[0].depth);
  }

  lemma QueueGrows(a: seq<Entry>, b: seq<Entry>, c: seq<Entry>, qa: seq<Entry>, qb: seq<Entry>, qc: seq<Entry>)
    requires a <= b <= c && qb == qa + b[|a|..] && qc == qb + c[|b|..]
    ensures a <= c && qc == qa + c[|a|..]
  {
    assert c[|a|..] == b[|a|..] + c[|b|..];
  }

  lemma EntriesInMore(t: Tree, done: set<nat>, d: nat)
    requires d in t.files
    ensures EntriesIn(t, done + {d}) == EntriesIn(t, done) + EntriesOf(t.files[d], d)
  {
  }

  lemma StillPending(stack: seq<Visit>, after: seq<Visit>, d: nat)
    requires Pending(stack, d) && |stack| > 0 && d != stack[0].dir && stack[1..] <= after
    ensures Pending(after, d)
  {
    var i :| 0 <= i < |stack| && stack[i].dir == d;
    assert after[i - 1] == stack[1..][i - 1] == stack[i];
  }

  /** The front directory is at the limit: it is finished, nothing is pushed. */
  lemma StayHere(t: Tree, root: nat, limit: nat, stack: seq<Visit>, visited: set<nat>, done: set<nat>)
    requires Sound(t, root) && Walk(t, root, limit, stack, visited, done) && |stack| > 0 && stack[0].depth >= limit
    ensures Walk(t, root, limit, stack[1..], visited, done + {stack[0].dir})
  {
    var v, after := stack[0], stack[1..];
    assert VisitOk(t, root, limit, visited, done, v);
    forall i | 0 <= i < |after| ensures VisitOk(t, root, limit, visited, done + {v.dir}, after[i]) {
      assert VisitOk(t, root, limit, visited, done, stack[i + 1]);
    }
    forall d | d in visited ensures d in done + {v.dir} || Pending(after, d) {
      if d !in done && d != v.dir {
        StillPending(stack, after, d);
      }
    }
    forall k: nat | At(t, root, v.dir, k) ensures k == v.depth {
      LevelIsUnique(t, root, v.dir, k, v.depth);
    }
  }

  /** The front directory is above the limit: its new subfolders are pushed one level
      deeper. */
  lemma GoDown(t: Tree, root: nat, limit: nat, stack: seq<Visit>, visited: set<nat>, done: set<nat>, pushes: seq<nat>)
    requires Sound(t, root) && Walk(t, root, limit, stack, visited, done) && |stack| > 0 && stack[0].depth < limit
    requires stack[0].dir in t.folders
    requires Distinct(pushes) && forall c :: c in pushes <==> c in t.folders[stack[0].dir] && c !in visited
    ensures Walk(t, root, limit, stack[1..] + Visits(pushes, stack[0].depth + 1), visited + Set(t.folders[stack[0].dir]),
                 done + {stack[0].dir})
  {
    var v, more := stack[0], Visits(pushes, stack[0].depth + 1);
    var after, seen := stack[1..] + more, visited + Set(t.folders[v.dir]);
    assert VisitOk(t, root, limit, visited, done, v);
    PushedVisits(t, root, limit, stack, visited, done, pushes);
    forall d | d in seen ensures d in done + {v.dir} || Pending(after, d) {
      SeenPending(stack, visited, done, pushes, after, v.depth + 1, d, Set(t.folders[v.dir]));
    }
    forall d | d in done + {v.dir} ensures Within(t, root, d, limit) && Opened(t, root, limit, seen, d) {
      if d == v.dir {
        assert Within(t, root, d, limit);
      } else {
        assert Opened(t, root, limit, visited, d);
      }
    }
  }

  lemma SeenPending(stack: seq<Visit>, visited: set<nat>, done: set<nat>, pushes: seq<nat>, after: seq<Visit>, depth: nat, d: nat, kids: set<nat>)
    requires |stack| > 0 && after == stack[1..] + Visits(pushes, depth)
    requires d in visited ==> d in done || Pending(stack, d)
    requires forall c :: c in pushes <==> c in kids && c !in visited
    requires d in visited + kids
    ensures d in done + {stack[0].dir} || Pending(after, d)
  {
    if d in visited {
      if d !in done && d != stack[0].dir {
        StillPending(stack, after, d);
      }
    } else {
      assert d in pushes;
      var k :| 0 <= k < |pushes| && pushes[k] == d;
      assert after[|stack| - 1 + k].dir == d;
    }
  }

  lemma PushedVisits(t: Tree, root: nat, limit: nat, stack: seq<Visit>, visited: set<nat>, done: set<nat>, pushes: seq<nat>)
    requires Sound(t, root) && Walk(t, root, limit, stack, visited, done) && |stack| > 0 && stack[0].depth < limit
    requires stack[0].dir in t.folders
    requires Distinct(pushes) && forall c :: c in pushes <==> c in t.folders[stack[0].dir] && c !in visited
    ensures var after := stack[1..] + Visits(pushes, stack[0].depth + 1);
            var seen := visited + Set(t.folders[stack[0].dir]);
            && (forall i | 0 <= i < |after| :: VisitOk(t, root, limit, seen, done + {stack[0].dir}, after[i]))
            && (forall i, j | 0 <= i < j < |after| :: after[i].dir != after[j].dir)
  {
    var v, n := stack[0], |stack| - 1;
    var after, seen := stack[1..] + Visits(pushes, v.depth + 1), visited + Set(t.folders[v.dir]);
    assert VisitOk(t, root, limit, visited, done, v);
    forall i | 0 <= i < n ensures VisitOk(t, root, limit, visited, done, after[i]) && after[i] == stack[i + 1] {
      assert VisitOk(t, root, limit, visited, done, stack[i + 1]);
    }
    forall i | n <= i < |after| ensures VisitOk(t, root, limit, seen, done + {v.dir}, after[i]) && after[i].dir !in visited {
      var c := pushes[i - n];
      assert c in pushes && after[i] == Visit(c, v.depth + 1);
      assert Holds(t, v.dir, c) && At(t, root, c, v.depth + 1);
    }
    forall i, j | 0 <= i < j < |after| ensures after[i].dir != after[j].dir {
      if n <= i {
        assert after[i].dir == pushes[i - n] && after[j].dir == pushes[j - n];
      }
    }
  }

  /** With an empty stack exactly the directories within the limit are done. */
  lemma EndWalk(t: Tree, root: nat, limit: nat, visited: set<nat>, done: set<nat>)
    requires Sound(t, root) && Walk(t, root, limit, [], visited, done) && done <= t.folders.Keys
    ensures EntriesIn(t, done) == Wanted(t, root, limit)
  {
    forall d | d in t.folders && Within(t, root, d, limit) ensures d in done {
      var k: nat :| k <= limit && At(t, root, d, k);
      ReachedIsDone(t, root, limit, visited, done, d, k);
    }
    assert done == set d | d in t.folders && Within(t, root, d, limit);
  }

  lemma {:induction false} ReachedIsDone(t: Tree, root: nat, limit: nat, visited: set<nat>, done: set<nat>, d: nat, k: nat)
    requires Walk(t, root, limit, [], visited, done) && k <= limit && At(t, root, d, k)
    ensures d in done
    decreases k
  {
    assert !Pending([], d);
    if k > 0 {
      var p: nat :| At(t, root, p, k - 1) && Holds(t, p, d);
      ReachedIsDone(t, root, limit, visited, done, p, k - 1);
      assert Opened(t, root, limit, visited, p);
    }
  }

  function Set(s: seq<nat>): set<nat> {
    set x | x in s
  }

  /** The pushes of two pages are the new ones of both. */
  lemma PushesMore(a: seq<nat>, b: seq<nat>, ab: seq<nat>, visited: set<nat>, some: seq<nat>, found: seq<nat>)
    requires forall x :: x in ab <==> x in a || x in b
    requires Distinct(some) && forall c :: c in some <==> c in a && c !in visited
    requires Distinct(found) && forall c :: c in found <==> c in b && c !in visited + Set(a)
    ensures Distinct(some + found) && forall c :: c in some + found <==> c in ab && c !in visited
    ensures visited + Set(a) + Set(b) == visited + Set(ab)
  {
    var all := some + found;
    forall i, j | 0 <= i < j < |all| ensures all[i] != all[j] {
      if i < |some| <= j {
        assert all[i] in some && all[j] in found;
      }
    }
  }

  lemma EntriesUnion(a: seq<nat>, b: seq<nat>, ab: seq<nat>, dir: nat)
    requires forall x :: x in ab <==> x in a || x in b
    ensures EntriesOf(ab, dir) == EntriesOf(a, dir) + EntriesOf(b, dir)
  {
  }

  /** What request `r + 1` of a directory meets, and the cursor it leaves. */
  lemma Turn(ids: seq<nat>, size: nat, r: nat)
    requires size > 0 && Descending(ids)
    ensures var n := Pages(|ids|, size);
            var page := PageAt(ids, CursorOf(ids, size, r % n), size);
            && page.next == CursorOf(ids, size, (r + 1) % n)
            && (forall x :: x in Listed(ids, size, r + 1, n) <==> x in Listed(ids, size, r, n) || x in page.items)
  {
    var n := Pages(|ids|, size);
    NextTurn(r, n);
    PageAtCursor(ids, size, r % n);
    PageAtCursor(ids, size, 0);
    SmallMod(r, n);
    ListedMore(ids, size, r, r % n);
  }

  lemma SmallMod(r: nat, n: nat)
    requires n > 0
    ensures r < n ==> r % n == r
  {
    if r < n {
      ModOf(0, n, r);
    }
  }

  lemma CursorEmpty(ids: seq<nat>, size: nat, k: nat)
    requires size > 0 && Descending(ids) && k < Pages(|ids|, size)
    ensures CursorOf(ids, size, k) == 0 <==> k == 0
  {
    PageAtCursor(ids, size, k);
  }

  lemma BothEmpty(t: Tree, d: nat, size: nat, r: nat)
    requires size > 0 && d in t.files && d in t.folders && Descending(t.files[d]) && Descending(t.folders[d]) && r > 0
    requires CursorOf(t.files[d], size, r % Pages(|t.files[d]|, size)) == 0
    requires CursorOf(t.folders[d], size, r % Pages(|t.folders[d]|, size)) == 0
    requires forall q | 0 < q < r :: !(q % Pages(|t.files[d]|, size) == 0 && q % Pages(|t.folders[d]|, size) == 0)
    ensures IsLcm(Pages(|t.files[d]|, size), Pages(|t.folders[d]|, size), r)
    ensures Listed(t.files[d], size, r, Pages(|t.files[d]|, size)) == t.files[d]
    ensures Listed(t.folders[d], size, r, Pages(|t.folders[d]|, size)) == t.folders[d]
  {
    var nf, nd := Pages(|t.files[d]|, size), Pages(|t.folders[d]|, size);
    CursorEmpty(t.files[d], size, r % nf);
    CursorEmpty(t.folders[d], size, r % nd);
    MultipleCovers(r, nf);
    MultipleCovers(r, nd);
    ListedAll(t.files[d], size, r);
    ListedAll(t.folders[d], size, r);
  }

  lemma NotBothEmpty(t: Tree, d: nat, size: nat, r: nat)
    requires size > 0 && d in t.files && d in t.folders && Descending(t.files[d]) && Descending(t.folders[d]) && r > 0
    requires !(CursorOf(t.files[d], size, r % Pages(|t.files[d]|, size)) == 0 && CursorOf(t.folders[d], size, r % Pages(|t.folders[d]|, size)) == 0)
    ensures !(r % Pages(|t.files[d]|, size) == 0 && r % Pages(|t.folders[d]|, size) == 0)
    ensures r != Pages(|t.files[d]|, size) * Pages(|t.folders[d]|, size)
  {
    var nf, nd := Pages(|t.files[d]|, size), Pages(|t.folders[d]|, size);
    CursorEmpty(t.files[d], size, r % nf);
    CursorEmpty(t.folders[d], size, r % nd);
    ProductTurns(nf, nd);
  }
}

/** How far a running delete-directory task is: which folders were expanded, which are
    finished, and what the frames on the stack still owe. */
module DeleteProgress {
  import opened Rows
  import opened DeletePlan
  import opened DeleteStack

  /** All live files and subfolders of the frame's folder are behind its cursors. */
  ghost predicate Exhausted(db: Tables, t: Task, f: Frame) {
    && (forall x: nat | FileIn(db, t, f.id, x) :: x <= f.fileCursor)
    && (forall c: nat | Child(db, t, f.id, c) :: c <= f.subCursor)
  }

  /** What the frame knows about residue below its folder so far. */
  ghost predicate ResidueSoFar(db: Tables, t: Task, f: Frame, done: set<nat>) {
    f.residue <==> HasInvisible(db, t, f.id) || exists c :: c in done && VisibleChild(db, t, f.id, c) && Dirty(db, t, c)
  }

  ghost predicate FrameOk(db: Tables, t: Task, stack: seq<Frame>, j: nat, expanded: set<nat>, done: set<nat>)
    requires j < |stack|
  {
    var f := stack[j];
    && f.id !in done && Reach(db, t, t.root, f.id)
    && (j == 0 ==> f.id == t.root)
    && (j > 0 ==> 0 <= f.parent < j && VisibleChild(db, t, stack[f.parent].id, f.id))
    && (f.id in expanded ==> Exhausted(db, t, f) && ResidueSoFar(db, t, f, done))
    && (f.id !in expanded ==> f.fileCursor == 0 && f.subCursor == 0 && !f.residue)
  }

  /** Some frame for `c` has the frame of `x` as its parent. */
  ghost predicate Waiting(stack: seq<Frame>, x: nat, c: nat) {
    exists j :: 0 < j < |stack| && stack[j].id == c && 0 <= stack[j].parent < j && stack[stack[j].parent].id == x
  }

  ghost predicate OnStack(stack: seq<Frame>, x: nat) {
    exists j :: 0 <= j < |stack| && stack[j].id == x
  }

  ghost predicate DistinctIds(stack: seq<Frame>) {
    forall i, j | 0 <= i < j < |stack| :: stack[i].id != stack[j].id
  }

  /** Finished folders are expanded, everything expanded is finished or on the stack, and
      every visible child of an expanded folder is finished or waits on its frame. */
  ghost predicate Covered(db: Tables, t: Task, stack: seq<Frame>, expanded: set<nat>, done: set<nat>) {
    && done <= expanded
    && (forall x | x in expanded :: Reach(db, t, t.root, x) && (x in done || OnStack(stack, x)))
    && (forall x, c | x in expanded && VisibleChild(db, t, x, c) :: c in done || (x !in done && Waiting(stack, x, c)))
    && (forall c | c != t.root && (c in expanded || OnStack(stack, c)) :: c in db.folders && db.folders[c].parent in expanded)
  }

  ghost predicate Data(db: Tables, t: Task, stack: seq<Frame>, expanded: set<nat>, done: set<nat>) {
    && Sound(db, t) && DistinctIds(stack)
    && (forall j | 0 <= j < |stack| :: FrameOk(db, t, stack, j, expanded, done))
    && Covered(db, t, stack, expanded, done)
  }

  // ----- the start -----

  lemma StartData(db: Tables, t: Task)
    requires Sound(db, t)
    ensures Data(db, t, [NewFrame(t.root, -1)], {}, {}) && Shape([NewFrame(t.root, -1)], 0, {})
    ensures Progress(db, t, {}, {}) == db
  {
    ReachSelf(db, t, t.root);
    var start := [NewFrame(t.root, -1)];
    assert FrameOk(db, t, start, 0, {}, {});
    assert start[..0] == [];
    assert Counted(start, 0);
    assert Progress(db, t, {}, {}).folders == db.folders && Progress(db, t, {}, {}).files == db.files;
  }

  // ----- expanding the top frame -----

  /** The listed ids are the visible children of `x`, each once. */
  ghost predicate ListsChildren(db: Tables, t: Task, x: nat, ids: seq<nat>) {
    && (forall c :: c in ids <==> VisibleChild(db, t, x, c))
    && forall i, j | 0 <= i < j < |ids| :: ids[i] != ids[j]
  }

  /** A folder's children are met for the first time when it is expanded. */
  lemma ChildIsNew(db: Tables, t: Task, stack: seq<Frame>, expanded: set<nat>, done: set<nat>, x: nat, c: nat)
    requires Data(db, t, stack, expanded, done) && x !in expanded && Reach(db, t, t.root, x) && VisibleChild(db, t, x, c)
    ensures c !in expanded && c !in done && !OnStack(stack, c) && c != t.root && c != x
  {
    ReachDown(db, t, t.root, x, c);
    assert c != t.root;
    if c == x {
      SelfChild(db, t, x);
    }
  }

  /** No reached folder is its own child. */
  lemma SelfChild(db: Tables, t: Task, x: nat)
    requires Sound(db, t) && Reach(db, t, t.root, x)
    ensures !Child(db, t, x, x)
  {
    if Child(db, t, x, x) {
      var path :| IsPath(db, t, path, t.root, x);
      SelfChildPath(db, t, path, x);
    }
  }

  lemma {:induction false} SelfChildPath(db: Tables, t: Task, path: seq<nat>, x: nat)
    requires Sound(db, t) && IsPath(db, t, path, t.root, x) && Child(db, t, x, x)
    ensures false
  {
    var n := |path| - 1;
    if n == 0 {
      ReachSelf(db, t, t.root);
    } else {
      assert VisibleChild(db, t, path[n - 1], path[n]);
      SelfChildPath(db, t, path[..n], x);
    }
  }

  /** What visiting folder `x` for the first time finds out. */
  ghost predicate Found(db: Tables, t: Task, x: nat, fileCursor: nat, subCursor: nat, residue: bool, ids: seq<nat>) {
    && ListsChildren(db, t, x, ids) && (residue <==> HasInvisible(db, t, x))
    && Exhausted(db, t, Frame(x, 0, 0, false, fileCursor, subCursor))
  }

  lemma ExpandTop(db: Tables, t: Task, stack: seq<Frame>, expanded: set<nat>, done: set<nat>, x: nat, f: Frame, residue: bool)
    requires Data(db, t, stack, expanded, done) && x !in expanded && Reach(db, t, t.root, x)
    requires f.id == x && f.residue == residue && (residue <==> HasInvisible(db, t, x))
    ensures ResidueSoFar(db, t, f, done)
  {
    forall c | c in done && VisibleChild(db, t, x, c) ensures false {
      ChildIsNew(db, t, stack, expanded, done, x, c);
    }
  }

  /** A frame whose parent was kept keeps its place when the top is expanded. */
  lemma OldFrame(db: Tables, t: Task, stack: seq<Frame>, after: seq<Frame>, j: nat, expanded: set<nat>, done: set<nat>, x: nat)
    requires j < |stack| <= |after| && FrameOk(db, t, stack, j, expanded, done)
    requires forall i | 0 <= i <= j :: after[i].id == stack[i].id
    requires after[j] == stack[j] && stack[j].id != x
    ensures FrameOk(db, t, after, j, expanded + {x}, done)
  {
  }

  lemma TopFrame(db: Tables, t: Task, stack: seq<Frame>, after: seq<Frame>, j: nat, expanded: set<nat>, done: set<nat>)
    requires j < |stack| <= |after| && FrameOk(db, t, stack, j, expanded, done)
    requires forall i | 0 <= i <= j :: after[i].id == stack[i].id
    requires after[j].parent == stack[j].parent && Exhausted(db, t, after[j]) && ResidueSoFar(db, t, after[j], done)
    ensures FrameOk(db, t, after, j, expanded + {stack[j].id}, done)
  {
    hide Exhausted, ResidueSoFar, Reach, VisibleChild;
  }

  lemma ChildFrame(db: Tables, t: Task, stack: seq<Frame>, expanded: set<nat>, done: set<nat>, x: nat, after: seq<Frame>, j: nat)
    requires Data(db, t, stack, expanded, done) && x !in expanded && Reach(db, t, t.root, x)
    requires 0 < j < |after| && after[j].id != x
    requires 0 <= after[j].parent < j && after[after[j].parent].id == x
    requires VisibleChild(db, t, x, after[j].id) && after[j] == NewFrame(after[j].id, after[j].parent)
    ensures FrameOk(db, t, after, j, expanded + {x}, done)
  {
    hide Data, FrameOk, VisibleChild, Reach;
    ChildIsNew(db, t, stack, expanded, done, x, after[j].id);
    ReachDown(db, t, t.root, x, after[j].id);
    ChildFrameOk(db, t, expanded + {x}, done, after, j);
  }

  lemma ChildFrameOk(db: Tables, t: Task, expanded: set<nat>, done: set<nat>, after: seq<Frame>, j: nat)
    requires 0 < j < |after| && 0 <= after[j].parent < j
    requires VisibleChild(db, t, after[after[j].parent].id, after[j].id) && Reach(db, t, t.root, after[j].id)
    requires after[j] == NewFrame(after[j].id, after[j].parent) && after[j].id !in expanded && after[j].id !in done
    ensures FrameOk(db, t, after, j, expanded, done)
  {
  }

  lemma ExpandFrames(db: Tables, t: Task, stack: seq<Frame>, expanded: set<nat>, done: set<nat>,
                     fileCursor: nat, subCursor: nat, residue: bool, ids: seq<nat>, j: nat)
    requires Data(db, t, stack, expanded, done) && |stack| > 0 && stack[|stack| - 1].id !in expanded
    requires Found(db, t, stack[|stack| - 1].id, fileCursor, subCursor, residue, ids)
    requires j < |stack| + |ids|
    ensures var after := Visited(stack, |stack| - 1, fileCursor, subCursor, residue, ids);
            j < |after| && FrameOk(db, t, after, j, expanded + {stack[|stack| - 1].id}, done)
  {
    hide FrameOk, Covered, Reach, VisibleChild, HasInvisible, Sound;
    var n := |stack|;
    var x := stack[n - 1].id;
    var after := Visited(stack, n - 1, fileCursor, subCursor, residue, ids);
    FrameFacts(db, t, stack, expanded, done, n - 1);
    if j < n - 1 {
      OldFrame(db, t, stack, after, j, expanded, done, x);
    } else if j == n - 1 {
      ExpandTop(db, t, stack, expanded, done, x, after[j], residue);
      TopFrame(db, t, stack, after, j, expanded, done);
    } else {
      var c := ids[j - n];
      assert after[j] == NewFrame(c, n - 1);
      assert c in ids;
      ChildIsNew(db, t, stack, expanded, done, x, c);
      ChildFrame(db, t, stack, expanded, done, x, after, j);
    }
  }

  lemma StillWaiting(stack: seq<Frame>, after: seq<Frame>, x: nat, c: nat)
    requires Waiting(stack, x, c) && |stack| <= |after|
    requires forall j | 0 <= j < |stack| :: after[j].id == stack[j].id && after[j].parent == stack[j].parent
    ensures Waiting(after, x, c)
  {
    var j :| 0 < j < |stack| && stack[j].id == c && 0 <= stack[j].parent < j && stack[stack[j].parent].id == x;
    assert after[j].id == c && after[after[j].parent].id == x;
  }

  lemma ExpandDistinct(db: Tables, t: Task, stack: seq<Frame>, expanded: set<nat>, done: set<nat>,
                       fileCursor: nat, subCursor: nat, residue: bool, ids: seq<nat>)
    requires Data(db, t, stack, expanded, done) && |stack| > 0 && stack[|stack| - 1].id !in expanded
    requires Found(db, t, stack[|stack| - 1].id, fileCursor, subCursor, residue, ids)
    ensures DistinctIds(Visited(stack, |stack| - 1, fileCursor, subCursor, residue, ids))
    ensures forall k | 0 <= k < |ids| :: ids[k] !in expanded && ids[k] != stack[|stack| - 1].id
  {
    var n := |stack|;
    var x := stack[n - 1].id;
    assert FrameOk(db, t, stack, n - 1, expanded, done);
    hide FrameOk, Covered, Reach, VisibleChild, HasInvisible, Sound, OnStack;
    forall k | 0 <= k < |ids| ensures ids[k] !in expanded && ids[k] != x && !OnStack(stack, ids[k]) {
      assert ids[k] in ids;
      ChildIsNew(db, t, stack, expanded, done, x, ids[k]);
    }
    VisitedDistinct(stack, fileCursor, subCursor, residue, ids);
  }

  lemma VisitedDistinct(stack: seq<Frame>, fileCursor: nat, subCursor: nat, residue: bool, ids: seq<nat>)
    requires |stack| > 0 && DistinctIds(stack)
    requires forall i, j | 0 <= i < j < |ids| :: ids[i] != ids[j]
    requires forall k | 0 <= k < |ids| :: !OnStack(stack, ids[k])
    ensures DistinctIds(Visited(stack, |stack| - 1, fileCursor, subCursor, residue, ids))
  {
    var n := |stack|;
    var after := Visited(stack, n - 1, fileCursor, subCursor, residue, ids);
    forall i, j | 0 <= i < j < |after| ensures after[i].id != after[j].id {
      VisitedFrames(stack, n - 1, fileCursor, subCursor, residue, ids, i);
      VisitedFrames(stack, n - 1, fileCursor, subCursor, residue, ids, j);
      assert i < n ==> OnStack(stack, stack[i].id);
    }
  }

  lemma ExpandCovered(db: Tables, t: Task, stack: seq<Frame>, expanded: set<nat>, done: set<nat>,
                      after: seq<Frame>, ids: seq<nat>)
    requires Covered(db, t, stack, expanded, done) && |stack| > 0
    requires var x := stack[|stack| - 1].id;
             x !in done && Reach(db, t, t.root, x) && ListsChildren(db, t, x, ids)
    requires |after| == |stack| + |ids|
    requires forall j | 0 <= j < |stack| :: after[j].id == stack[j].id && after[j].parent == stack[j].parent
    requires forall j | |stack| <= j < |after| :: after[j].id == ids[j - |stack|] && after[j].parent == |stack| - 1
    ensures Covered(db, t, after, expanded + {stack[|stack| - 1].id}, done)
  {
    var n := |stack|;
    var x := stack[n - 1].id;
    forall y | OnStack(stack, y) ensures OnStack(after, y) {
      var j :| 0 <= j < n && stack[j].id == y;
      assert after[j].id == y;
    }
    assert after[n - 1].id == x;
    forall y, c | y in expanded + {x} && VisibleChild(db, t, y, c)
      ensures c in done || (y !in done && Waiting(after, y, c))
    {
      if y == x {
        assert c in ids;
        var k :| 0 <= k < |ids| && ids[k] == c;
        assert after[n + k].id == c && after[after[n + k].parent].id == x;
      } else if c !in done {
        StillWaiting(stack, after, y, c);
      }
    }
    forall c | c != t.root && (c in expanded + {x} || OnStack(after, c))
      ensures c in db.folders && db.folders[c].parent in expanded + {x}
    {
      if c !in expanded {
        assert OnStack(after, c);
        var j :| 0 <= j < |after| && after[j].id == c;
        if j < n {
          assert OnStack(stack, c);
        } else {
          assert c in ids;
        }
      }
    }
  }

  lemma FrameFacts(db: Tables, t: Task, stack: seq<Frame>, expanded: set<nat>, done: set<nat>, j: nat)
    requires Data(db, t, stack, expanded, done) && j < |stack|
    ensures stack[j].id !in done && Reach(db, t, t.root, stack[j].id)
  {
    assert FrameOk(db, t, stack, j, expanded, done);
  }

  /** Expanding the top frame. */
  lemma ExpandData(db: Tables, t: Task, stack: seq<Frame>, expanded: set<nat>, done: set<nat>,
                   fileCursor: nat, subCursor: nat, residue: bool, ids: seq<nat>)
    requires Data(db, t, stack, expanded, done) && Shape(stack, |stack| - 1, expanded)
    requires |stack| > 0 && stack[|stack| - 1].id !in expanded
    requires Found(db, t, stack[|stack| - 1].id, fileCursor, subCursor, residue, ids)
    ensures var after := Visited(stack, |stack| - 1, fileCursor, subCursor, residue, ids);
            var grown := expanded + {stack[|stack| - 1].id};
            Data(db, t, after, grown, done) && Shape(after, |stack| - 1, grown)
  {
    hide FrameOk, Covered, Shape, ListsChildren, HasInvisible, Exhausted;
    var n := |stack|;
    var after := Visited(stack, n - 1, fileCursor, subCursor, residue, ids);
    ExpandDistinct(db, t, stack, expanded, done, fileCursor, subCursor, residue, ids);
    var grown := expanded + {stack[n - 1].id};
    forall j | 0 <= j < |after| ensures FrameOk(db, t, after, j, grown, done) {
      ExpandFrames(db, t, stack, expanded, done, fileCursor, subCursor, residue, ids, j);
    }
    forall j | 0 <= j < |after| ensures after[j].id == (if j < n then stack[j].id else ids[j - n])
                                        && after[j].parent == if j < n then stack[j].parent else n - 1 {
      VisitedFrames(stack, n - 1, fileCursor, subCursor, residue, ids, j);
    }
    FrameFacts(db, t, stack, expanded, done, n - 1);
    ExpandCovered(db, t, stack, expanded, done, after, ids);
    ExpandShape(stack, expanded, fileCursor, subCursor, residue, ids);
  }

  // ----- popping the finished top frame -----

  lemma TopChildrenDone(db: Tables, t: Task, stack: seq<Frame>, expanded: set<nat>, done: set<nat>, c: nat)
    requires Data(db, t, stack, expanded, done) && |stack| > 0
    requires stack[|stack| - 1].id in expanded && VisibleChild(db, t, stack[|stack| - 1].id, c)
    ensures c in done
  {
  }

  /** When a frame is finished its residue flag says whether anything stays below it. */
  lemma FinishedResidue(db: Tables, t: Task, stack: seq<Frame>, expanded: set<nat>, done: set<nat>)
    requires Data(db, t, stack, expanded, done) && |stack| > 0 && stack[|stack| - 1].id in expanded
    ensures stack[|stack| - 1].residue <==> Dirty(db, t, stack[|stack| - 1].id)
  {
    var top := stack[|stack| - 1];
    assert FrameOk(db, t, stack, |stack| - 1, expanded, done);
    DirtyByChildren(db, t, top.id);
    forall c | VisibleChild(db, t, top.id, c) ensures c in done {
      TopChildrenDone(db, t, stack, expanded, done, c);
    }
  }

  lemma PopFrames(db: Tables, t: Task, stack: seq<Frame>, expanded: set<nat>, done: set<nat>, j: nat)
    requires Data(db, t, stack, expanded, done) && |stack| > 1 && stack[|stack| - 1].id in expanded
    requires 0 <= stack[|stack| - 1].parent < |stack| - 1 && stack[stack[|stack| - 1].parent].pendingChildren > 0
    requires stack[stack[|stack| - 1].parent].id in expanded
    requires j < |stack| - 1
    ensures FrameOk(db, t, Popped(stack), j, expanded, done + {stack[|stack| - 1].id})
  {
    var n := |stack| - 1;
    var x, p, after := stack[n].id, stack[n].parent, Popped(stack);
    assert FrameOk(db, t, stack, j, expanded, done);
    assert FrameOk(db, t, stack, n, expanded, done);
    assert stack[j].id != x;
    FinishedResidue(db, t, stack, expanded, done);
    assert db.folders[x].parent == stack[p].id;
  }

  lemma PopCovered(db: Tables, t: Task, stack: seq<Frame>, after: seq<Frame>, expanded: set<nat>, done: set<nat>)
    requires Data(db, t, stack, expanded, done) && |stack| > 0 && stack[|stack| - 1].id in expanded
    requires |after| == |stack| - 1
    requires forall j | 0 <= j < |after| :: after[j].id == stack[j].id && after[j].parent == stack[j].parent
    ensures Covered(db, t, after, expanded, done + {stack[|stack| - 1].id})
  {
    var n := |stack| - 1;
    var x := stack[n].id;
    PopOnStack(stack, after);
    hide FrameOk, Reach, VisibleChild, Sound, OnStack, Waiting;
    forall y, c | y in expanded && VisibleChild(db, t, y, c)
      ensures c in done + {x} || (y !in done + {x} && Waiting(after, y, c))
    {
      if y == x {
        TopChildrenDone(db, t, stack, expanded, done, c);
      } else if c !in done && c != x {
        PopWaiting(stack, after, y, c);
      }
    }
  }

  lemma PopOnStack(stack: seq<Frame>, after: seq<Frame>)
    requires |stack| == |after| + 1 && forall j | 0 <= j < |after| :: after[j].id == stack[j].id
    ensures forall y | OnStack(stack, y) && y != stack[|stack| - 1].id :: OnStack(after, y)
    ensures forall y | OnStack(after, y) :: OnStack(stack, y)
  {
    forall y | OnStack(stack, y) && y != stack[|stack| - 1].id ensures OnStack(after, y) {
      var j :| 0 <= j < |stack| && stack[j].id == y;
      assert after[j].id == y;
    }
    forall y | OnStack(after, y) ensures OnStack(stack, y) {
      var j :| 0 <= j < |after| && after[j].id == y;
      assert stack[j].id == y;
    }
  }

  lemma PopWaiting(stack: seq<Frame>, after: seq<Frame>, y: nat, c: nat)
    requires |stack| == |after| + 1 && c != stack[|stack| - 1].id && Waiting(stack, y, c)
    requires forall j | 0 <= j < |after| :: after[j].id == stack[j].id && after[j].parent == stack[j].parent
    ensures Waiting(after, y, c)
  {
    var j :| 0 < j < |stack| && stack[j].id == c && 0 <= stack[j].parent < j && stack[stack[j].parent].id == y;
    assert after[j].id == c && after[after[j].parent].id == y;
  }

  /** Popping the finished top frame when it is not the root. */
  lemma PopData(db: Tables, t: Task, stack: seq<Frame>, expanded: set<nat>, done: set<nat>)
    requires Data(db, t, stack, expanded, done) && Shape(stack, |stack| - 1, expanded)
    requires |stack| > 1 && stack[|stack| - 1].id in expanded
    ensures 0 <= stack[|stack| - 1].parent < |stack| - 1 && stack[stack[|stack| - 1].parent].pendingChildren > 0
    ensures stack[stack[|stack| - 1].parent].id in expanded
    ensures Data(db, t, Popped(stack), expanded, done + {stack[|stack| - 1].id})
    ensures Shape(Popped(stack), stack[|stack| - 1].parent, expanded)
  {
    PopShape(stack, expanded);
    var n := |stack| - 1;
    var x, after := stack[n].id, Popped(stack);
    forall j | 0 <= j < n ensures FrameOk(db, t, after, j, expanded, done + {x}) {
      PopFrames(db, t, stack, expanded, done, j);
    }
    forall j | 0 <= j < n ensures after[j].id == stack[j].id && after[j].parent == stack[j].parent {
    }
    PopCovered(db, t, stack, after, expanded, done);
  }

  /** When the root frame is finished, everything reachable is. */
  lemma RootFinished(db: Tables, t: Task, stack: seq<Frame>, expanded: set<nat>, done: set<nat>)
    requires Data(db, t, stack, expanded, done) && |stack| == 1 && stack[0].id in expanded
    ensures stack[0].id == t.root
    ensures done + {t.root} == expanded == Reached(db, t)
  {
    assert FrameOk(db, t, stack, 0, expanded, done);
    forall x, c | x in done + {t.root} && VisibleChild(db, t, x, c) ensures c in done + {t.root} {
      if x == t.root {
        TopChildrenDone(db, t, stack, expanded, done, c);
      }
    }
    forall g | g in Reached(db, t) ensures g in done + {t.root} {
      ClosedHoldsReach(db, t, done + {t.root}, t.root, g);
    }
    forall x | x in expanded ensures x in Reached(db, t) && x in done + {t.root} {
      ReachedLive(db, t, x);
      assert x !in done ==> OnStack(stack, x);
    }
  }

  // ----- every state on the way is a legal interruption -----

  /** The state reached so far, with any part of one more folder's files deleted. */
  ghost predicate MidBatch(db: Tables, t: Task, expanded: set<nat>, done: set<nat>, x: nat, now: Tables) {
    && now.folders == Progress(db, t, expanded, done).folders && now.files.Keys == db.files.Keys
    && forall y | y in db.files ::
         now.files[y] == FileNow(db, t, expanded, y) || now.files[y] == FileNow(db, t, expanded + {x}, y)
  }

  lemma MidBatchIsPartial(db: Tables, t: Task, stack: seq<Frame>, expanded: set<nat>, done: set<nat>, x: nat, now: Tables)
    requires Data(db, t, stack, expanded, done) && Reach(db, t, t.root, x)
    requires MidBatch(db, t, expanded, done, x, now)
    ensures Partial(db, t, now)
  {
    ReachedLive(db, t, x);
    forall y | y in expanded ensures y in Reached(db, t) {
      ReachedLive(db, t, y);
    }
    forall f, g | f in db.folders && g in db.folders && Gone(db, now, f) && Reach(db, t, f, g)
      ensures Gone(db, now, g) && forall y | VisibleFile(db, t, g, y) :: now.files[y].deleted
    {
      assert f in done && !Dirty(db, t, f);
      ClosedHoldsReach(db, t, done, f, g);
      ReachedLive(db, t, g);
      if Dirty(db, t, g) {
        var h :| Reach(db, t, g, h) && HasInvisible(db, t, h);
        ReachTrans(db, t, f, g, h);
      }
    }
  }
}

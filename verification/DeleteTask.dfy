/** The delete-directory task as it runs: cursor batches, an explicit stack revisited
    frame by frame, and a process that may stop before any write. */
module DeleteTask {
  import opened Rows
  import opened DeletePlan
  import opened DeleteStack
  import opened DeleteProgress
  import opened Batches

  const DELETE_BATCH_SIZE: nat := 100

  function FilesPast(db: Tables, t: Task, p: nat, cursor: nat): set<nat> {
    set x | x in db.files && FileIn(db, t, p, x) && x > cursor
  }

  function SubfoldersPast(db: Tables, t: Task, p: nat, cursor: nat): set<nat> {
    set c | c in db.folders && Child(db, t, p, c) && c > cursor
  }

  /** The files table after the visible files of folder `p` with ids in (from, to] were
      deleted. */
  ghost function DeletedUpTo(db: Tables, t: Task, p: nat, from: nat, to: nat): map<nat, FileRow> {
    map x | x in db.files ::
      if VisibleFile(db, t, p, x) && from < x <= to then db.files[x].(deleted := true) else db.files[x]
  }

  /** Some live file of `p` with an id in (from, to] is invisible. */
  ghost predicate InvisibleFileUpTo(db: Tables, t: Task, p: nat, from: nat, to: nat) {
    exists x: nat :: FileIn(db, t, p, x) && !VisibleFile(db, t, p, x) && from < x <= to
  }

  function LiveFiles(files: map<nat, FileRow>): set<nat> {
    set x | x in files && !files[x].deleted
  }

  /** What a run took from its budget beyond one for every file it deleted. */
  function Spent(budget0: nat, budget: nat, files0: map<nat, FileRow>, files: map<nat, FileRow>): int {
    budget0 - budget - (|LiveFiles(files0)| - |LiveFiles(files)|)
  }

  /** What the frames so far may have cost: one for every first visit, two for every
      finish and the return to the parent it leads to. */
  function Allowance(expanded: set<nat>, done: set<nat>, returning: bool): int {
    |expanded| + 2 * |done| - if returning then 1 else 0
  }

  lemma OneMoreFrame(all: set<nat>, expanded: set<nat>, done: set<nat>, x: nat)
    requires x in all && expanded <= all && done <= all && x !in done
    ensures |expanded + {x}| == |expanded| + if x in expanded then 0 else 1
    ensures |done + {x}| == |done| + 1
    ensures |expanded + {x}| <= |all| && |done + {x}| <= |all|
  {
    assert x in expanded ==> expanded + {x} == expanded;
    SubsetSize(expanded + {x}, all);
    SubsetSize(done + {x}, all);
  }

  /** A batch that writes deletes a live file for good. */
  lemma FewerLive(before: map<nat, FileRow>, after: map<nat, FileRow>, gone: set<nat>)
    requires after == map x | x in before :: if x in gone then before[x].(deleted := true) else before[x]
    ensures |LiveFiles(after)| <= |LiveFiles(before)|
    ensures (exists x :: x in gone && x in LiveFiles(before)) ==> |LiveFiles(after)| < |LiveFiles(before)|
  {
    var rest := LiveFiles(before) - LiveFiles(after);
    assert LiveFiles(before) == LiveFiles(after) + rest;
    if x :| x in gone && x in LiveFiles(before) {
      assert x in rest;
    }
  }

  /** The operator may see one of the files. */
  ghost predicate SomeVisible(files: map<nat, FileRow>, t: Task, ids: seq<nat>) {
    exists x | x in ids && x in files :: ItemVisible(files[x].rule, t.op)
  }

  class Runner {
    var folders: map<nat, FolderRow>
    var files: map<nat, FileRow>
    var taskPresent: bool

    /** How many more database writes this process performs before it stops: a crash,
        a lost lease or a disabled operator. */
    var budget: nat

    constructor (db: Tables, budget: nat)
      ensures Now() == db && taskPresent && this.budget == budget
    {
      folders, files, taskPresent, this.budget := db.folders, db.files, true, budget;
    }

    ghost function Now(): Tables
      reads this`folders, this`files
    {
      Tables(folders, files)
    }

    /** Live files of folder `p` with ids past the cursor, smallest first. */
    method LoadFilesBatch(t: Task, p: nat, cursor: nat, limit: nat) returns (ids: seq<nat>)
      ensures IsBatch(ids, FilesPast(Now(), t, p, cursor), limit)
    {
      ids := FirstIds(FilesPast(Tables(folders, files), t, p, cursor), limit);
    }

    method LoadSubfoldersBatch(t: Task, p: nat, cursor: nat, limit: nat) returns (ids: seq<nat>)
      ensures IsBatch(ids, SubfoldersPast(Now(), t, p, cursor), limit)
    {
      ids := FirstIds(SubfoldersPast(Tables(folders, files), t, p, cursor), limit);
    }

    /** One batch: the visible files are soft-deleted in one transaction. */
    method DeleteBatch(t: Task, p: nat, ids: seq<nat>) returns (ok: bool, residue: bool)
      requires forall x | x in ids :: FileIn(Now(), t, p, x)
      modifies this`files, this`budget
      ensures files == if ok then (map x | x in old(files) ::
                                     if x in ids && ItemVisible(old(files)[x].rule, t.op) then old(files)[x].(deleted := true)
                                     else old(files)[x])
                       else old(files)
      ensures forall x | x in ids :: x in old(files)
      ensures residue <==> exists x | x in ids :: !ItemVisible(old(files)[x].rule, t.op)
      ensures !ok ==> budget == 0
      ensures ok ==> budget == old(budget) - if SomeVisible(old(files), t, ids) then 1 else 0
      ensures budget <= old(budget) && old(budget) - budget <= |LiveFiles(old(files))| - |LiveFiles(files)|
    {
      var visible: seq<nat> := [];
      residue := false;
      var i := 0;
      forall x | x in ids ensures x in files {
        assert FileIn(Now(), t, p, x);
      }
      while i < |ids|
        invariant 0 <= i <= |ids|
        invariant forall j | 0 <= j < |ids| :: ids[j] in files
        invariant residue <==> exists j :: 0 <= j < i && !ItemVisible(files[ids[j]].rule, t.op)
        invariant forall x :: x in visible <==> x in ids[..i] && ItemVisible(files[x].rule, t.op)
      {
        assert ids[i] in ids;
        if ItemVisible(files[ids[i]].rule, t.op) {
          visible := visible + [ids[i]];
        } else {
          residue := true;
        }
        i := i + 1;
      }
      ok := true;
      if |visible| > 0 {
        if budget == 0 {
          ok := false;
          return;
        }
        budget := budget - 1;
        ghost var before := files;
        ghost var gone := set x | x in visible;
        FirstIsMember(visible);
        assert visible[0] in ids && FileIn(Now(), t, p, visible[0]);
        assert visible[0] in gone && visible[0] in LiveFiles(before);
        files := map x | x in files :: if x in visible then files[x].(deleted := true) else files[x];
        FewerLive(before, files, gone);
      } else {
        assert files == map x | x in files ::
            if x in ids && ItemVisible(files[x].rule, t.op) then files[x].(deleted := true) else files[x];
      }
    }

    /** First loop of a frame: delete the visible files past the cursor, batch by batch. */
    method ProcessFiles(t: Task, p: nat, start: nat, residue0: bool) returns (cursor: nat, residue: bool, ok: bool)
      modifies this`files, this`budget
      ensures cursor >= start && files == DeletedUpTo(old(Now()), t, p, start, cursor)
      ensures residue <==> residue0 || InvisibleFileUpTo(old(Now()), t, p, start, cursor)
      ensures ok ==> forall x: nat | FileIn(old(Now()), t, p, x) :: x <= cursor
      ensures cursor == start || cursor in FilesPast(old(Now()), t, p, start)
      ensures !ok ==> budget == 0
      ensures budget <= old(budget) && old(budget) - budget <= |LiveFiles(old(files))| - |LiveFiles(files)|
    {
      hide SomeVisible;
      ghost var db := Now();
      cursor, residue, ok := start, residue0, true;
      assert files == DeletedUpTo(db, t, p, start, start);
      while true
        invariant folders == db.folders
        invariant cursor >= start && files == DeletedUpTo(db, t, p, start, cursor)
        invariant cursor == start || cursor in FilesPast(db, t, p, start)
        invariant residue <==> residue0 || InvisibleFileUpTo(db, t, p, start, cursor)
        invariant budget <= old(budget) && old(budget) - budget <= |LiveFiles(old(files))| - |LiveFiles(files)|
        decreases FilesPast(db, t, p, cursor)
      {
        var ids := LoadFilesBatch(t, p, cursor, DELETE_BATCH_SIZE);
        PastUnchanged(db, Now(), t, p, start, cursor);
        if |ids| == 0 {
          assert FilesPast(db, t, p, cursor) == {};
          return;
        }
        var found: bool;
        ghost var before := Now();
        ok, found := DeleteBatch(t, p, ids);
        if !ok {
          return;
        }
        ghost var last := ids[|ids| - 1];
        BatchEffect(db, before, files, t, p, start, cursor, ids);
        residue := residue || found;
        cursor := ids[|ids| - 1];
      }
    }

    /** Second loop of a frame: list the subfolders past the cursor, batch by batch. */
    method ProcessSubfolders(t: Task, p: nat, start: nat, residue0: bool) returns (children: seq<nat>, cursor: nat, residue: bool)
      ensures cursor >= start && (forall c: nat | Child(Now(), t, p, c) :: c <= cursor)
      ensures forall c: nat :: c in children <==> VisibleChild(Now(), t, p, c) && c > start
      ensures forall i, j | 0 <= i < j < |children| :: children[i] < children[j]
      ensures residue <==> residue0 || exists c: nat :: Child(Now(), t, p, c) && !VisibleChild(Now(), t, p, c) && c > start
      ensures cursor == start || cursor in SubfoldersPast(Now(), t, p, start)
    {
      children, cursor, residue := [], start, residue0;
      ghost var db := Now();
      while true
        invariant cursor >= start && (cursor == start || cursor in SubfoldersPast(db, t, p, start))
        invariant forall c: nat :: c in children <==> VisibleChild(db, t, p, c) && start < c <= cursor
        invariant forall i, j | 0 <= i < j < |children| :: children[i] < children[j]
        invariant residue <==> residue0 || InvisibleSubUpTo(db, t, p, start, cursor)
        decreases SubfoldersPast(db, t, p, cursor)
      {
        var ids := LoadSubfoldersBatch(t, p, cursor, DELETE_BATCH_SIZE);
        if |ids| == 0 {
          forall c: nat | Child(db, t, p, c) ensures c <= cursor {
            assert c !in SubfoldersPast(db, t, p, cursor);
          }
          return;
        }
        var shown: seq<nat>, found: bool := SplitVisible(t, ids);
        SubfolderBatch(db, t, p, start, cursor, ids, shown, children);
        children := children + shown;
        residue := residue || found;
        cursor := ids[|ids| - 1];
      }
    }

    /** The visible ones of a batch of folders, and whether any is invisible. */
    method SplitVisible(t: Task, ids: seq<nat>) returns (shown: seq<nat>, found: bool)
      requires forall c | c in ids :: c in folders
      requires forall i, j | 0 <= i < j < |ids| :: ids[i] < ids[j]
      ensures forall c :: c in shown <==> c in ids && ItemVisible(folders[c].rule, t.op)
      ensures forall i, j | 0 <= i < j < |shown| :: shown[i] < shown[j]
      ensures found <==> exists c | c in ids :: !ItemVisible(folders[c].rule, t.op)
    {
      shown, found := [], false;
      var i := 0;
      while i < |ids|
        invariant 0 <= i <= |ids|
        invariant forall c :: c in shown <==> c in ids[..i] && ItemVisible(folders[c].rule, t.op)
        invariant forall i, j | 0 <= i < j < |shown| :: shown[i] < shown[j]
        invariant found <==> exists c | c in ids[..i] :: !ItemVisible(folders[c].rule, t.op)
      {
        var c := ids[i];
        assert c in ids;
        assert ids[..i + 1] == ids[..i] + [c];
        if ItemVisible(folders[c].rule, t.op) {
          forall k | 0 <= k < |shown| ensures shown[k] < c {
            assert shown[k] in shown;
          }
          shown := shown + [c];
        } else {
          found := true;
        }
        i := i + 1;
      }
      assert ids[..|ids|] == ids;
    }

    /** One pass over the current frame: its files, then its subfolders. */
    method VisitFrame(t: Task, stack: seq<Frame>, idx: nat, ghost db: Tables, ghost expanded: set<nat>, ghost done: set<nat>)
      returns (after: seq<Frame>, ok: bool)
      requires Data(db, t, stack, expanded, done) && Shape(stack, idx, expanded)
      requires Now() == Progress(db, t, expanded, done)
      modifies this`files, this`budget
      ensures !ok ==> Partial(db, t, Now()) && budget == 0
      ensures budget <= old(budget) && old(budget) - budget <= |LiveFiles(old(files))| - |LiveFiles(files)|
      ensures ok ==> var grown := expanded + {stack[idx].id};
                     && Data(db, t, after, grown, done) && Shape(after, idx, grown)
                     && (stack[idx].id in expanded ==> after == stack)
                     && idx < |after| && after[idx].id == stack[idx].id && Now() == Progress(db, t, grown, done)
    {
      hide Data, FrameOk, Partial, Progress, MidBatch, Found, HasInvisible, DeletedUpTo, AllLinked, Counted;
      ghost var before := Now();
      var f := stack[idx];
      var fileCursor: nat, residue: bool;
      fileCursor, residue, ok := ProcessFiles(t, f.id, f.fileCursor, f.residue);
      FrameFacts(db, t, stack, expanded, done, idx);
      if !ok {
        FilesMidway(db, t, expanded, done, stack, idx, fileCursor);
        MidBatchIsPartial(db, t, stack, expanded, done, f.id, Now());
        return stack, false;
      }
      var children: seq<nat>, subCursor: nat, residue1: bool := ProcessSubfolders(t, f.id, f.subCursor, residue);
      after := Visited(stack, idx, fileCursor, subCursor, residue1, children);
      if f.id in expanded {
        RevisitFindsNothing(db, t, stack, idx, expanded, done, before, fileCursor, subCursor, children);
        assert after == stack;
        assert expanded + {f.id} == expanded;
      } else {
        FreshIsTop(stack, idx, expanded);
        FreshFinds(db, t, stack, idx, expanded, done, before, Now(), fileCursor, subCursor, residue, residue1, children);
        ExpandData(db, t, stack, expanded, done, fileCursor, subCursor, residue1, children);
      }
    }

    /** The current frame has no pending child: recycle its folder, or leave it because
        something stays below, and go back to its parent frame. */
    method FinishFrame(t: Task, stack: seq<Frame>, idx: nat, ghost db: Tables, ghost expanded: set<nat>, ghost done: set<nat>)
      returns (after: seq<Frame>, next: int, ok: bool)
      requires Data(db, t, stack, expanded, done) && Shape(stack, idx, expanded)
      requires stack[idx].pendingChildren == 0 && stack[idx].id in expanded
      requires Now() == Progress(db, t, expanded, done)
      modifies this`folders, this`budget
      ensures !ok ==> Partial(db, t, Now()) && budget == 0
      ensures budget <= old(budget) <= budget + 1
      ensures ok ==> -1 <= next < idx && |after| < |stack|
      ensures ok && next >= 0 ==>
                && Data(db, t, after, expanded, done + {stack[idx].id}) && Shape(after, next, expanded)
                && next < |after| && after[next].id in expanded
                && Now() == Progress(db, t, expanded, done + {stack[idx].id})
      ensures ok && next < 0 ==> Now() == Final(db, t)
    {
      hide Data, FrameOk, Partial, MidBatch, Sound, Reach, AllLinked, Counted, Dirty;
      FinishedIsTop(stack, idx, expanded);
      FinishedResidue(db, t, stack, expanded, done);
      PopAllowed(stack, expanded);
      FrameFacts(db, t, stack, expanded, done, idx);
      var f := stack[idx];
      FrameRow(db, t, stack, idx, expanded, done);
      RootFrame(db, t, stack, expanded, done);
      ok := budget > 0 || (f.residue && f.parent >= 0);
      if !ok {
        ProgressIsPartial(db, t, stack, idx, expanded, done);
        return stack, idx, false;
      }
      if f.residue {
        if f.parent < 0 {
          budget := budget - 1;
          if folders[f.id].isable == Deleting {
            folders := folders[f.id := folders[f.id].(isable := Usable)];
          }
        }
      } else {
        budget := budget - 1;
        folders := folders[f.id := folders[f.id].(isable := Unusable, deleted := true)];
      }
      FinishRow(db, t, expanded, done, f.id, folders);
      after := Popped(stack);
      next := f.parent;
      if next >= 0 {
        PopData(db, t, stack, expanded, done);
      } else {
        RootFinished(db, t, stack, expanded, done);
      }
    }

    /** The task row goes last. */
    method RemoveTask() returns (finished: bool)
      modifies this`taskPresent, this`budget
      ensures finished <==> old(budget) > 0
      ensures finished ==> !taskPresent
      ensures !finished ==> taskPresent == old(taskPresent) && budget == 0
    {
      if budget == 0 {
        return false;
      }
      budget := budget - 1;
      taskPresent := false;
      return true;
    }

    /** Renewing the lease and checking the operator before each frame. */
    method MayContinue() returns (ok: bool)
      modifies this`budget
      ensures ok <==> old(budget) > 0
      ensures budget == if ok then old(budget) - 1 else 0
    {
      ok := budget > 0;
      if ok {
        budget := budget - 1;
      }
    }

    /** One round of the main loop: visit the current frame; with children pending go to
        the top of the stack, otherwise finish the frame and go back to its parent. */
    method OneRound(t: Task, stack: seq<Frame>, idx: nat, ghost db: Tables, ghost expanded: set<nat>, ghost done: set<nat>)
      returns (after: seq<Frame>, next: int, ok: bool, ghost expanded1: set<nat>, ghost done1: set<nat>)
      requires Data(db, t, stack, expanded, done) && Shape(stack, idx, expanded) && idx < |stack|
      requires Now() == Progress(db, t, expanded, done) && expanded <= db.folders.Keys && done <= db.folders.Keys
      modifies this`folders, this`files, this`budget
      ensures !ok ==> Partial(db, t, Now()) && budget == 0
      ensures !ok ==> Spent(old(budget), budget, old(files), files) + Allowance(expanded, done, stack[idx].id in expanded) <= 3 * |db.folders.Keys|
      ensures ok ==> expanded1 <= db.folders.Keys && done1 <= db.folders.Keys
      ensures ok && next >= 0 ==>
                && next < |after| && Data(db, t, after, expanded1, done1) && Shape(after, next, expanded1)
                && Now() == Progress(db, t, expanded1, done1)
                && (|db.folders.Keys - expanded1| < |db.folders.Keys - expanded|
                    || (expanded1 == expanded
                        && (|after| < |stack| || (after == stack && stack[idx].id in expanded && after[next].id !in expanded))))
      ensures ok && next < 0 ==> Now() == Final(db, t)
      ensures ok ==> Spent(old(budget), budget, old(files), files) + Allowance(expanded, done, stack[idx].id in expanded)
                     <= Allowance(expanded1, done1, next >= 0 && after[next].id in expanded1)
    {
      hide LiveFiles, Data, Shape, Partial, Progress, Final;
      after, next, expanded1, done1 := stack, idx, expanded, done;
      ghost var frame := stack[idx].id;
      FrameFacts(db, t, stack, expanded, done, idx);
      FrameRow(db, t, stack, idx, expanded, done);
      OneMoreFrame(db.folders.Keys, expanded, done, frame);
      SubsetSize(expanded, db.folders.Keys);
      SubsetSize(done, db.folders.Keys);
      ok := MayContinue();
      if !ok {
        ProgressIsPartial(db, t, stack, idx, expanded, done);
        return;
      }
      after, ok := VisitFrame(t, stack, idx, db, expanded, done);
      if !ok {
        return;
      }
      expanded1 := expanded + {frame};
      GrownSmaller(db.folders.Keys, expanded, frame);
      FrameInRange(after, idx, expanded1);
      if after[idx].pendingChildren > 0 {
        DescendShape(after, idx, expanded1);
        next := |after| - 1;
      } else {
        after, next, ok := FinishFrame(t, after, idx, db, expanded1, done);
        done1 := done + {frame};
      }
    }

    /** The main loop. */
    method Traverse(t: Task) returns (ok: bool)
      requires Sound(Now(), t)
      modifies this`folders, this`files, this`budget
      ensures Partial(old(Now()), t, Now())
      ensures ok ==> Now() == Final(old(Now()), t)
      ensures !ok ==> budget == 0
      ensures old(budget) - budget <= |LiveFiles(old(files))| + 3 * |old(folders).Keys|
    {
      hide LiveFiles, Data, Shape, Partial, Progress, Sound, Final;
      FinalIsPartial(Now(), t);
      ghost var db := Now();
      var stack := [NewFrame(t.root, -1)];
      var idx := 0;
      ghost var expanded: set<nat> := {};
      ghost var done: set<nat> := {};
      StartData(db, t);
      while idx >= 0
        invariant idx >= 0 ==>
            && Data(db, t, stack, expanded, done) && Shape(stack, idx, expanded) && idx < |stack|
            && Now() == Progress(db, t, expanded, done)
        invariant idx < 0 ==> Now() == Final(db, t) && Partial(db, t, Now())
        invariant expanded <= db.folders.Keys && done <= db.folders.Keys
        invariant Spent(old(budget), budget, old(files), files) <= Allowance(expanded, done, idx >= 0 && stack[idx].id in expanded)
        decreases idx >= 0, |db.folders.Keys - expanded|, |stack|, idx >= 0 && stack[idx].id in expanded
      {
        stack, idx, ok, expanded, done := OneRound(t, stack, idx, db, expanded, done);
        if !ok {
          return;
        }
      }
      SubsetSize(expanded, db.folders.Keys);
      SubsetSize(done, db.folders.Keys);
      return true;
    }

    /** The whole task. It stops before a write only when the process is out of budget
        (`finished` is then false), which one write for each live file and three steps
        for each folder cannot bring about; started again it begins with an empty stack. */
    method Run(t: Task) returns (finished: bool)
      requires RootLive(Now(), t) ==> Sound(Now(), t)
      modifies this
      ensures !finished ==> taskPresent == old(taskPresent) && budget == 0
      ensures finished ==> !taskPresent
      ensures old(budget) > |LiveFiles(old(files))| + 3 * |old(folders).Keys| ==> finished
      ensures if old(taskPresent) then Attempt(t, old(Now()), Now(), finished) else Now() == old(Now())
    {
      if !taskPresent {
        return true;
      }
      if t.root in folders && !folders[t.root].deleted {
        var ok := Traverse(t);
        if !ok {
          return false;
        }
      }
      finished := RemoveTask();
    }
  }

  /** Between two frames the rows are as an interrupted task may leave them. */
  lemma ProgressIsPartial(db: Tables, t: Task, stack: seq<Frame>, idx: nat, expanded: set<nat>, done: set<nat>)
    requires Data(db, t, stack, expanded, done) && Shape(stack, idx, expanded)
    ensures Partial(db, t, Progress(db, t, expanded, done))
  {
    FrameFacts(db, t, stack, expanded, done, idx);
    MidBatchIsPartial(db, t, stack, expanded, done, stack[idx].id, Progress(db, t, expanded, done));
  }

  lemma FrameRow(db: Tables, t: Task, stack: seq<Frame>, idx: nat, expanded: set<nat>, done: set<nat>)
    requires Data(db, t, stack, expanded, done) && idx < |stack|
    ensures stack[idx].id in db.folders
  {
    FrameFacts(db, t, stack, expanded, done, idx);
    ReachedLive(db, t, stack[idx].id);
  }

  lemma GrownSmaller(all: set<nat>, s: set<nat>, x: nat)
    requires x in all && s <= all
    ensures if x in s then s + {x} == s else |all - (s + {x})| < |all - s|
  {
    if x in s {
      assert s + {x} == s;
    } else {
      assert all - s == (all - (s + {x})) + {x};
    }
  }

  lemma FinalIsPartial(db: Tables, t: Task)
    requires Sound(db, t)
    ensures Partial(db, t, Final(db, t))
  {
    var now := Final(db, t);
    forall f, g | f in db.folders && g in db.folders && Gone(db, now, f) && Reach(db, t, f, g)
      ensures Gone(db, now, g) && forall x | VisibleFile(db, t, g, x) :: now.files[x].deleted
    {
      ReachTrans(db, t, t.root, f, g);
      ReachedLive(db, t, g);
      if Dirty(db, t, g) {
        var h :| Reach(db, t, g, h) && HasInvisible(db, t, h);
        ReachTrans(db, t, f, g, h);
      }
    }
  }

  lemma FrameInRange(stack: seq<Frame>, idx: int, expanded: set<nat>)
    requires Shape(stack, idx, expanded)
    ensures 0 <= idx < |stack|
  {
  }

  /** A file pass that stopped early did part of this folder's files and nothing else. */
  lemma FilesMidway(db: Tables, t: Task, expanded: set<nat>, done: set<nat>, stack: seq<Frame>, idx: nat, cursor: nat)
    requires Data(db, t, stack, expanded, done) && idx < |stack|
    ensures MidBatch(db, t, expanded, done, stack[idx].id,
                     Tables(Progress(db, t, expanded, done).folders,
                            DeletedUpTo(Progress(db, t, expanded, done), t, stack[idx].id, stack[idx].fileCursor, cursor)))
  {
  }

  lemma FirstIsMember(ids: seq<nat>)
    ensures ids == [] || ids[0] in ids
  {
  }

  /** On a revisit the cursors are already past everything. */
  lemma RevisitFindsNothing(db: Tables, t: Task, stack: seq<Frame>, idx: nat, expanded: set<nat>, done: set<nat>,
                            before: Tables, fileCursor: nat, subCursor: nat, children: seq<nat>)
    requires Data(db, t, stack, expanded, done) && idx < |stack| && stack[idx].id in expanded
    requires before == Progress(db, t, expanded, done)
    requires fileCursor == stack[idx].fileCursor || fileCursor in FilesPast(before, t, stack[idx].id, stack[idx].fileCursor)
    requires subCursor == stack[idx].subCursor || subCursor in SubfoldersPast(before, t, stack[idx].id, stack[idx].subCursor)
    requires forall c: nat :: c in children <==> VisibleChild(before, t, stack[idx].id, c) && c > stack[idx].subCursor
    ensures fileCursor == stack[idx].fileCursor && subCursor == stack[idx].subCursor && children == []
    ensures forall c: nat | Child(before, t, stack[idx].id, c) :: c <= stack[idx].subCursor
    ensures DeletedUpTo(before, t, stack[idx].id, stack[idx].fileCursor, stack[idx].fileCursor) == before.files
    ensures !InvisibleFileUpTo(before, t, stack[idx].id, stack[idx].fileCursor, stack[idx].fileCursor)
  {
    assert FrameOk(db, t, stack, idx, expanded, done);
    ProgressRows(db, t, expanded, done, stack[idx].id);
    FirstIsMember(children);
  }

  lemma ProgressRows(db: Tables, t: Task, expanded: set<nat>, done: set<nat>, p: nat)
    ensures var now := Progress(db, t, expanded, done);
            && (forall c | Child(now, t, p, c) :: Child(db, t, p, c) && (VisibleChild(now, t, p, c) <==> VisibleChild(db, t, p, c)))
            && (forall x | FileIn(now, t, p, x) :: FileIn(db, t, p, x) && (VisibleFile(now, t, p, x) <==> VisibleFile(db, t, p, x)))
            && (p !in expanded ==> forall x :: FileIn(now, t, p, x) <==> FileIn(db, t, p, x))
  {
  }

  /** The children of a folder not expanded yet are all still there. */
  lemma ChildrenStillThere(db: Tables, t: Task, stack: seq<Frame>, expanded: set<nat>, done: set<nat>, p: nat)
    requires Data(db, t, stack, expanded, done) && p !in expanded && Reach(db, t, t.root, p)
    ensures var now := Progress(db, t, expanded, done);
            forall c :: Child(now, t, p, c) <==> Child(db, t, p, c)
  {
    forall c | Child(db, t, p, c) ensures c !in done {
      if c in done {
        ReachedVisible(db, t, p, c);
        ChildIsNew(db, t, stack, expanded, done, p, c);
      }
    }
  }

  /** A first visit deletes all visible files, lists all visible children and notices
      every invisible item. */
  lemma FreshFinds(db: Tables, t: Task, stack: seq<Frame>, idx: nat, expanded: set<nat>, done: set<nat>,
                   before: Tables, now: Tables, fileCursor: nat, subCursor: nat, residue: bool, residue1: bool, children: seq<nat>)
    requires Data(db, t, stack, expanded, done) && idx < |stack| && stack[idx].id !in expanded
    requires before == Progress(db, t, expanded, done) && now.folders == before.folders
    requires now.files == DeletedUpTo(before, t, stack[idx].id, stack[idx].fileCursor, fileCursor)
    requires residue <==> stack[idx].residue || InvisibleFileUpTo(before, t, stack[idx].id, stack[idx].fileCursor, fileCursor)
    requires forall x: nat | FileIn(before, t, stack[idx].id, x) :: x <= fileCursor
    requires forall c: nat | Child(now, t, stack[idx].id, c) :: c <= subCursor
    requires forall c: nat :: c in children <==> VisibleChild(now, t, stack[idx].id, c) && c > stack[idx].subCursor
    requires forall i, j | 0 <= i < j < |children| :: children[i] < children[j]
    requires residue1 <==> residue || exists c: nat :: Child(now, t, stack[idx].id, c) && !VisibleChild(now, t, stack[idx].id, c) && c > stack[idx].subCursor
    ensures Found(db, t, stack[idx].id, fileCursor, subCursor, residue1, children)
    ensures now == Progress(db, t, expanded + {stack[idx].id}, done)
  {
    FrameFacts(db, t, stack, expanded, done, idx);
    assert FrameOk(db, t, stack, idx, expanded, done);
    FoundAt(db, t, stack, expanded, done, stack[idx].id, before, now, fileCursor, subCursor, residue, residue1, children);
  }

  lemma FoundAt(db: Tables, t: Task, stack: seq<Frame>, expanded: set<nat>, done: set<nat>, x: nat,
                before: Tables, now: Tables, fileCursor: nat, subCursor: nat, residue: bool, residue1: bool, children: seq<nat>)
    requires Data(db, t, stack, expanded, done) && x !in expanded && Reach(db, t, t.root, x)
    requires before == Progress(db, t, expanded, done) && now.folders == before.folders
    requires now.files == DeletedUpTo(before, t, x, 0, fileCursor)
    requires residue <==> InvisibleFileUpTo(before, t, x, 0, fileCursor)
    requires forall y: nat | FileIn(before, t, x, y) :: y <= fileCursor
    requires forall c: nat | Child(now, t, x, c) :: c <= subCursor
    requires forall c: nat :: c in children <==> VisibleChild(now, t, x, c) && c > 0
    requires forall i, j | 0 <= i < j < |children| :: children[i] < children[j]
    requires residue1 <==> residue || exists c: nat :: Child(now, t, x, c) && !VisibleChild(now, t, x, c) && c > 0
    ensures Found(db, t, x, fileCursor, subCursor, residue1, children)
    ensures now == Progress(db, t, expanded + {x}, done)
  {
    hide FrameOk, Progress, Reach, DeletedUpTo, VisibleFile, FileIn, Covered, DistinctIds;
    ProgressRows(db, t, expanded, done, x);
    ChildrenStillThere(db, t, stack, expanded, done, x);
    FreshChildren(db, t, x, now, subCursor, residue, residue1, children);
    FreshFiles(db, t, expanded, done, x, before, now, fileCursor);
    FreshResidue(db, t, x, before, fileCursor);
  }

  lemma FreshResidue(db: Tables, t: Task, x: nat, before: Tables, cursor: nat)
    requires 0 !in db.files
    requires forall y: nat | FileIn(before, t, x, y) :: y <= cursor
    requires forall y :: FileIn(before, t, x, y) <==> FileIn(db, t, x, y)
    requires forall y :: VisibleFile(before, t, x, y) <==> VisibleFile(db, t, x, y)
    ensures InvisibleFileUpTo(before, t, x, 0, cursor) <==> exists y: nat :: FileIn(db, t, x, y) && !VisibleFile(db, t, x, y)
  {
  }

  lemma FreshChildren(db: Tables, t: Task, x: nat, now: Tables, subCursor: nat, residue: bool, residue1: bool, children: seq<nat>)
    requires 0 !in db.folders
    requires forall c :: Child(now, t, x, c) <==> Child(db, t, x, c)
    requires forall c :: VisibleChild(now, t, x, c) <==> VisibleChild(db, t, x, c)
    requires forall c: nat | Child(now, t, x, c) :: c <= subCursor
    requires forall c: nat :: c in children <==> VisibleChild(now, t, x, c) && c > 0
    requires forall i, j | 0 <= i < j < |children| :: children[i] < children[j]
    requires residue1 <==> residue || exists c: nat :: Child(now, t, x, c) && !VisibleChild(now, t, x, c) && c > 0
    ensures ListsChildren(db, t, x, children)
    ensures residue1 <==> residue || exists c: nat :: Child(db, t, x, c) && !VisibleChild(db, t, x, c)
    ensures forall c: nat | Child(db, t, x, c) :: c <= subCursor
  {
  }

  /** The files of a folder not expanded yet are all still as they were. */
  lemma FreshFiles(db: Tables, t: Task, expanded: set<nat>, done: set<nat>, x: nat, before: Tables, now: Tables, cursor: nat)
    requires x !in expanded && 0 !in db.files
    requires before == Progress(db, t, expanded, done) && now.folders == before.folders
    requires now.files == DeletedUpTo(before, t, x, 0, cursor)
    requires forall y: nat | FileIn(before, t, x, y) :: y <= cursor
    ensures now == Progress(db, t, expanded + {x}, done)
    ensures forall y :: FileIn(before, t, x, y) <==> FileIn(db, t, x, y)
    ensures forall y :: VisibleFile(before, t, x, y) <==> VisibleFile(db, t, x, y)
  {
    ProgressRows(db, t, expanded, done, x);
    forall y | y in db.files ensures now.files[y] == FileNow(db, t, expanded + {x}, y) {
      if db.files[y].folder == x {
        assert before.files[y] == db.files[y];
      }
    }
    assert now.files == Progress(db, t, expanded + {x}, done).files;
  }

  lemma RootFrame(db: Tables, t: Task, stack: seq<Frame>, expanded: set<nat>, done: set<nat>)
    requires Data(db, t, stack, expanded, done) && Shape(stack, |stack| - 1, expanded)
    ensures stack[|stack| - 1].parent < 0 <==> stack[|stack| - 1].id == t.root
  {
    assert FrameOk(db, t, stack, 0, expanded, done);
    PopAllowed(stack, expanded);
  }

  /** Finishing a folder changes its own row only, as planned. */
  lemma FinishRow(db: Tables, t: Task, expanded: set<nat>, done: set<nat>, x: nat, rows: map<nat, FolderRow>)
    requires x in db.folders && x !in done
    requires rows == Progress(db, t, expanded, done).folders[x := FolderNow(db, t, done + {x}, x)]
    ensures rows == Progress(db, t, expanded, done + {x}).folders
  {
  }

  ghost predicate InvisibleSubUpTo(db: Tables, t: Task, p: nat, from: nat, to: nat) {
    exists c: nat :: Child(db, t, p, c) && !VisibleChild(db, t, p, c) && from < c <= to
  }

  lemma SubfolderBatch(db: Tables, t: Task, p: nat, from: nat, cursor: nat, ids: seq<nat>, shown: seq<nat>, children: seq<nat>)
    requires from <= cursor && |ids| > 0 && IsBatch(ids, SubfoldersPast(db, t, p, cursor), DELETE_BATCH_SIZE)
    requires forall c :: c in shown <==> c in ids && ItemVisible(db.folders[c].rule, t.op)
    requires forall i, j | 0 <= i < j < |shown| :: shown[i] < shown[j]
    requires forall c: nat :: c in children <==> VisibleChild(db, t, p, c) && from < c <= cursor
    requires forall i, j | 0 <= i < j < |children| :: children[i] < children[j]
    ensures ids[|ids| - 1] > cursor && ids[|ids| - 1] in SubfoldersPast(db, t, p, from)
    ensures forall c: nat :: c in children + shown <==> VisibleChild(db, t, p, c) && from < c <= ids[|ids| - 1]
    ensures forall i, j | 0 <= i < j < |children + shown| :: (children + shown)[i] < (children + shown)[j]
    ensures InvisibleSubUpTo(db, t, p, from, ids[|ids| - 1])
            <==> InvisibleSubUpTo(db, t, p, from, cursor) || exists c | c in ids :: !ItemVisible(db.folders[c].rule, t.op)
    ensures SubfoldersPast(db, t, p, ids[|ids| - 1]) < SubfoldersPast(db, t, p, cursor)
  {
    var last := ids[|ids| - 1];
    assert last in ids;
    forall c: nat ensures Child(db, t, p, c) && cursor < c <= last <==> c in ids {
      if c in ids {
        var i :| 0 <= i < |ids| && ids[i] == c;
        assert i < |ids| - 1 ==> ids[i] < ids[|ids| - 1];
      }
    }
    forall i, j | 0 <= i < j < |children + shown| ensures (children + shown)[i] < (children + shown)[j] {
      if i < |children| <= j {
        assert children[i] in children && shown[j - |children|] in shown;
      }
    }
  }

  /** Deleting earlier files does not change what lies past the cursor. */
  lemma PastUnchanged(db: Tables, now: Tables, t: Task, p: nat, from: nat, cursor: nat)
    requires now.folders == db.folders && now.files == DeletedUpTo(db, t, p, from, cursor)
    ensures FilesPast(now, t, p, cursor) == FilesPast(db, t, p, cursor)
    ensures forall x | x in FilesPast(db, t, p, cursor) :: now.files[x] == db.files[x]
  {
  }

  lemma BatchEffect(db: Tables, before: Tables, after: map<nat, FileRow>, t: Task, p: nat, from: nat, cursor: nat, ids: seq<nat>)
    requires before.files == DeletedUpTo(db, t, p, from, cursor) && from <= cursor
    requires |ids| > 0 && IsBatch(ids, FilesPast(db, t, p, cursor), DELETE_BATCH_SIZE)
    requires after == map x | x in before.files ::
                        if x in ids && ItemVisible(before.files[x].rule, t.op) then before.files[x].(deleted := true)
                        else before.files[x]
    ensures ids[|ids| - 1] > cursor
    ensures after == DeletedUpTo(db, t, p, from, ids[|ids| - 1])
    ensures InvisibleFileUpTo(db, t, p, from, ids[|ids| - 1])
            <==> InvisibleFileUpTo(db, t, p, from, cursor) || exists x | x in ids :: !ItemVisible(before.files[x].rule, t.op)
    ensures FilesPast(db, t, p, ids[|ids| - 1]) < FilesPast(db, t, p, cursor)
  {
    var last := ids[|ids| - 1];
    assert last in ids;
    forall x ensures FileIn(db, t, p, x) && cursor < x <= last <==> x in ids {
      if x in ids {
        var i :| 0 <= i < |ids| && ids[i] == x;
        assert i < |ids| - 1 ==> ids[i] < ids[|ids| - 1];
      }
    }
  }
}

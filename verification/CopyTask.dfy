/** The folder-copy task as it runs: a stack of folders to copy, a look-up by name that
    reuses what an earlier run created, and file copies that conflict with themselves. */
module CopyTask {
  import opened Wrappers
  import opened Rows
  import opened Names
  import opened Batches
  import opened CopyPlan
  import opened MovePlan
  import opened Verdicts

  const COPY_BATCH_SIZE: nat := 100

  datatype Frame = Frame(src: nat, dstParent: nat, isTop: bool)

  datatype CopyResult = Made(id: nat) | Conflict | Failed(outcome: Outcome)

  function OutcomeOf(r: CopyResult): Outcome {
    match r
    case Failed(o) => o
    case _ => Done
  }

  function FilesOf(db: Store, j: Job, folders: set<nat>): set<nat> {
    set x | x in db.files && db.files[x].folder in folders && FileOf(db, j, db.files[x].folder, x)
  }

  /** Answers a whole run uses at most: three for each folder, four for each file, one to
      remove the task. */
  function RunCost(db: Store): nat {
    3 * |db.folders.Keys| + 4 * |db.files.Keys| + 1
  }

  // ----- what the stack still owes -----

  ghost predicate OnStack(stack: seq<Frame>, s: nat) {
    exists i :: 0 <= i < |stack| && stack[i].src == s
  }

  /** A frame is for an entered folder not copied yet, under the copy of its parent. */
  ghost predicate FrameOk(db: Store, j: Job, m: Copied, visited: set<nat>, f: Frame) {
    && f.src !in visited && Entered(db, j, f.src)
    && (f.isTop <==> f.src == j.srcRoot)
    && (!f.isTop ==>
          && f.src in db.folders && SourceChild(db, j, db.folders[f.src].parent, f.src)
          && db.folders[f.src].parent in visited
          && db.folders[f.src].parent in m.folders && f.dstParent == m.folders[db.folders[f.src].parent])
  }

  ghost predicate FramesOk(db: Store, j: Job, m: Copied, stack: seq<Frame>, visited: set<nat>) {
    && (forall i | 0 <= i < |stack| :: FrameOk(db, j, m, visited, stack[i]))
    && forall i, k | 0 <= i < k < |stack| :: stack[i].src != stack[k].src
  }

  ghost predicate VisitedOk(db: Store, j: Job, m: Copied, visited: set<nat>) {
    forall v | v in visited ::
      && v in m.folders && v in db.folders && Entered(db, j, v) && FilesDone(db, j, m, v)
      && (v != j.srcRoot ==> ParentVisited(db, visited, v))
  }

  ghost predicate ParentVisited(db: Store, visited: set<nat>, v: nat) {
    v in db.folders && db.folders[v].parent in visited
  }

  ghost predicate Covered(db: Store, j: Job, stack: seq<Frame>, visited: set<nat>) {
    && (j.srcRoot in visited || OnStack(stack, j.srcRoot))
    && forall v, c | v in visited && SourceChild(db, j, v, c) :: c in visited || OnStack(stack, c)
  }

  ghost predicate Plan(db: Store, j: Job, m: Copied, stack: seq<Frame>, visited: set<nat>) {
    && FramesOk(db, j, m, stack, visited) && VisitedOk(db, j, m, visited) && Covered(db, j, stack, visited)
  }

  lemma StartPlan(db: Store, j: Job, m: Copied, base: nat)
    ensures Plan(db, j, m, [Frame(j.srcRoot, base, true)], {})
  {
    RootEntered(db, j);
    assert [Frame(j.srcRoot, base, true)][0].src == j.srcRoot;
  }

  /** With an empty stack everything is copied. */
  lemma EmptyStackIsComplete(db: Store, j: Job, m: Copied, visited: set<nat>)
    requires Plan(db, j, m, [], visited)
    ensures Complete(db, j, m) && EnteredSet(db, j) <= visited
  {
    forall s | s in EnteredSet(db, j) ensures s in visited {
      var path :| IsPath(db, j, path, j.srcRoot, s);
      ClosedHoldsEntered(db, j, visited, path, s);
    }
    forall s | Entered(db, j, s) ensures s in m.folders && FilesDone(db, j, m, s) {
      var path :| IsPath(db, j, path, j.srcRoot, s);
      ClosedHoldsEntered(db, j, visited, path, s);
    }
  }

  ghost predicate Lists(db: Store, j: Job, s: nat, ids: seq<nat>) {
    && (forall c :: c in ids <==> SourceChild(db, j, s, c))
    && forall i, k | 0 <= i < k < |ids| :: ids[i] < ids[k]
  }

  function Pushed(rest: seq<Frame>, ids: seq<nat>, folder: nat): seq<Frame> {
    rest + seq(|ids|, i requires 0 <= i < |ids| => Frame(ids[i], folder, false))
  }

  /** A folder's children are met when it is copied, never before. */
  lemma ChildIsNew(db: Store, j: Job, m: Copied, stack: seq<Frame>, visited: set<nat>, s: nat, c: nat)
    requires Ready(db, j) && FramesOk(db, j, m, stack, visited) && VisitedOk(db, j, m, visited)
    requires |stack| > 0 && s == stack[|stack| - 1].src && SourceChild(db, j, s, c)
    ensures c !in visited && !OnStack(stack, c) && c != j.srcRoot && c != s && Entered(db, j, c) && c in db.folders
  {
    hide UniqueNames, ParentsExist, EmptyFolder, FilesDone;
    assert FrameOk(db, j, m, visited, stack[|stack| - 1]);
    ChildEntered(db, j, s, c);
    assert c in visited ==> ParentVisited(db, visited, c);
    forall i | 0 <= i < |stack| ensures stack[i].src != c {
      assert FrameOk(db, j, m, visited, stack[i]);
    }
  }

  lemma PushFrames(db: Store, j: Job, m: Copied, stack: seq<Frame>, visited: set<nat>, s: nat, ids: seq<nat>, k: nat)
    requires Ready(db, j) && FramesOk(db, j, m, stack, visited) && VisitedOk(db, j, m, visited)
    requires |stack| > 0 && s == stack[|stack| - 1].src && s in m.folders && Lists(db, j, s, ids)
    requires k < |stack| - 1 + |ids|
    ensures FrameOk(db, j, m, visited + {s}, Pushed(stack[..|stack| - 1], ids, m.folders[s])[k])
  {
    hide Ready, Entered, VisitedOk;
    var n := |stack| - 1;
    assert FrameOk(db, j, m, visited, stack[n]);
    if k < n {
      assert FrameOk(db, j, m, visited, stack[k]);
      assert stack[k].src != stack[n].src;
    } else {
      assert ids[k - n] in ids;
      ChildIsNew(db, j, m, stack, visited, s, ids[k - n]);
    }
  }

  lemma PushDistinct(db: Store, j: Job, m: Copied, stack: seq<Frame>, visited: set<nat>, s: nat, ids: seq<nat>, i: nat, k: nat)
    requires Ready(db, j) && FramesOk(db, j, m, stack, visited) && VisitedOk(db, j, m, visited)
    requires |stack| > 0 && s == stack[|stack| - 1].src && s in m.folders && Lists(db, j, s, ids)
    requires i < k < |stack| - 1 + |ids|
    ensures var after := Pushed(stack[..|stack| - 1], ids, m.folders[s]); after[i].src != after[k].src
  {
    hide Ready, Entered, VisitedOk, FrameOk, SourceChild;
    var n := |stack| - 1;
    if i < n <= k {
      assert ids[k - n] in ids;
      ChildIsNew(db, j, m, stack, visited, s, ids[k - n]);
      assert OnStack(stack, stack[i].src);
    }
  }

  lemma PushCovered(db: Store, j: Job, stack: seq<Frame>, visited: set<nat>, s: nat, ids: seq<nat>, folder: nat)
    requires |stack| > 0 && s == stack[|stack| - 1].src && Covered(db, j, stack, visited) && Lists(db, j, s, ids)
    ensures Covered(db, j, Pushed(stack[..|stack| - 1], ids, folder), visited + {s})
  {
    var n := |stack| - 1;
    var after := Pushed(stack[..n], ids, folder);
    forall c | OnStack(stack, c) ensures c == s || OnStack(after, c) {
      var i :| 0 <= i < |stack| && stack[i].src == c;
      assert i < n ==> after[i].src == c;
    }
    forall c | c in ids ensures OnStack(after, c) {
      var k :| 0 <= k < |ids| && ids[k] == c;
      assert after[n + k].src == c;
    }
  }

  /** The top folder is copied with its files: its children take its place. */
  lemma PushPlan(db: Store, j: Job, m: Copied, stack: seq<Frame>, visited: set<nat>, s: nat, ids: seq<nat>)
    requires Ready(db, j) && Plan(db, j, m, stack, visited)
    requires |stack| > 0 && s == stack[|stack| - 1].src && s in m.folders && FilesDone(db, j, m, s) && Lists(db, j, s, ids)
    ensures Plan(db, j, m, Pushed(stack[..|stack| - 1], ids, m.folders[s]), visited + {s})
  {
    hide Ready, FilesDone, Entered, Lists, SourceChild;
    var after := Pushed(stack[..|stack| - 1], ids, m.folders[s]);
    forall k | 0 <= k < |after| ensures FrameOk(db, j, m, visited + {s}, after[k]) {
      PushFrames(db, j, m, stack, visited, s, ids, k);
    }
    forall i, k | 0 <= i < k < |after| ensures after[i].src != after[k].src {
      PushDistinct(db, j, m, stack, visited, s, ids, i, k);
    }
    assert FrameOk(db, j, m, visited, stack[|stack| - 1]);
    TopFolder(db, j, m, stack, visited);
    PushCovered(db, j, stack, visited, s, ids, m.folders[s]);
  }

  lemma TopFolder(db: Store, j: Job, m: Copied, stack: seq<Frame>, visited: set<nat>)
    requires Ready(db, j) && FramesOk(db, j, m, stack, visited) && |stack| > 0
    ensures var s := stack[|stack| - 1].src;
            s in db.folders && Entered(db, j, s) && s !in visited && (s != j.srcRoot ==> db.folders[s].parent in visited)
  {
    assert FrameOk(db, j, m, visited, stack[|stack| - 1]);
  }

  /** Copying more keeps the plan. */
  lemma PlanExtends(db: Store, j: Job, m: Copied, m1: Copied, stack: seq<Frame>, visited: set<nat>)
    requires Plan(db, j, m, stack, visited) && Extends(m, m1)
    ensures Plan(db, j, m1, stack, visited)
  {
    forall i | 0 <= i < |stack| ensures FrameOk(db, j, m1, visited, stack[i]) {
      assert FrameOk(db, j, m, visited, stack[i]);
    }
  }

  // ----- the running task -----

  lemma AddedAndDropped<V>(m: map<nat, V>, id: nat, v: V)
    requires id !in m
    ensures m[id := v] - {id} == m
  {
  }

  /** Files of a folder past the cursor. */
  function FilesPast(now: Store, j: Job, s: nat, cursor: nat): set<nat> {
    set x | x in now.files && FileOf(now, j, s, x) && x > cursor
  }

  class Copier {
    var folders: map<nat, FolderRow>
    var files: map<nat, FileRow>
    var objects: map<nat, seq<byte>>
    var nextFolder: nat
    var nextFile: nat
    var taskPresent: bool

    /** The answers the environment still has for this process; none means it stops. */
    var verdicts: seq<Verdict>

    ghost function Now(): Store
      reads this`folders, this`files, this`objects
    {
      Store(folders, files, objects)
    }

    /** The next ids are past all ids in use. */
    ghost predicate Valid()
      reads this`folders, this`files, this`objects, this`nextFolder, this`nextFile
    {
      && nextFolder > 0 && nextFile > 0
      && (forall f | f in folders :: f < nextFolder)
      && (forall x | x in files :: x < nextFile) && (forall x | x in objects :: x < nextFile)
    }

    method Next() returns (v: Verdict)
      modifies this`verdicts
      ensures if old(verdicts) == [] then v == Stop && verdicts == [] else v == old(verdicts)[0] && verdicts == old(verdicts)[1..]
      ensures v == Go ==> Calm(old(verdicts), verdicts) && |old(verdicts)| == |verdicts| + 1
      ensures v != Go ==> Answered(old(verdicts), verdicts, OutcomeFor(v), false) && Answered(old(verdicts), verdicts, Retry, false)
      ensures |verdicts| <= |old(verdicts)| <= |verdicts| + 1
    {
      hide Answered, Calm;
      v := Stop;
      if |verdicts| > 0 {
        OneAnswer(verdicts);
        v, verdicts := verdicts[0], verdicts[1..];
      } else {
        NoAnswer(verdicts);
      }
    }

    method NameExists(bucket: nat, folder: nat, name: string) returns (found: bool)
      ensures found <==> NameTaken(folders, files, bucket, folder, name)
    {
      found := (exists y | y in files :: FileNamed(files, bucket, folder, name, y))
               || (exists f | f in folders :: FolderNamed(folders, bucket, folder, name, f));
    }

    /** The row of a copy, its object, its accounting; a failure takes back what was made. */
    method MakeCopy(j: Job, x: nat, folder: nat, name: string) returns (r: CopyResult)
      requires Valid() && x in files
      modifies this`files, this`objects, this`nextFile, this`verdicts
      ensures Valid() && !r.Conflict? && (r.Failed? ==> r.outcome == Retry)
      ensures Answered(old(verdicts), verdicts, OutcomeOf(r), x !in old(objects))
      ensures |verdicts| <= |old(verdicts)| <= |verdicts| + 2 && (r.Made? ==> |old(verdicts)| == |verdicts| + 2)
      ensures !r.Made? ==> Now() == old(Now())
      ensures r.Made? ==>
                && r.id !in old(files) && x in old(objects)
                && Now() == WithFile(old(Now()), r.id, FileCopy(old(files)[x].(name := name), folder, j), old(objects)[x])
    {
      hide Answered, Calm, FileCopy;
      ghost var missing := x !in objects;
      var id := nextFile;
      AddedAndDropped(files, id, FileCopy(files[x].(name := name), folder, j));
      files, nextFile := files[id := FileCopy(files[x].(name := name), folder, j)], nextFile + 1;
      if x !in objects {
        files := files - {id};
        NothingUsed(verdicts, missing);
        return Failed(Retry);
      }
      var v := Next();
      if v != Go {
        files := files - {id};
        AnsweredAnyway(old(verdicts), verdicts, Retry, missing);
        return Failed(Retry);
      }
      ghost var now := verdicts;
      AddedAndDropped(objects, id, objects[x]);
      objects := objects[id := objects[x]];
      v := Next();
      if v != Go {
        objects := objects - {id};
        files := files - {id};
        CalmThenAnswered(old(verdicts), now, verdicts, Retry, false, missing);
        return Failed(Retry);
      }
      CalmThenCalm(old(verdicts), now, verdicts);
      CalmIsAnswered(old(verdicts), verdicts, missing);
      r := Made(id);
    }

    /** Copy one file without renaming: a taken name is a conflict, otherwise a new row
        first, then its object. */
    method CopyFileNoRename(j: Job, x: nat, folder: nat, name: string) returns (r: CopyResult)
      requires Valid() && x in files
      modifies this`files, this`objects, this`nextFile, this`verdicts
      ensures Valid()
      ensures !r.Failed? ==> (r.Conflict? <==> NameTaken(old(folders), old(files), j.dstBucket, folder, name))
      ensures r.Failed? ==> !r.outcome.Done?
      ensures |old(verdicts)| > 0 && old(verdicts)[0] == Abort ==> r == Failed(Abandoned)
      ensures |old(verdicts)| > 1 && old(verdicts)[0] == Go && old(verdicts)[1] == Abort ==>
                NameTaken(old(folders), old(files), j.dstBucket, folder, name) || r == Failed(Abandoned)
      ensures Answered(old(verdicts), verdicts, OutcomeOf(r),
                       x !in old(objects) && !NameTaken(old(folders), old(files), j.dstBucket, folder, name))
      ensures |verdicts| <= |old(verdicts)| <= |verdicts| + 4
      ensures (r.Made? ==> |old(verdicts)| == |verdicts| + 4) && (r.Conflict? ==> |old(verdicts)| == |verdicts| + 1)
      ensures !r.Made? ==> Now() == old(Now())
      ensures r.Made? ==>
                && r.id !in old(files) && x in old(objects)
                && Now() == WithFile(old(Now()), r.id, FileCopy(old(files)[x].(name := name), folder, j), old(objects)[x])
                && files[r.id] == FileRow(j.dstBucket, folder, name, old(files)[x].size, j.user, old(files)[x].rule, false)
    {
      hide Answered, Calm;
      ghost var missing := x !in objects && !NameTaken(folders, files, j.dstBucket, folder, name);
      var v := Next();
      ghost var now := verdicts;
      if v != Go {
        AnsweredAnyway(old(verdicts), verdicts, OutcomeFor(v), missing);
        return Failed(OutcomeFor(v));
      }
      var taken := NameExists(j.dstBucket, folder, name);
      if taken {
        CalmIsAnswered(old(verdicts), now, missing);
        return Conflict;
      }
      v := Next();
      assert |old(verdicts)| > 1 ==> v == old(verdicts)[1];
      if v != Go {
        CalmThenAnswered(old(verdicts), now, verdicts, OutcomeFor(v), false, missing);
        return Failed(OutcomeFor(v));
      }
      CalmThenCalm(old(verdicts), now, verdicts);
      now := verdicts;
      r := MakeCopy(j, x, folder, name);
      CalmThenAnswered(old(verdicts), now, verdicts, OutcomeOf(r), x !in old(objects), missing);
    }

    /** One file of a batch: skipped when restricted or already copied. */
    method CopyOne(j: Job, s: nat, folder: nat, x: nat, ghost db: Store, ghost m: Copied) returns (outcome: Outcome, ghost m1: Copied)
      requires Valid() && Ready(db, j) && Image(db, j, Now(), m)
      requires s in m.folders && m.folders[s] == folder && Entered(db, j, s) && FileOf(db, j, s, x)
      modifies this`files, this`objects, this`nextFile, this`verdicts
      ensures Valid() && Image(db, j, Now(), m1) && Extends(m, m1) && m1.folders == m.folders
      ensures outcome.Done? && SourceFile(db, j, s, x) ==> x in m1.files
      ensures Answered(old(verdicts), verdicts, outcome, ObjectMissing(db, j))
      ensures |verdicts| <= |old(verdicts)| <= |verdicts| + 4
    {
      hide Image, Ready, Entered, NameTaken, Answered, Calm;
      m1 := m;
      NothingUsed(verdicts, ObjectMissing(db, j));
      KeptRow(db, j, Now(), m, x);
      if !MayAccess(files[x].rule, j.op) {
        return Done, m;
      }
      assert SourceFile(db, j, s, x);
      ghost var before := Now();
      var r := CopyFileNoRename(j, x, folder, files[x].name);
      FileFound(db, j, before, m, s, x);
      ghost var missing := x !in before.objects && !NameTaken(before.folders, before.files, j.dstBucket, folder, before.files[x].name);
      CalmThenAnswered(old(verdicts), old(verdicts), verdicts, OutcomeOf(r), missing, ObjectMissing(db, j));
      match r {
        case Failed(o) => return o, m;
        case Conflict => return Done, m;
        case Made(id) =>
          AddFile(db, j, before, m, s, x, id);
          m1 := m.(files := m.files[x := id]);
          return Done, m1;
      }
    }

    /** All files of a source folder, batch by batch. */
    method CopyFiles(j: Job, s: nat, folder: nat, ghost db: Store, ghost m: Copied) returns (outcome: Outcome, ghost m1: Copied)
      requires Valid() && Ready(db, j) && Image(db, j, Now(), m)
      requires s in m.folders && m.folders[s] == folder && Entered(db, j, s)
      modifies this`files, this`objects, this`nextFile, this`verdicts
      ensures Valid() && Image(db, j, Now(), m1) && Extends(m, m1) && m1.folders == m.folders
      ensures outcome.Done? ==> FilesDone(db, j, m1, s)
      ensures Answered(old(verdicts), verdicts, outcome, ObjectMissing(db, j))
      ensures |verdicts| <= |old(verdicts)| <= |verdicts| + 4 * |FilesPast(db, j, s, 0)|
    {
      hide Image, Ready, Entered, Answered, Calm, FilesPast, ObjectMissing;
      m1 := m;
      NothingUsed(verdicts, ObjectMissing(db, j));
      var last: nat := 0;
      assert forall x | SourceFile(db, j, s, x) :: x > 0 by {
        NoFileZero(db, j);
      }
      while true
        invariant Valid() && Image(db, j, Now(), m1) && Extends(m, m1) && m1.folders == m.folders
        invariant forall x: nat | SourceFile(db, j, s, x) && x <= last :: x in m1.files
        invariant Calm(old(verdicts), verdicts)
        invariant |verdicts| <= |old(verdicts)|
        invariant |old(verdicts)| - |verdicts| <= 4 * (|FilesPast(db, j, s, 0)| - |FilesPast(db, j, s, last)|)
        decreases FilesPast(db, j, s, last)
      {
        ghost var now := verdicts;
        SameFilesPast(db, j, Now(), m1, s, last);
        var ids := FirstIds(FilesPast(Store(folders, files, objects), j, s, last), COPY_BATCH_SIZE);
        if |ids| == 0 {
          BatchDone(db, j, s, last, ids, last);
          CalmIsAnswered(old(verdicts), verdicts, ObjectMissing(db, j));
          return Done, m1;
        }
        BatchSize(db, j, s, last, ids);
        outcome, m1 := CopyBatch(j, s, folder, ids, db, m1);
        CalmThenAnswered(old(verdicts), now, verdicts, outcome, ObjectMissing(db, j), ObjectMissing(db, j));
        if !outcome.Done? {
          return;
        }
        AnsweredDone(old(verdicts), verdicts, ObjectMissing(db, j), ObjectMissing(db, j));
        BatchDone(db, j, s, last, ids, ids[|ids| - 1]);
        last := ids[|ids| - 1];
        if |ids| < COPY_BATCH_SIZE {
          return;
        }
      }
    }

    method CopyBatch(j: Job, s: nat, folder: nat, ids: seq<nat>, ghost db: Store, ghost m: Copied) returns (outcome: Outcome, ghost m1: Copied)
      requires Valid() && Ready(db, j) && Image(db, j, Now(), m)
      requires s in m.folders && m.folders[s] == folder && Entered(db, j, s)
      requires forall x | x in ids :: FileOf(db, j, s, x)
      modifies this`files, this`objects, this`nextFile, this`verdicts
      ensures Valid() && Image(db, j, Now(), m1) && Extends(m, m1) && m1.folders == m.folders
      ensures outcome.Done? ==> forall x | x in ids && SourceFile(db, j, s, x) :: x in m1.files
      ensures Answered(old(verdicts), verdicts, outcome, ObjectMissing(db, j))
      ensures |verdicts| <= |old(verdicts)| <= |verdicts| + 4 * |ids|
    {
      hide Image, Ready, Entered, SourceFile, Answered, Calm, ObjectMissing;
      outcome, m1 := Done, m;
      NothingUsed(verdicts, ObjectMissing(db, j));
      var i := 0;
      while i < |ids|
        invariant 0 <= i <= |ids|
        invariant Valid() && Image(db, j, Now(), m1) && Extends(m, m1) && m1.folders == m.folders && outcome.Done?
        invariant forall k | 0 <= k < i && SourceFile(db, j, s, ids[k]) :: ids[k] in m1.files
        invariant Calm(old(verdicts), verdicts) && Answered(old(verdicts), verdicts, Done, ObjectMissing(db, j))
        invariant |verdicts| <= |old(verdicts)| <= |verdicts| + 4 * i
      {
        assert ids[i] in ids;
        ghost var now := verdicts;
        outcome, m1 := CopyOne(j, s, folder, ids[i], db, m1);
        CalmThenAnswered(old(verdicts), now, verdicts, outcome, ObjectMissing(db, j), ObjectMissing(db, j));
        if outcome.Done? {
          AnsweredDone(old(verdicts), verdicts, ObjectMissing(db, j), ObjectMissing(db, j));
        }
        if !outcome.Done? {
          return;
        }
        i := i + 1;
      }
    }

    /** The live folder of that name, ignoring case, that is not unusable; 0 if none. */
    method FindFolder(bucket: nat, parent: nat, name: string) returns (id: nat)
      requires Valid()
      ensures id != 0 ==> FolderNamed(folders, bucket, parent, name, id) && folders[id].isable != Unusable
      ensures id == 0 ==> forall f | FolderNamed(folders, bucket, parent, name, f) :: f == 0 || folders[f].isable == Unusable
    {
      id := 0;
      if f :| f in folders && f != 0 && FolderNamed(folders, bucket, parent, name, f) && folders[f].isable != Unusable {
        id := f;
      }
    }

    /** The target folder of a frame: the prepared top folder, the one an earlier run
        created, or a new one. */
    method OpenFolder(j: Job, fr: Frame, ghost db: Store, ghost m: Copied) returns (folder: nat, outcome: Outcome, ghost m1: Copied)
      requires Valid() && Ready(db, j) && Image(db, j, Now(), m)
      requires fr.isTop <==> fr.src == j.srcRoot
      requires !fr.isTop ==>
                 && fr.src in db.folders && SourceChild(db, j, db.folders[fr.src].parent, fr.src) && Entered(db, j, fr.src)
                 && db.folders[fr.src].parent in m.folders && fr.dstParent == m.folders[db.folders[fr.src].parent]
                 && FilesDone(db, j, m, db.folders[fr.src].parent)
      modifies this`folders, this`nextFolder, this`verdicts
      ensures Valid() && Image(db, j, Now(), m1) && Extends(m, m1)
      ensures outcome.Done? ==> fr.src in m1.folders && m1.folders[fr.src] == folder
      ensures m1 == m || (outcome.Done? && fr.src !in m.folders && m1 == m.(folders := m.folders[fr.src := folder]))
      ensures outcome.Done? ==> |old(verdicts)| == |verdicts| + if m1 == m then 1 else 2
      ensures Answered(old(verdicts), verdicts, outcome, ObjectMissing(db, j))
      ensures |verdicts| <= |old(verdicts)| <= |verdicts| + 2
    {
      hide Image, Ready, Entered, FilesDone, Answered, Calm, ObjectMissing;
      ImageRoot(db, j, Now(), m);
      TargetRow(db, j, Now(), m);
      m1, folder := m, j.dstRoot;
      var v := Next();
      ghost var now := verdicts;
      if v != Go {
        AnsweredAnyway(old(verdicts), verdicts, OutcomeFor(v), ObjectMissing(db, j));
        outcome := OutcomeFor(v);
        return;
      }
      CalmIsAnswered(old(verdicts), verdicts, ObjectMissing(db, j));
      if fr.isTop {
        outcome := Done;
        return;
      }
      KeptFolder(db, j, Now(), m, fr.src);
      var name := folders[fr.src].name;
      folder := FindFolder(j.dstBucket, fr.dstParent, name);
      FolderExists(db, j, Now(), m, fr.src);
      if folder != 0 {
        outcome := Done;
        return;
      }
      v := Next();
      if v != Go {
        CalmThenAnswered(old(verdicts), now, verdicts, Retry, false, ObjectMissing(db, j));
        outcome := Retry;
        return;
      }
      CalmThenCalm(old(verdicts), now, verdicts);
      CalmIsAnswered(old(verdicts), verdicts, ObjectMissing(db, j));
      folder, nextFolder := nextFolder, nextFolder + 1;
      AddFolder(db, j, Now(), m, db.folders[fr.src].parent, fr.src, folder);
      folders := folders[folder := FolderCopy(folders[fr.src], fr.dstParent, j)];
      m1 := m.(folders := m.folders[fr.src := folder]);
      outcome := Done;
    }

    /** The accessible subfolders of a source folder. */
    method Children(j: Job, s: nat, ghost db: Store, ghost m: Copied) returns (ids: seq<nat>)
      requires Ready(db, j) && Image(db, j, Now(), m) && Entered(db, j, s)
      ensures Lists(db, j, s, ids)
    {
      hide Image, Ready, Entered;
      var all := AllIds(SubfoldersOf(Store(folders, files, objects), j, s));
      ids := [];
      var i := 0;
      while i < |all|
        invariant 0 <= i <= |all|
        invariant forall c :: c in ids <==> c in all[..i] && SourceChild(Now(), j, s, c)
        invariant forall i, k | 0 <= i < k < |ids| :: ids[i] < ids[k]
      {
        var c := all[i];
        assert c in all;
        assert all[..i + 1] == all[..i] + [c];
        if folders[c].isable != Unusable && MayAccess(folders[c].rule, j.op) {
          forall k | 0 <= k < |ids| ensures ids[k] < c {
            assert ids[k] in ids;
          }
          ids := ids + [c];
        }
        i := i + 1;
      }
      assert all[..|all|] == all;
      forall c ensures SourceChild(Now(), j, s, c) <==> SourceChild(db, j, s, c) {
        SourceUnchanged(db, j, Now(), m, s, c);
      }
    }

    /** One round: the lease and the operator, then the folder's target, its files, its
        subfolders. */
    method CopyOneFolder(j: Job, fr: Frame, ghost db: Store, ghost m: Copied)
      returns (folder: nat, ids: seq<nat>, outcome: Outcome, ghost m1: Copied)
      requires Valid() && Ready(db, j) && Image(db, j, Now(), m) && Entered(db, j, fr.src)
      requires fr.isTop <==> fr.src == j.srcRoot
      requires !fr.isTop ==>
                 && fr.src in db.folders && SourceChild(db, j, db.folders[fr.src].parent, fr.src)
                 && db.folders[fr.src].parent in m.folders && fr.dstParent == m.folders[db.folders[fr.src].parent]
                 && FilesDone(db, j, m, db.folders[fr.src].parent)
      modifies this`folders, this`files, this`objects, this`nextFolder, this`nextFile, this`verdicts
      ensures Valid() && Image(db, j, Now(), m1) && Extends(m, m1)
      ensures outcome.Done? ==>
                && fr.src in m1.folders && m1.folders[fr.src] == folder
                && FilesDone(db, j, m1, fr.src) && Lists(db, j, fr.src, ids)
      ensures Answered(old(verdicts), verdicts, outcome, ObjectMissing(db, j))
      ensures |verdicts| <= |old(verdicts)| <= |verdicts| + 3 + 4 * |FilesPast(db, j, fr.src, 0)|
      ensures outcome.Done? ==> |old(verdicts)| >= |verdicts| + 2
    {
      hide Image, Ready, Entered, FilesDone, Lists, SourceChild, Answered, Calm, ObjectMissing, FilesPast;
      ids, folder, m1 := [], 0, m;
      var v := Next();
      ghost var now := verdicts;
      if v != Go {
        AnsweredAnyway(old(verdicts), verdicts, OutcomeFor(v), ObjectMissing(db, j));
        outcome := OutcomeFor(v);
        return;
      }
      folder, outcome, m1 := OpenFolder(j, fr, db, m);
      CalmThenAnswered(old(verdicts), now, verdicts, outcome, ObjectMissing(db, j), ObjectMissing(db, j));
      if !outcome.Done? {
        return;
      }
      now := verdicts;
      AnsweredDone(old(verdicts), now, ObjectMissing(db, j), ObjectMissing(db, j));
      outcome, m1 := CopyFiles(j, fr.src, folder, db, m1);
      CalmThenAnswered(old(verdicts), now, verdicts, outcome, ObjectMissing(db, j), ObjectMissing(db, j));
      if !outcome.Done? {
        return;
      }
      ids := Children(j, fr.src, db, m1);
    }

    /** The main loop: pop a folder, open its target, copy its files, push its
        subfolders. */
    method Traverse(j: Job, base: nat, ghost db: Store, ghost m: Copied) returns (outcome: Outcome, ghost m1: Copied)
      requires Valid() && Ready(db, j) && Image(db, j, Now(), m)
      modifies this`folders, this`files, this`objects, this`nextFolder, this`nextFile, this`verdicts
      ensures Valid() && Image(db, j, Now(), m1) && Extends(m, m1)
      ensures outcome.Done? ==> Complete(db, j, m1)
      ensures Answered(old(verdicts), verdicts, outcome, ObjectMissing(db, j))
      ensures |verdicts| <= |old(verdicts)| <= |verdicts| + RunCost(db) - 1
      ensures outcome.Done? ==> |old(verdicts)| >= |verdicts| + 2 * |EnteredSet(db, j)|
    {
      hide EnteredSet, Image, Ready, Entered, Plan, FilesDone, Lists, SourceChild, Complete, Answered, Calm, ObjectMissing, FilesOf, FilesPast, Extends, Pushed, WithinCost, RunCost;
      m1 := m;
      NothingUsed(verdicts, ObjectMissing(db, j));
      var stack := [Frame(j.srcRoot, base, true)];
      ghost var visited: set<nat> := {};
      StartPlan(db, j, m, base);
      ExtendsItself(m);
      NoCost(db, j, |verdicts|);
      while |stack| > 0
        invariant Valid() && Image(db, j, Now(), m1) && Extends(m, m1)
        invariant Plan(db, j, m1, stack, visited) && visited <= db.folders.Keys
        invariant Calm(old(verdicts), verdicts)
        invariant WithinCost(db, j, visited, |old(verdicts)|, |verdicts|) && |old(verdicts)| >= |verdicts| + 2 * |visited|
        decreases |db.folders.Keys - visited|
      {
        ghost var now := verdicts;
        TopFrame(db, j, m1, stack, visited);
        NoFileZero(db, j);
        var fr := stack[|stack| - 1];
        var folder: nat, ids: seq<nat>;
        ghost var before := m1;
        folder, ids, outcome, m1 := CopyOneFolder(j, fr, db, m1);
        ExtendsMore(m, before, m1);
        OneMoreFolder(db, j, visited, fr.src, |old(verdicts)|, |now|, |verdicts|);
        CalmThenAnswered(old(verdicts), now, verdicts, outcome, ObjectMissing(db, j), ObjectMissing(db, j));
        if !outcome.Done? {
          CostBound(db, j, visited + {fr.src}, |old(verdicts)|, |verdicts|);
          return;
        }
        AnsweredDone(old(verdicts), verdicts, ObjectMissing(db, j), ObjectMissing(db, j));
        PlanExtends(db, j, before, m1, stack, visited);
        PushPlan(db, j, m1, stack, visited, fr.src, ids);
        stack := Pushed(stack[..|stack| - 1], ids, folder);
        visited := visited + {fr.src};
      }
      EmptyStackIsComplete(db, j, m1, visited);
      SubsetSize(EnteredSet(db, j), visited);
      CalmIsAnswered(old(verdicts), verdicts, ObjectMissing(db, j));
      CostBound(db, j, visited, |old(verdicts)|, |verdicts|);
      return Done, m1;
    }

    /** The whole task, with the lease already held. */
    method Run(j: Job, base: nat, ghost db: Store, ghost m: Copied) returns (outcome: Outcome, ghost m1: Copied)
      requires Valid() && Ready(db, j) && Image(db, j, Now(), m)
      modifies this
      ensures Valid() && Image(db, j, Now(), m1) && Extends(m, m1)
      ensures outcome.Done? && old(taskPresent) ==> Complete(db, j, m1)
      ensures CopyRun(db, j, old(Now()), m, Now(), m1, outcome.Done? && old(taskPresent))
      ensures !taskPresent <==> !old(taskPresent) || !outcome.Retry?
      ensures db.folders[j.srcRoot].deleted && old(taskPresent) ==> outcome.Abandoned? && Now() == old(Now())
      ensures !db.folders[j.srcRoot].deleted ==> Answered(old(verdicts), verdicts, outcome, ObjectMissing(db, j))
      ensures |verdicts| <= |old(verdicts)| <= |verdicts| + RunCost(db)
      ensures outcome.Done? && old(taskPresent) ==> |old(verdicts)| > |verdicts| + 2 * |EnteredSet(db, j)|
      ensures !old(taskPresent) ==> outcome.Done? && Now() == old(Now()) && verdicts == old(verdicts)
      ensures outcome.Done? && old(taskPresent) ==> !ObjectMissing(db, j)
      ensures !db.folders[j.srcRoot].deleted && old(taskPresent) && AllGo(old(verdicts)) && |old(verdicts)| > RunCost(db)
              ==> outcome == if ObjectMissing(db, j) then Retry else Done
    {
      hide Image, Complete, Entered, Answered, Calm, ObjectMissing;
      NothingUsed(verdicts, ObjectMissing(db, j));
      m1 := m;
      if !taskPresent {
        return Done, m;
      }
      KeptFolder(db, j, Now(), m, j.srcRoot);
      if folders[j.srcRoot].deleted {
        taskPresent := false;
        return Abandoned, m;
      }
      outcome, m1 := Traverse(j, base, db, m);
      if outcome.Done? {
        CompleteHasObjects(db, j, Now(), m1);
        ghost var now := verdicts;
        AnsweredDone(old(verdicts), now, ObjectMissing(db, j), ObjectMissing(db, j));
        var v := Next();
        if v == Go {
          CalmThenCalm(old(verdicts), now, verdicts);
          CalmIsAnswered(old(verdicts), verdicts, ObjectMissing(db, j));
        } else {
          CalmThenAnswered(old(verdicts), now, verdicts, Retry, false, ObjectMissing(db, j));
          outcome := Retry;
        }
      }
      if |old(verdicts)| > RunCost(db) && AllGo(old(verdicts)) {
        EnoughAnswers(old(verdicts), verdicts, outcome, RunCost(db), ObjectMissing(db, j));
      }
      if !outcome.Retry? {
        taskPresent := false;
      }
    }

    /** The cross-bucket move of one file, with the lease already held: a source that is
        gone was moved before, a taken target name was copied before. A live source without
        an object and with a free name is tried again for ever. Wherever it stops, bytes
        that were not lost are not lost, as long as nobody else has the target name. */
    method MoveFile(j: Job, mv: Move, ghost bytes: seq<byte>) returns (outcome: Outcome, ghost id: nat)
      requires Valid() && j.srcBucket != j.dstBucket && mv.dstBucket == j.dstBucket
      modifies this
      ensures Valid()
      ensures old(NotLost(Now(), j, mv, bytes) && NameIsOurs(Now(), mv, bytes)) ==>
                && NotLost(Now(), j, mv, bytes) && NameIsOurs(Now(), mv, bytes)
                && (old(taskPresent) && outcome.Done? ==> CopyLive(Now(), mv, bytes))
      ensures old(taskPresent) && outcome.Done? ==> !SourceLive(Now(), j.srcBucket, mv) && Now() == Moved(old(Now()), j, mv, id)
      ensures old(taskPresent && NothingToCopy(Now(), j, mv)) ==> !outcome.Done? && Now() == old(Now())
      ensures taskPresent <==> old(taskPresent) && outcome.Retry?
      ensures Answered(old(verdicts), verdicts, outcome, old(NothingToCopy(Now(), j, mv)))
      ensures |verdicts| <= |old(verdicts)| <= |verdicts| + 6
      ensures old(taskPresent && SourceLive(Now(), j.srcBucket, mv)) && outcome.Done? ==>
                |old(verdicts)| == |verdicts| + if old(NameTaken(folders, files, mv.dstBucket, mv.folder, mv.name)) then 3 else 6
      ensures !old(taskPresent) ==> outcome.Done? && Now() == old(Now()) && verdicts == old(verdicts)
      ensures old(taskPresent) && AllGo(old(verdicts)) && |old(verdicts)| > 6 ==>
                outcome == if old(NothingToCopy(Now(), j, mv)) then Retry else Done
    {
      hide CopyLive, NameTaken, FileNamed, Answered, Calm;
      ghost var missing := NothingToCopy(Now(), j, mv);
      NothingUsed(verdicts, missing);
      outcome, id := Done, nextFile;
      if !taskPresent {
        return;
      }
      if !(mv.file in files && !files[mv.file].deleted && files[mv.file].bucket == j.srcBucket) {
        taskPresent := false;
        return;
      }
      ghost var before := Now();
      CopyTakesName(before, mv, bytes);
      var r := CopyFileNoRename(j, mv.file, mv.folder, mv.name);
      ghost var now := verdicts;
      if r.Failed? {
        outcome := r.outcome;
        if outcome.Abandoned? {
          taskPresent := false;
        }
      } else {
        AnsweredDone(old(verdicts), now, missing, missing);
        if r.Made? {
          id := r.id;
          CopyMade(before, j, mv, id);
        }
        outcome := RemoveSource(mv, bytes);
        CalmThenAnswered(old(verdicts), now, verdicts, outcome, false, missing);
      }
      if |old(verdicts)| > 6 && AllGo(old(verdicts)) {
        EnoughAnswers(old(verdicts), verdicts, outcome, 6, missing);
      }
    }

    /** The copy is there: delete the source, then the task. */
    method RemoveSource(mv: Move, ghost bytes: seq<byte>) returns (outcome: Outcome)
      requires mv.file in files && !files[mv.file].deleted && files[mv.file].bucket != mv.dstBucket
      modifies this`files, this`verdicts, this`taskPresent
      ensures old(CopyLive(Now(), mv, bytes)) ==> CopyLive(Now(), mv, bytes)
      ensures files.Keys == old(files).Keys
      ensures files == old(files) || Now() == WithoutFile(old(Now()), mv.file)
      ensures outcome.Done? ==> Now() == WithoutFile(old(Now()), mv.file)
      ensures !outcome.Abandoned? && (taskPresent <==> old(taskPresent) && outcome.Retry?)
      ensures Answered(old(verdicts), verdicts, outcome, false)
      ensures |verdicts| <= |old(verdicts)| <= |verdicts| + 2 && (outcome.Done? ==> |old(verdicts)| == |verdicts| + 2)
    {
      hide CopyLive, Answered, Calm;
      var v := Next();
      if v != Go {
        return Retry;
      }
      ghost var now := verdicts;
      if CopyLive(Now(), mv, bytes) {
        CopySurvives(Now(), mv, bytes);
      }
      files := files[mv.file := files[mv.file].(deleted := true)];
      v := Next();
      if v != Go {
        CalmThenAnswered(old(verdicts), now, verdicts, Retry, false, false);
        return Retry;
      }
      CalmThenCalm(old(verdicts), now, verdicts);
      CalmIsAnswered(old(verdicts), verdicts, false);
      taskPresent := false;
      return Done;
    }
  }

  /** The folders visited so far used three answers each, their files four each. */
  ghost predicate WithinCost(db: Store, j: Job, visited: set<nat>, before: nat, after: nat) {
    after <= before <= after + 3 * |visited| + 4 * |FilesOf(db, j, visited)|
  }

  lemma NoCost(db: Store, j: Job, n: nat)
    ensures WithinCost(db, j, {}, n, n)
  {
  }

  lemma CostBound(db: Store, j: Job, visited: set<nat>, before: nat, after: nat)
    requires visited <= db.folders.Keys && WithinCost(db, j, visited, before, after)
    ensures after <= before <= after + RunCost(db) - 1
  {
    SubsetSize(visited, db.folders.Keys);
    SubsetSize(FilesOf(db, j, visited), db.files.Keys);
  }

  /** One more folder costs its own files once. */
  lemma OneMoreFolder(db: Store, j: Job, visited: set<nat>, s: nat, before: nat, now: nat, after: nat)
    requires 0 !in db.files && visited <= db.folders.Keys && s in db.folders && s !in visited
    requires WithinCost(db, j, visited, before, now) && after <= now <= after + 3 + 4 * |FilesPast(db, j, s, 0)|
    ensures WithinCost(db, j, visited + {s}, before, after)
    ensures |db.folders.Keys - (visited + {s})| < |db.folders.Keys - visited|
  {
    FilesOfMore(db, j, visited, s);
    hide FilesOf, FilesPast;
    FewerLeft(db.folders.Keys, visited, s);
  }

  lemma FilesOfMore(db: Store, j: Job, visited: set<nat>, s: nat)
    requires 0 !in db.files && s !in visited
    ensures |FilesOf(db, j, visited + {s})| == |FilesOf(db, j, visited)| + |FilesPast(db, j, s, 0)|
  {
    assert FilesOf(db, j, visited + {s}) == FilesOf(db, j, visited) + FilesPast(db, j, s, 0);
    assert FilesOf(db, j, visited) !! FilesPast(db, j, s, 0);
  }

  lemma FewerLeft(all: set<nat>, visited: set<nat>, s: nat)
    requires s in all && s !in visited
    ensures |all - (visited + {s})| < |all - visited|
  {
    assert all - visited == (all - (visited + {s})) + {s};
  }

  /** A batch takes exactly its files off what lies past the cursor. */
  lemma BatchSize(db: Store, j: Job, s: nat, cursor: nat, ids: seq<nat>)
    requires IsBatch(ids, FilesPast(db, j, s, cursor), COPY_BATCH_SIZE) && |ids| > 0
    ensures |FilesPast(db, j, s, cursor)| == |ids| + |FilesPast(db, j, s, ids[|ids| - 1])|
    ensures forall x | x in ids :: FileOf(db, j, s, x)
  {
    var last := ids[|ids| - 1];
    var taken := set x: nat | x in ids;
    assert last in ids;
    forall x | x in ids ensures cursor < x <= last {
      var i :| 0 <= i < |ids| && ids[i] == x;
      assert i < |ids| - 1 ==> ids[i] < ids[|ids| - 1];
      assert x in FilesPast(db, j, s, cursor);
    }
    forall x ensures x in FilesPast(db, j, s, cursor) <==> x in taken || x in FilesPast(db, j, s, last) {
    }
    assert FilesPast(db, j, s, cursor) == taken + FilesPast(db, j, s, last);
    assert taken !! FilesPast(db, j, s, last);
    OrderedSize(ids);
  }

  function SubfoldersOf(now: Store, j: Job, s: nat): set<nat> {
    set c | c in now.folders && SourceFolder(now, j, s, c)
  }

  lemma KeptFolder(db: Store, j: Job, now: Store, m: Copied, f: nat)
    requires Image(db, j, now, m) && f in db.folders
    ensures f in now.folders && now.folders[f] == db.folders[f]
  {
  }

  /** What looking up a subfolder's name finds: its own copy, or nothing. */
  lemma FolderExists(db: Store, j: Job, now: Store, m: Copied, c: nat)
    requires Ready(db, j) && Image(db, j, now, m) && c in db.folders && c != j.srcRoot
    requires db.folders[c].parent in m.folders && SourceChild(db, j, db.folders[c].parent, c)
    ensures forall f :: FolderNamed(now.folders, j.dstBucket, m.folders[db.folders[c].parent], db.folders[c].name, f)
                        <==> c in m.folders && m.folders[c] == f
    ensures c in m.folders ==> m.folders[c] != 0 && m.folders[c] in now.folders && now.folders[m.folders[c]].isable == Usable
  {
    forall f: nat
      ensures FolderNamed(now.folders, j.dstBucket, m.folders[db.folders[c].parent], db.folders[c].name, f)
              <==> c in m.folders && m.folders[c] == f
    {
      FolderFound(db, j, now, m, db.folders[c].parent, c, f);
    }
    if c in m.folders {
      assert FolderDone(db, j, now, m, c);
    }
  }

  lemma TopFrame(db: Store, j: Job, m: Copied, stack: seq<Frame>, visited: set<nat>)
    requires Ready(db, j) && Plan(db, j, m, stack, visited) && |stack| > 0
    ensures var f := stack[|stack| - 1];
            && f.src in db.folders && Entered(db, j, f.src) && f.src !in visited
            && (f.isTop <==> f.src == j.srcRoot)
            && (!f.isTop ==>
                  && SourceChild(db, j, db.folders[f.src].parent, f.src)
                  && db.folders[f.src].parent in m.folders && f.dstParent == m.folders[db.folders[f.src].parent]
                  && FilesDone(db, j, m, db.folders[f.src].parent))
  {
    assert FrameOk(db, j, m, visited, stack[|stack| - 1]);
    TopFolder(db, j, m, stack, visited);
  }

  lemma KeptRow(db: Store, j: Job, now: Store, m: Copied, x: nat)
    requires Image(db, j, now, m) && x in db.files
    ensures x in now.files && now.files[x] == db.files[x]
    ensures x in db.objects <==> x in now.objects
    ensures x in db.objects ==> now.objects[x] == db.objects[x]
  {
  }

  lemma NoFileZero(db: Store, j: Job)
    requires Ready(db, j)
    ensures 0 !in db.files
  {
  }

  lemma SameFilesPast(db: Store, j: Job, now: Store, m: Copied, s: nat, cursor: nat)
    requires Ready(db, j) && Image(db, j, now, m) && Entered(db, j, s)
    ensures FilesPast(now, j, s, cursor) == FilesPast(db, j, s, cursor)
  {
    forall x ensures FileOf(now, j, s, x) <==> FileOf(db, j, s, x) {
      SourceUnchanged(db, j, now, m, s, x);
    }
  }

  /** A batch is what lies between two cursors; a short one is the last. */
  lemma BatchDone(db: Store, j: Job, s: nat, cursor: nat, ids: seq<nat>, next: nat)
    requires IsBatch(ids, FilesPast(db, j, s, cursor), COPY_BATCH_SIZE)
    requires next == if |ids| == 0 then cursor else ids[|ids| - 1]
    ensures forall x: nat | FileOf(db, j, s, x) && cursor < x && (x <= next || |ids| < COPY_BATCH_SIZE) :: x in ids
    ensures |ids| > 0 ==> FilesPast(db, j, s, next) < FilesPast(db, j, s, cursor)
    ensures forall x: nat | x in ids :: FileOf(db, j, s, x)
  {
    forall x: nat | FileOf(db, j, s, x) && cursor < x && x !in ids ensures |ids| == COPY_BATCH_SIZE && next < x {
      assert x in FilesPast(db, j, s, cursor);
      assert ids[|ids| - 1] in ids;
    }
    if |ids| > 0 {
      assert next in ids;
      assert next in FilesPast(db, j, s, cursor) && next !in FilesPast(db, j, s, next);
    }
  }
}

/** What the background tasks assume about the tree follows from its being a forest. */
module TaskSoundness {
  import opened Wrappers
  import opened Rows
  import opened Names
  import opened FolderForest
  import opened FolderTree
  import opened Accounts
  import DeletePlan
  import CopyPlan

  lemma {:induction false} DeletePathDescends(db: Tables, t: DeletePlan.Task, path: seq<nat>, a: nat, g: nat)
    requires Forest(db.folders) && DeletePlan.IsPath(db, t, path, a, g)
    ensures Depth(db.folders, g) >= Depth(db.folders, a)
    ensures |path| > 1 ==> Depth(db.folders, g) > Depth(db.folders, a)
  {
    var n := |path| - 1;
    if n > 0 {
      assert DeletePlan.VisibleChild(db, t, path[n - 1], path[n]);
      forall i | 0 <= i < |path[..n]| - 1 ensures DeletePlan.VisibleChild(db, t, path[..n][i], path[..n][i + 1]) {
        assert DeletePlan.VisibleChild(db, t, path[i], path[i + 1]);
      }
      DeletePathDescends(db, t, path[..n], a, path[n - 1]);
      DepthDown(db.folders, g);
    }
  }

  /** In a forest a delete task with a live root of its bucket is sound. */
  lemma ForestMakesDeleteSound(db: Tables, t: DeletePlan.Task)
    requires Forest(db.folders) && 0 !in db.files
    requires t.root in db.folders && !db.folders[t.root].deleted && db.folders[t.root].bucket == t.bucket
    ensures DeletePlan.Sound(db, t)
  {
    forall x | DeletePlan.Reach(db, t, t.root, x) ensures !DeletePlan.Child(db, t, x, t.root) {
      var path :| DeletePlan.IsPath(db, t, path, t.root, x);
      DeletePathDescends(db, t, path, t.root, x);
      if DeletePlan.Child(db, t, x, t.root) {
        DepthDown(db.folders, t.root);
      }
    }
  }

  lemma {:induction false} ReachedIsBelow(db: Tables, t: DeletePlan.Task, path: seq<nat>, g: nat)
    requires Forest(db.folders) && t.root in db.folders && DeletePlan.IsPath(db, t, path, t.root, g)
    ensures InOrBelow(db.folders, g, t.root)
  {
    var n := |path| - 1;
    if n > 0 {
      assert DeletePlan.VisibleChild(db, t, path[n - 1], path[n]);
      forall i | 0 <= i < |path[..n]| - 1 ensures DeletePlan.VisibleChild(db, t, path[..n][i], path[..n][i + 1]) {
        assert DeletePlan.VisibleChild(db, t, path[i], path[i + 1]);
      }
      ReachedIsBelow(db, t, path[..n], path[n - 1]);
    }
    BelowStep(db.folders, g, t.root);
  }

  /** A delete task touches nothing outside the subtree of its root, however often it is
      attempted. */
  lemma DeletesOnlyBelow(db: Tables, t: DeletePlan.Task, states: seq<Tables>, finished: seq<bool>, n: nat)
    requires Forest(db.folders) && DeletePlan.Sound(db, t)
    requires |states| == |finished| + 1 && states[0] == db && n < |states|
    requires forall i | 0 <= i < |finished| :: DeletePlan.AttemptAt(t, states, finished, i)
    ensures forall f | f in db.folders && !InOrBelow(db.folders, f, t.root) :: f in states[n].folders && states[n].folders[f] == db.folders[f]
    ensures forall x | x in db.files && !InOrBelow(db.folders, db.files[x].folder, t.root) ::
              x in states[n].files && states[n].files[x] == db.files[x]
  {
    DeletePlan.AnyNumberOfAttempts(db, t, states, finished, n);
    forall f | DeletePlan.Reach(db, t, t.root, f) ensures InOrBelow(db.folders, f, t.root) {
      var path :| DeletePlan.IsPath(db, t, path, t.root, f);
      ReachedIsBelow(db, t, path, f);
    }
    hide InOrBelow, Forest, DeletePlan.Reach;
  }

  /** Everything below the root is live, in the task's bucket and open to all. */
  ghost predicate OpenBelow(db: Tables, t: DeletePlan.Task) {
    && (forall f | f in db.folders && f != t.root && InOrBelow(db.folders, f, t.root) ::
          !db.folders[f].deleted && db.folders[f].bucket == t.bucket && db.folders[f].rule == Unrestricted)
    && (forall x | x in db.files && InOrBelow(db.folders, db.files[x].folder, t.root) && db.files[x].bucket == t.bucket ::
          db.files[x].rule == Unrestricted)
  }

  lemma {:induction false} OpenIsReached(db: Tables, t: DeletePlan.Task, f: nat)
    requires Forest(db.folders) && OpenBelow(db, t) && t.root in db.folders && f in db.folders && InOrBelow(db.folders, f, t.root)
    ensures DeletePlan.Reach(db, t, t.root, f)
    decreases Depth(db.folders, f)
  {
    if f == t.root {
      DeletePlan.ReachSelf(db, t, f);
    } else {
      var p := db.folders[f].parent;
      BelowStep(db.folders, f, t.root);
      DepthDown(db.folders, f);
      AllUpStep(db.folders, f, LiveIn(t.bucket));
      if p != 0 {
        OpenIsReached(db, t, p);
        DeletePlan.ReachDown(db, t, t.root, p, f);
      } else {
        BelowRoot(db.folders, t.root);
      }
    }
  }

  /** And if everything there is open, a completed task leaves nothing of it: every folder
      and every file of the bucket in or below the root is gone. */
  lemma OpenSubtreeGoes(db: Tables, t: DeletePlan.Task)
    requires Forest(db.folders) && DeletePlan.Sound(db, t) && OpenBelow(db, t)
    ensures forall f | f in db.folders && InOrBelow(db.folders, f, t.root) ::
              f in DeletePlan.Final(db, t).folders && DeletePlan.Final(db, t).folders[f].deleted
    ensures forall x | x in db.files && db.files[x].bucket == t.bucket && db.files[x].folder in db.folders
                       && InOrBelow(db.folders, db.files[x].folder, t.root) ::
              x in DeletePlan.Final(db, t).files && DeletePlan.Final(db, t).files[x].deleted
  {
    DeletePlan.FinalRows(db, t);
    forall f | f in db.folders && InOrBelow(db.folders, f, t.root)
      ensures DeletePlan.Reach(db, t, t.root, f) && !DeletePlan.Dirty(db, t, f)
    {
      OpenIsReached(db, t, f);
      NothingDirtyBelow(db, t, f);
    }
    hide InOrBelow, Forest, DeletePlan.Reach, DeletePlan.Dirty, DeletePlan.Sound;
  }

  lemma NothingDirtyBelow(db: Tables, t: DeletePlan.Task, f: nat)
    requires Forest(db.folders) && OpenBelow(db, t) && DeletePlan.Reach(db, t, t.root, f) && DeletePlan.Sound(db, t)
    ensures !DeletePlan.Dirty(db, t, f)
  {
    hide Forest, InOrBelow;
    if DeletePlan.Dirty(db, t, f) {
      var g :| DeletePlan.Reach(db, t, f, g) && DeletePlan.HasInvisible(db, t, g);
      DeletePlan.ReachTrans(db, t, t.root, f, g);
      var path :| DeletePlan.IsPath(db, t, path, t.root, g);
      ReachedIsBelow(db, t, path, g);
      forall c | DeletePlan.Child(db, t, g, c) ensures DeletePlan.VisibleChild(db, t, g, c) {
        BelowStep(db.folders, c, t.root);
      }
    }
  }

  lemma {:induction false} CopyPathDescends(db: CopyPlan.Store, j: CopyPlan.Job, path: seq<nat>, a: nat, g: nat)
    requires Forest(db.folders) && CopyPlan.IsPath(db, j, path, a, g)
    ensures Depth(db.folders, g) >= Depth(db.folders, a)
  {
    var n := |path| - 1;
    if n > 0 {
      assert CopyPlan.SourceChild(db, j, path[n - 1], path[n]);
      forall i | 0 <= i < |path[..n]| - 1 ensures CopyPlan.SourceChild(db, j, path[..n][i], path[..n][i + 1]) {
        assert CopyPlan.SourceChild(db, j, path[i], path[i + 1]);
      }
      CopyPathDescends(db, j, path[..n], a, path[n - 1]);
      DepthDown(db.folders, g);
    }
  }

  /** In a forest no folder the copy enters has the source root as a subfolder. */
  lemma ForestKeepsSourceRootOnTop(db: CopyPlan.Store, j: CopyPlan.Job, p: nat)
    requires Forest(db.folders) && CopyPlan.Entered(db, j, p)
    ensures !CopyPlan.SourceChild(db, j, p, j.srcRoot)
  {
    var path :| CopyPlan.IsPath(db, j, path, j.srcRoot, p);
    CopyPathDescends(db, j, path, j.srcRoot, p);
    if CopyPlan.SourceChild(db, j, p, j.srcRoot) {
      DepthDown(db.folders, j.srcRoot);
    }
  }

  /** A target that is not the source root and not below it is never entered. */
  lemma OutsideIsNeverEntered(db: CopyPlan.Store, j: CopyPlan.Job)
    requires Forest(db.folders) && !InOrBelow(db.folders, j.dstRoot, j.srcRoot) && j.srcRoot in db.folders
    ensures !CopyPlan.Entered(db, j, j.dstRoot)
  {
    if CopyPlan.Entered(db, j, j.dstRoot) {
      var path :| CopyPlan.IsPath(db, j, path, j.srcRoot, j.dstRoot);
      EnteredIsBelow(db, j, path, j.dstRoot);
    }
  }

  lemma {:induction false} EnteredIsBelow(db: CopyPlan.Store, j: CopyPlan.Job, path: seq<nat>, g: nat)
    requires Forest(db.folders) && j.srcRoot in db.folders && CopyPlan.IsPath(db, j, path, j.srcRoot, g)
    ensures InOrBelow(db.folders, g, j.srcRoot)
  {
    var n := |path| - 1;
    if n > 0 {
      assert CopyPlan.SourceChild(db, j, path[n - 1], path[n]);
      forall i | 0 <= i < |path[..n]| - 1 ensures CopyPlan.SourceChild(db, j, path[..n][i], path[..n][i + 1]) {
        assert CopyPlan.SourceChild(db, j, path[i], path[i + 1]);
      }
      EnteredIsBelow(db, j, path[..n], path[n - 1]);
    }
    BelowStep(db.folders, g, j.srcRoot);
  }

  // ----- from an accepted folder copy to its task -----

  /** The store a new copy task finds: the rows with the prepared top folder. */
  function WithTop(mid: Folders, id: nat, row: FolderRow, files: map<nat, FileRow>, objects: map<nat, seq<byte>>): CopyPlan.Store {
    CopyPlan.Store(mid[id := row], files, objects)
  }

  /** What creating the top folder leaves: a fresh live row with a free name below an
      existing folder or the root, in a well-formed table. */
  ghost predicate TopCreated(mid: Folders, files: map<nat, FileRow>, j: CopyPlan.Job, row: FolderRow) {
    && Forest(mid) && UniqueFolderNames(mid) && UniqueFileNames(files) && 0 !in files
    && (forall x | x in files :: files[x].folder == 0 || files[x].folder in mid)
    && j.srcRoot in mid && j.dstRoot !in mid && j.dstRoot != 0
    && row.bucket == j.dstBucket && !row.deleted && row.isable == Usable && (row.parent == 0 || row.parent in mid)
    && !NameTaken(mid, files, row.bucket, row.parent, row.name)
  }

  /** The copy enters its own target exactly when it enters the folder the target lies in
      and may enter the target. */
  lemma TargetEnteredExactly(mid: Folders, files: map<nat, FileRow>, objects: map<nat, seq<byte>>, j: CopyPlan.Job, row: FolderRow)
    requires TopCreated(mid, files, j, row)
    ensures var db := WithTop(mid, j.dstRoot, row, files, objects);
            CopyPlan.Entered(db, j, j.dstRoot)
            <==> j.srcBucket == j.dstBucket && MayAccess(row.rule, j.op) && CopyPlan.Entered(db, j, row.parent)
  {
    var db := WithTop(mid, j.dstRoot, row, files, objects);
    if CopyPlan.Entered(db, j, j.dstRoot) {
      CopyPlan.EnteredFromParent(db, j, j.dstRoot);
    }
    if j.srcBucket == j.dstBucket && MayAccess(row.rule, j.op) && CopyPlan.Entered(db, j, row.parent) {
      CopyPlan.ChildEntered(db, j, row.parent, j.dstRoot);
    }
  }

  /** A new task is ready exactly when its target is not entered; a destination outside
      the source is enough. */
  lemma NewTaskIsReady(mid: Folders, files: map<nat, FileRow>, objects: map<nat, seq<byte>>, j: CopyPlan.Job, row: FolderRow)
    requires TopCreated(mid, files, j, row)
    ensures var db := WithTop(mid, j.dstRoot, row, files, objects);
            && (CopyPlan.Ready(db, j) <==> !CopyPlan.Entered(db, j, j.dstRoot))
            && (!InOrBelow(mid, row.parent, j.srcRoot) ==> CopyPlan.Ready(db, j))
  {
    var db := WithTop(mid, j.dstRoot, row, files, objects);
    TopKeepsTable(mid, files, objects, j, row);
    forall p | CopyPlan.Entered(db, j, p) ensures !CopyPlan.SourceChild(db, j, p, j.srcRoot) {
      ForestKeepsSourceRootOnTop(db, j, p);
    }
    if !InOrBelow(mid, row.parent, j.srcRoot) {
      hide Forest, CopyPlan.ParentsExist, CopyPlan.UniqueNames, CopyPlan.EmptyFolder;
      StillOutside(mid, db.folders, j.dstRoot, row, j.srcRoot);
      OutsideIsNeverEntered(db, j);
    }
  }

  lemma TopKeepsTable(mid: Folders, files: map<nat, FileRow>, objects: map<nat, seq<byte>>, j: CopyPlan.Job, row: FolderRow)
    requires TopCreated(mid, files, j, row)
    ensures var db := WithTop(mid, j.dstRoot, row, files, objects);
            && Forest(db.folders) && CopyPlan.EmptyFolder(db, j, j.dstRoot) && CopyPlan.ParentsExist(db) && CopyPlan.UniqueNames(db)
  {
    var db := WithTop(mid, j.dstRoot, row, files, objects);
    CreateKeepsForest(mid, j.dstRoot, row);
    CreateKeepsUnique(mid, j.dstRoot, row);
    forall c | c in db.folders
      ensures db.folders[c].parent != j.dstRoot && (db.folders[c].parent == 0 || db.folders[c].parent in db.folders)
    {
      if c != j.dstRoot {
        AllUpStep(mid, c, LiveIn(0));
      }
    }
  }

  lemma StillOutside(mid: Folders, fs: Folders, id: nat, row: FolderRow, a: nat)
    requires Forest(mid) && Forest(fs) && fs == mid[id := row] && id !in mid && a in mid
    requires (row.parent == 0 || row.parent in mid) && !InOrBelow(mid, row.parent, a)
    ensures !InOrBelow(fs, id, a)
  {
    BelowStep(fs, id, a);
    var chain := HasChain(mid, row.parent);
    ChainKept(mid, fs, chain, row.parent);
    forall c | IsChain(fs, c, row.parent) ensures c == chain {
      ChainIsUnique(fs, c, chain, row.parent);
    }
  }

  /** What the folder-copy request leaves behind is such a state, whatever it was given. */
  lemma AcceptedCopyCreatesTop(mid: Folders, next: nat, files: map<nat, FileRow>, j: CopyPlan.Job, name: string, row: FolderRow)
    requires TableOk(mid, next) && UniqueFileNames(files) && 0 !in files
    requires forall x | x in files :: files[x].folder == 0 || files[x].folder in mid
    requires j.srcRoot in mid && j.dstRoot !in mid && j.dstRoot != 0 && (row.parent == 0 || row.parent in mid)
    requires row == FolderRow(j.dstBucket, row.parent, row.name, j.user, mid[j.srcRoot].rule, Usable, false)
    requires Chosen(mid, files, j.dstBucket, row.parent, name, row.name)
    ensures TopCreated(mid, files, j, row)
  {
    ChosenIsFree(mid, files, j.dstBucket, row.parent, name, row.name);
  }

  /** A folder copy into the folder itself is accepted, and its task never ends: folder 1
      "a" copied into "a" gets its target, folder 2, where the copy will enter it. */
  lemma CopyIntoItselfIsAccepted(op: Operator)
    ensures var fs := map[1 := FolderRow(1, 0, "a", 1, Unrestricted, Usable, false)];
            var j := CopyPlan.Job(1, 1, 1, 2, 1, op);
            var row := FolderRow(1, 1, "a", 1, Unrestricted, Usable, false);
            && CopyAllowed(fs, 2, map[], 1, op, 1, 1, 1, "a", "")
            && MkdirPath(fs, 2, 1, 1, Normal("a").path) == Made(fs, 2, Ok(1))
            && TopCreated(fs, map[], j, row)
            && CopyPlan.Entered(WithTop(fs, 2, row, map[], map[]), j, j.dstRoot)
  {
    var fs: Folders := map[1 := FolderRow(1, 0, "a", 1, Unrestricted, Usable, false)];
    var files: map<nat, FileRow> := map[];
    var j := CopyPlan.Job(1, 1, 1, 2, 1, op);
    var row := FolderRow(1, 1, "a", 1, Unrestricted, Usable, false);
    OneFolder(fs);
    OneFolderIsOpen(fs, op);
    PathOfOneFolder(fs);
    hide AllUp, MkdirPath, Forest, UniqueFolderNames, Normal, Split;
    assert !NameTaken(fs, files, 1, 1, "a");
    assert CopyAllowed(fs, 2, map[], 1, op, 1, 1, 1, "a", "");
    CopyPlan.RootEntered(WithTop(fs, 2, row, files, map[]), j);
    TargetEnteredExactly(fs, files, map[], j, row);
  }

  lemma OneFolder(fs: Folders)
    requires fs == map[1 := FolderRow(1, 0, "a", 1, Unrestricted, Usable, false)]
    ensures Forest(fs) && UniqueFolderNames(fs) && UniqueFileNames(map[])
  {
    assert Up(fs, 1, 0);
    assert IsChain(fs, [1, 0], 1);
  }

  lemma PathOfOneFolder(fs: Folders)
    requires fs == map[1 := FolderRow(1, 0, "a", 1, Unrestricted, Usable, false)] && UniqueFolderNames(fs)
    ensures Normal("a").Path? && MkdirPath(fs, 2, 1, 1, Normal("a").path) == Made(fs, 2, Ok(1))
  {
    PathOfOneLetter();
    assert FolderNamed(fs, 1, 0, "a", 1);
    MkdirDown(fs, 2, 1, 1, 0, ["a"], 1);
  }

  lemma OneFolderIsOpen(fs: Folders, op: Operator)
    requires fs == map[1 := FolderRow(1, 0, "a", 1, Unrestricted, Usable, false)] && Forest(fs)
    ensures AllUp(fs, 1, UsableIn(1)) && AllUp(fs, 1, ReadableIn(1, op)) && AllUp(fs, 1, WritableIn(1))
  {
    hide AllUp, Forest;
    AllUpRoot(fs, UsableIn(1));
    AllUpRoot(fs, ReadableIn(1, op));
    AllUpRoot(fs, WritableIn(1));
    AllUpStep(fs, 1, UsableIn(1));
    AllUpStep(fs, 1, ReadableIn(1, op));
    AllUpStep(fs, 1, WritableIn(1));
  }

  lemma PathOfOneLetter()
    ensures Normal("a") == Path("a") && Split("a") == ["a"] && ValidName("a")
  {
    assert TrimLeft("a") == "a" && TrimRight("a") == "a";
    SplitFirst("a", "");
    assert "a"[1..] == "" && Base("a") == "a";
    assert Lower("a") == "a";
    assert Join(["a"]) == "a";
  }

  /** Rows that keep their weight keep the total. */
  lemma {:induction false} SameSum(files: Files, now: Files, w: Weight)
    requires files.Keys == now.Keys && forall x | x in files :: w(now[x]) == w(files[x])
    ensures Sum(files, w) == Sum(now, w)
    decreases files.Keys
  {
    if files.Keys != {} {
      var k :| k in files.Keys;
      SumWithout(files, w, k);
      SumWithout(now, w, k);
      SameSum(files - {k}, now - {k}, w);
    }
  }

  /** A delete task, interrupted anywhere or complete, moves no bytes: counters that were
      right stay right. */
  lemma DeleteTaskConserves(db: Tables, t: DeletePlan.Task, now: Tables, buckets: map<nat, Bucket>, users: map<nat, Account>)
    requires DeletePlan.Partial(db, t, now)
    ensures Conserved(db.files, buckets) <==> Conserved(now.files, buckets)
    ensures UsersExact(db.files, users) <==> UsersExact(now.files, users)
  {
    forall b ensures Sum(db.files, InBucket(b)) == Sum(now.files, InBucket(b)) {
      SameSum(db.files, now.files, InBucket(b));
    }
    forall u ensures Sum(db.files, OwnedBy(u)) == Sum(now.files, OwnedBy(u)) {
      SameSum(db.files, now.files, OwnedBy(u));
    }
  }
}

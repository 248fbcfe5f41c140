/** What a folder-copy task has to do: the copied tree as an image of the visible source
    tree, and the states an interrupted copy may leave. */
module CopyPlan {
  import opened Wrappers
  import opened Rows
  import opened Names
  import opened Batches

  datatype Job = Job(srcBucket: nat, srcRoot: nat, dstBucket: nat, dstRoot: nat, user: nat, op: Operator)

  /** Rows and the stored bytes of each file, by file id. */
  datatype Store = Store(folders: map<nat, FolderRow>, files: map<nat, FileRow>, objects: map<nat, seq<byte>>)

  predicate SourceFolder(db: Store, j: Job, p: nat, c: nat) {
    c in db.folders && !db.folders[c].deleted && db.folders[c].bucket == j.srcBucket && db.folders[c].parent == p
  }

  /** `c` is a subfolder the copy enters from `p`. */
  predicate SourceChild(db: Store, j: Job, p: nat, c: nat) {
    SourceFolder(db, j, p, c) && db.folders[c].isable != Unusable && MayAccess(db.folders[c].rule, j.op)
  }

  predicate FileOf(db: Store, j: Job, p: nat, x: nat) {
    x in db.files && !db.files[x].deleted && db.files[x].bucket == j.srcBucket && db.files[x].folder == p
  }

  /** `x` is a file the copy takes from `p`. */
  predicate SourceFile(db: Store, j: Job, p: nat, x: nat) {
    FileOf(db, j, p, x) && MayAccess(db.files[x].rule, j.op)
  }

  ghost predicate IsPath(db: Store, j: Job, path: seq<nat>, a: nat, g: nat) {
    && |path| > 0 && path[0] == a && path[|path| - 1] == g
    && forall i | 0 <= i < |path| - 1 :: SourceChild(db, j, path[i], path[i + 1])
  }

  /** The copy enters folder `g`. */
  ghost predicate Entered(db: Store, j: Job, g: nat) {
    exists path :: IsPath(db, j, path, j.srcRoot, g)
  }

  lemma RootEntered(db: Store, j: Job)
    ensures Entered(db, j, j.srcRoot)
  {
    assert IsPath(db, j, [j.srcRoot], j.srcRoot, j.srcRoot);
  }

  lemma ChildEntered(db: Store, j: Job, p: nat, c: nat)
    requires Entered(db, j, p) && SourceChild(db, j, p, c)
    ensures Entered(db, j, c)
  {
    var path :| IsPath(db, j, path, j.srcRoot, p);
    assert IsPath(db, j, path + [c], j.srcRoot, c);
  }

  lemma EnteredFromParent(db: Store, j: Job, c: nat)
    requires Entered(db, j, c) && c != j.srcRoot
    ensures c in db.folders && SourceChild(db, j, db.folders[c].parent, c) && Entered(db, j, db.folders[c].parent)
  {
    var path :| IsPath(db, j, path, j.srcRoot, c);
    var n := |path| - 1;
    assert n > 0;
    assert SourceChild(db, j, path[n - 1], path[n]);
    assert IsPath(db, j, path[..n], j.srcRoot, path[n - 1]);
  }

  lemma {:induction false} ClosedHoldsEntered(db: Store, j: Job, s: set<nat>, path: seq<nat>, g: nat)
    requires j.srcRoot in s && forall x, c | x in s && SourceChild(db, j, x, c) :: c in s
    requires IsPath(db, j, path, j.srcRoot, g)
    ensures g in s
  {
    var n := |path| - 1;
    if n > 0 {
      assert IsPath(db, j, path[..n], j.srcRoot, path[n - 1]);
      ClosedHoldsEntered(db, j, s, path[..n], path[n - 1]);
      assert SourceChild(db, j, path[n - 1], path[n]);
    }
  }

  // ----- the copied tree -----

  function FolderCopy(r: FolderRow, parent: nat, j: Job): FolderRow {
    FolderRow(j.dstBucket, parent, r.name, j.user, r.rule, Usable, false)
  }

  function FileCopy(r: FileRow, folder: nat, j: Job): FileRow {
    FileRow(j.dstBucket, folder, r.name, r.size, j.user, r.rule, false)
  }

  /** Which source folders and files have a copy so far, and its id. */
  datatype Copied = Copied(folders: map<nat, nat>, files: map<nat, nat>)

  /** A folder that is copied: entered, its parent copied, all files of the parent copied
      before, and its copy an exact fresh row under the copy of its parent. */
  ghost predicate FolderDone(db: Store, j: Job, now: Store, m: Copied, s: nat)
    requires s in m.folders && s != j.srcRoot
  {
    && Entered(db, j, s) && s in db.folders
    && db.folders[s].parent in m.folders
    && FilesDone(db, j, m, db.folders[s].parent)
    && m.folders[s] !in db.folders && m.folders[s] != 0
    && m.folders[s] in now.folders
    && now.folders[m.folders[s]] == FolderCopy(db.folders[s], m.folders[db.folders[s].parent], j)
  }

  ghost predicate FilesDone(db: Store, j: Job, m: Copied, p: nat) {
    forall x | SourceFile(db, j, p, x) :: x in m.files
  }

  /** A file that is copied: in a copied folder, the copy an exact fresh row with the
      same bytes. */
  ghost predicate FileDone(db: Store, j: Job, now: Store, m: Copied, x: nat)
    requires x in m.files
  {
    && x in db.files && db.files[x].folder in m.folders
    && SourceFile(db, j, db.files[x].folder, x)
    && m.files[x] !in db.files
    && m.files[x] in now.files
    && now.files[m.files[x]] == FileCopy(db.files[x], m.folders[db.files[x].folder], j)
    && x in db.objects && m.files[x] in now.objects && now.objects[m.files[x]] == db.objects[x]
  }

  ghost predicate Injective(m: map<nat, nat>) {
    forall a, b | a in m && b in m && m[a] == m[b] :: a == b
  }

  ghost predicate FoldersDone(db: Store, j: Job, now: Store, m: Copied) {
    forall s {:trigger FolderDone(db, j, now, m, s)} | s in m.folders && s != j.srcRoot :: FolderDone(db, j, now, m, s)
  }

  ghost predicate AllFilesDone(db: Store, j: Job, now: Store, m: Copied) {
    forall x | x in m.files :: FileDone(db, j, now, m, x)
  }

  /** What was there is unchanged. */
  ghost predicate Kept(db: Store, now: Store) {
    && (forall f | f in db.folders :: f in now.folders && now.folders[f] == db.folders[f])
    && (forall x | x in db.files :: x in now.files && now.files[x] == db.files[x])
    && (forall x | x in db.files && x in db.objects :: x in now.objects && now.objects[x] == db.objects[x])
    && (forall x | x in db.files && x in now.objects :: x in db.objects)
  }

  ghost predicate IsFolderCopy(j: Job, m: Copied, f: nat) {
    exists s :: s in m.folders && s != j.srcRoot && m.folders[s] == f
  }

  ghost predicate IsFileCopy(m: Copied, f: nat) {
    exists x :: x in m.files && m.files[x] == f
  }

  /** Nothing but copies was added. */
  ghost predicate OnlyCopies(db: Store, j: Job, now: Store, m: Copied) {
    && (forall f | f in now.folders :: f in db.folders || IsFolderCopy(j, m, f))
    && (forall x | x in now.files :: x in db.files || IsFileCopy(m, x))
  }

  /** A state an interrupted copy may leave: the old store and, next to it, an exact
      image of part of the source tree. */
  ghost predicate Image(db: Store, j: Job, now: Store, m: Copied) {
    && j.srcRoot in m.folders && m.folders[j.srcRoot] == j.dstRoot
    && Injective(m.folders) && Injective(m.files)
    && FoldersDone(db, j, now, m) && AllFilesDone(db, j, now, m)
    && Kept(db, now) && OnlyCopies(db, j, now, m)
  }

  /** Everything visible is copied. */
  ghost predicate Complete(db: Store, j: Job, m: Copied) {
    && (forall s | Entered(db, j, s) :: s in m.folders)
    && (forall s | Entered(db, j, s) :: FilesDone(db, j, m, s))
  }

  ghost predicate UniqueNames(db: Store) {
    UniqueFolderNames(db.folders) && UniqueFileNames(db.files)
  }

  /** No live row of the target bucket lies in folder `p`. */
  ghost predicate EmptyFolder(db: Store, j: Job, p: nat) {
    && (forall c | c in db.folders && !db.folders[c].deleted && db.folders[c].bucket == j.dstBucket :: db.folders[c].parent != p)
    && (forall x | x in db.files && !db.files[x].deleted && db.files[x].bucket == j.dstBucket :: db.files[x].folder != p)
  }

  /** Ids are positive, and every row hangs below a folder row or the bucket root. */
  ghost predicate ParentsExist(db: Store) {
    && 0 !in db.folders && 0 !in db.files
    && (forall c | c in db.folders :: LiesInFolder(db, db.folders[c].parent))
    && (forall x | x in db.files :: LiesInFolder(db, db.files[x].folder))
  }

  predicate LiesInFolder(db: Store, parent: nat) {
    parent == 0 || parent in db.folders
  }

  /** The task as it starts: the target folder is there and empty, it is not one of the
      folders the copy enters, and the source root is not below itself. */
  ghost predicate Ready(db: Store, j: Job) {
    && j.srcRoot in db.folders && j.dstRoot in db.folders
    && !Entered(db, j, j.dstRoot) && EmptyFolder(db, j, j.dstRoot)
    && (forall p | Entered(db, j, p) :: !SourceChild(db, j, p, j.srcRoot))
    && ParentsExist(db) && UniqueNames(db)
  }

  // ----- the copy never feeds on itself -----

  lemma CopyNotEntered(db: Store, j: Job, now: Store, m: Copied, s: nat)
    requires Ready(db, j) && Image(db, j, now, m) && s in m.folders
    ensures !Entered(db, j, m.folders[s])
  {
    if s != j.srcRoot {
      assert FolderDone(db, j, now, m, s);
      if Entered(db, j, m.folders[s]) && m.folders[s] != j.srcRoot {
        EnteredFromParent(db, j, m.folders[s]);
      }
    }
  }

  /** While the target lies outside, the source tree the engine lists is the one it
      started with. */
  lemma SourceUnchanged(db: Store, j: Job, now: Store, m: Copied, p: nat, c: nat)
    requires Ready(db, j) && Image(db, j, now, m) && Entered(db, j, p)
    ensures SourceFolder(now, j, p, c) <==> SourceFolder(db, j, p, c)
    ensures SourceChild(now, j, p, c) <==> SourceChild(db, j, p, c)
    ensures FileOf(now, j, p, c) <==> FileOf(db, j, p, c)
    ensures SourceFile(now, j, p, c) <==> SourceFile(db, j, p, c)
  {
    if SourceFolder(now, j, p, c) && c !in db.folders {
      assert IsFolderCopy(j, m, c);
      var s :| s in m.folders && s != j.srcRoot && m.folders[s] == c;
      assert FolderDone(db, j, now, m, s);
      CopyNotEntered(db, j, now, m, db.folders[s].parent);
    }
    if FileOf(now, j, p, c) && c !in db.files {
      assert IsFileCopy(m, c);
      var x :| x in m.files && m.files[x] == c;
      assert FileDone(db, j, now, m, x);
      CopyNotEntered(db, j, now, m, db.files[x].folder);
    }
  }

  /** A live subfolder of a copied folder is the copy of a subfolder of its source. */
  lemma CopiedChild(db: Store, j: Job, now: Store, m: Copied, p: nat, f: nat) returns (s: nat)
    requires Ready(db, j) && Image(db, j, now, m) && p in m.folders
    requires f in now.folders && !now.folders[f].deleted && now.folders[f].bucket == j.dstBucket && now.folders[f].parent == m.folders[p]
    ensures s in m.folders && s != j.srcRoot && m.folders[s] == f && s in db.folders && db.folders[s].parent == p
    ensures SourceChild(db, j, p, s) && now.folders[f].name == db.folders[s].name
  {
    CopyParent(db, j, now, m, p);
    assert IsFolderCopy(j, m, f);
    s :| s in m.folders && s != j.srcRoot && m.folders[s] == f;
    assert FolderDone(db, j, now, m, s);
    EnteredFromParent(db, j, s);
  }

  /** No row of the old store lies in a copied folder. */
  lemma CopyParent(db: Store, j: Job, now: Store, m: Copied, p: nat)
    requires Ready(db, j) && Image(db, j, now, m) && p in m.folders
    ensures m.folders[p] != 0 && EmptyFolder(db, j, m.folders[p])
  {
    hide UniqueNames, Entered, FilesDone;
    if p != j.srcRoot {
      assert FolderDone(db, j, now, m, p);
    }
  }

  // ----- looking a copy up by name -----

  /** A child's copy is the one folder of that name under the copy of its parent. */
  lemma FolderFound(db: Store, j: Job, now: Store, m: Copied, p: nat, c: nat, f: nat)
    requires Ready(db, j) && Image(db, j, now, m) && p in m.folders && SourceChild(db, j, p, c) && c != j.srcRoot
    ensures FolderNamed(now.folders, j.dstBucket, m.folders[p], db.folders[c].name, f) <==> c in m.folders && m.folders[c] == f
  {
    hide UniqueNames, Ready;
    if FolderNamed(now.folders, j.dstBucket, m.folders[p], db.folders[c].name, f) {
      var s := CopiedChild(db, j, now, m, p, f);
      SameFolderName(db, j, p, c, s);
    }
    if c in m.folders {
      assert FolderDone(db, j, now, m, c);
    }
  }

  /** A file's name is taken under the copy of its folder exactly when the file is
      copied: no other file has it, and no subfolder is created before all files are. */
  lemma FileFound(db: Store, j: Job, now: Store, m: Copied, p: nat, x: nat)
    requires Ready(db, j) && Image(db, j, now, m) && p in m.folders && SourceFile(db, j, p, x)
    ensures NameTaken(now.folders, now.files, j.dstBucket, m.folders[p], db.files[x].name) <==> x in m.files
  {
    hide UniqueNames, Ready;
    if x in m.files {
      assert FileDone(db, j, now, m, x);
      assert FileNamed(now.files, j.dstBucket, m.folders[p], db.files[x].name, m.files[x]);
    }
    if f :| FolderNamed(now.folders, j.dstBucket, m.folders[p], db.files[x].name, f) {
      var s := CopiedChild(db, j, now, m, p, f);
      assert FolderDone(db, j, now, m, s);
    } else if y :| FileNamed(now.files, j.dstBucket, m.folders[p], db.files[x].name, y) {
      var z := CopiedFile(db, j, now, m, p, y);
      SameFileName(db, j, p, x, z);
    }
  }

  /** A live file of a copied folder is the copy of a file of its source. */
  lemma CopiedFile(db: Store, j: Job, now: Store, m: Copied, p: nat, f: nat) returns (x: nat)
    requires Ready(db, j) && Image(db, j, now, m) && p in m.folders
    requires f in now.files && !now.files[f].deleted && now.files[f].bucket == j.dstBucket && now.files[f].folder == m.folders[p]
    ensures x in m.files && m.files[x] == f && SourceFile(db, j, p, x) && now.files[f].name == db.files[x].name
  {
    CopyParent(db, j, now, m, p);
    assert IsFileCopy(m, f);
    x :| x in m.files && m.files[x] == f;
    assert FileDone(db, j, now, m, x);
  }

  lemma SameFileName(db: Store, j: Job, p: nat, x: nat, y: nat)
    requires Ready(db, j) && SourceFile(db, j, p, x) && SourceFile(db, j, p, y)
    requires Lower(db.files[x].name) == Lower(db.files[y].name)
    ensures x == y
  {
    assert FileNamed(db.files, j.srcBucket, p, db.files[x].name, x) && FileNamed(db.files, j.srcBucket, p, db.files[x].name, y);
  }

  lemma SameFolderName(db: Store, j: Job, p: nat, c: nat, d: nat)
    requires Ready(db, j) && SourceChild(db, j, p, c) && SourceChild(db, j, p, d)
    requires Lower(db.folders[c].name) == Lower(db.folders[d].name)
    ensures c == d
  {
    assert FolderNamed(db.folders, j.srcBucket, p, db.folders[c].name, c) && FolderNamed(db.folders, j.srcBucket, p, db.folders[c].name, d);
  }

  // ----- one more copy -----

  ghost function WithFolder(now: Store, id: nat, row: FolderRow): Store {
    now.(folders := now.folders[id := row])
  }

  ghost function WithFile(now: Store, id: nat, row: FileRow, bytes: seq<byte>): Store {
    now.(files := now.files[id := row], objects := now.objects[id := bytes])
  }

  /** The store and the copied part only grew. */
  ghost predicate Grows(now: Store, m: Copied, now1: Store, m1: Copied) {
    && Kept(now, now1)
    && (forall s | s in m.folders :: s in m1.folders && m1.folders[s] == m.folders[s])
    && (forall x | x in m.files :: x in m1.files && m1.files[x] == m.files[x])
  }

  lemma StillDone(db: Store, j: Job, now: Store, m: Copied, now1: Store, m1: Copied)
    requires Image(db, j, now, m) && Grows(now, m, now1, m1)
    ensures forall s | s in m.folders && s != j.srcRoot :: FolderDone(db, j, now1, m1, s)
    ensures forall x | x in m.files :: FileDone(db, j, now1, m1, x)
    ensures forall f | IsFolderCopy(j, m, f) :: IsFolderCopy(j, m1, f)
    ensures forall x | IsFileCopy(m, x) :: IsFileCopy(m1, x)
    ensures Kept(db, now1)
  {
    hide Entered, Injective;
    forall s | s in m.folders && s != j.srcRoot ensures FolderDone(db, j, now1, m1, s) {
      assert FolderDone(db, j, now, m, s);
    }
    forall x | x in m.files ensures FileDone(db, j, now1, m1, x) {
      assert FileDone(db, j, now, m, x);
    }
    forall f | IsFolderCopy(j, m, f) ensures IsFolderCopy(j, m1, f) {
      var s :| s in m.folders && s != j.srcRoot && m.folders[s] == f;
      assert m1.folders[s] == f;
    }
    forall f | IsFileCopy(m, f) ensures IsFileCopy(m1, f) {
      var x :| x in m.files && m.files[x] == f;
      assert m1.files[x] == f;
    }
  }

  /** A copy has a row of its own, so a fresh id is no copy's id. */
  lemma CopyHasRow(db: Store, j: Job, now: Store, m: Copied)
    requires Image(db, j, now, m)
    ensures forall s | s in m.folders && s != j.srcRoot :: m.folders[s] in now.folders
    ensures forall x | x in m.files :: m.files[x] in now.files
  {
    hide Entered, Injective, FilesDone;
    forall s | s in m.folders && s != j.srcRoot ensures m.folders[s] in now.folders {
      assert FolderDone(db, j, now, m, s);
    }
    forall x | x in m.files ensures m.files[x] in now.files {
      assert FileDone(db, j, now, m, x);
    }
  }

  lemma InjectiveAdd(m: map<nat, nat>, a: nat, b: nat)
    requires Injective(m) && a !in m && forall x | x in m :: m[x] != b
    ensures Injective(m[a := b])
  {
  }

  lemma AddFolder(db: Store, j: Job, now: Store, m: Copied, p: nat, c: nat, id: nat)
    requires Image(db, j, now, m) && p in m.folders && FilesDone(db, j, m, p)
    requires SourceChild(db, j, p, c) && Entered(db, j, c) && c != j.srcRoot && c !in m.folders
    requires id !in now.folders && id != 0 && id != j.dstRoot
    ensures Image(db, j, WithFolder(now, id, FolderCopy(db.folders[c], m.folders[p], j)), m.(folders := m.folders[c := id]))
  {
    hide Entered, FolderDone, FileDone, IsFolderCopy, IsFileCopy, Injective;
    var now1 := WithFolder(now, id, FolderCopy(db.folders[c], m.folders[p], j));
    var m1 := m.(folders := m.folders[c := id]);
    CopyHasRow(db, j, now, m);
    StillDone(db, j, now, m, now1, m1);
    NewFolderDone(db, j, now1, m1, p, c, id);
    InjectiveAdd(m.folders, c, id);
  }

  lemma NewFolderDone(db: Store, j: Job, now: Store, m: Copied, p: nat, c: nat, id: nat)
    requires p in m.folders && FilesDone(db, j, m, p) && c in m.folders && m.folders[c] == id
    requires SourceChild(db, j, p, c) && Entered(db, j, c) && c != j.srcRoot
    requires id !in db.folders && id != 0 && id in now.folders && now.folders[id] == FolderCopy(db.folders[c], m.folders[p], j)
    ensures FolderDone(db, j, now, m, c) && IsFolderCopy(j, m, id)
  {
  }

  lemma AddFile(db: Store, j: Job, now: Store, m: Copied, p: nat, x: nat, id: nat)
    requires Image(db, j, now, m) && p in m.folders && SourceFile(db, j, p, x) && x !in m.files
    requires x in db.objects && id !in now.files
    ensures Image(db, j, WithFile(now, id, FileCopy(db.files[x], m.folders[p], j), db.objects[x]), m.(files := m.files[x := id]))
  {
    hide Entered, FolderDone, FileDone, IsFolderCopy, IsFileCopy, Injective, Kept, OnlyCopies;
    var now1 := WithFile(now, id, FileCopy(db.files[x], m.folders[p], j), db.objects[x]);
    var m1 := m.(files := m.files[x := id]);
    CopyHasRow(db, j, now, m);
    FreshFileKeeps(db, now, id, now1.files[id], db.objects[x]);
    StillDone(db, j, now, m, now1, m1);
    NewFileDone(db, j, now1, m1, p, x, id);
    OnlyOneMoreFile(db, j, now, m, now1, m1, id);
    InjectiveAdd(m.files, x, id);
  }

  lemma FreshFileKeeps(db: Store, now: Store, id: nat, row: FileRow, bytes: seq<byte>)
    requires Kept(db, now) && id !in now.files
    ensures Kept(now, WithFile(now, id, row, bytes)) && id !in db.files
  {
  }

  lemma OnlyOneMoreFile(db: Store, j: Job, now: Store, m: Copied, now1: Store, m1: Copied, id: nat)
    requires OnlyCopies(db, j, now, m) && now1.folders == now.folders && now1.files.Keys == now.files.Keys + {id}
    requires IsFileCopy(m1, id) && forall x | IsFileCopy(m, x) :: IsFileCopy(m1, x)
    requires forall f | IsFolderCopy(j, m, f) :: IsFolderCopy(j, m1, f)
    ensures OnlyCopies(db, j, now1, m1)
  {
  }

  lemma NewFileDone(db: Store, j: Job, now: Store, m: Copied, p: nat, x: nat, id: nat)
    requires p in m.folders && SourceFile(db, j, p, x) && x in m.files && m.files[x] == id && id !in db.files
    requires id in now.files && now.files[id] == FileCopy(db.files[x], m.folders[p], j)
    requires x in db.objects && id in now.objects && now.objects[id] == db.objects[x]
    ensures FileDone(db, j, now, m, x) && IsFileCopy(m, id)
  {
  }

  // ----- what a completed copy is -----

  ghost predicate TargetStep(now: Store, j: Job, p: nat, c: nat) {
    && c in now.folders && !now.folders[c].deleted && now.folders[c].bucket == j.dstBucket && now.folders[c].parent == p
  }

  /** A way down live folders of the target bucket. */
  ghost predicate TargetPath(now: Store, j: Job, path: seq<nat>) {
    && |path| > 0 && path[0] == j.dstRoot
    && forall i | 0 <= i < |path| - 1 :: TargetStep(now, j, path[i], path[i + 1])
  }

  ghost predicate SameName(db: Store, now: Store, s: nat, f: nat) {
    s in db.folders && f in now.folders && now.folders[f].name == db.folders[s].name
  }

  /** Path by path the copied tree is the visible source tree: same depth, same names
      below the root, copies in the place of originals. */
  ghost predicate SamePlace(db: Store, j: Job, now: Store, m: Copied, source: seq<nat>, target: seq<nat>) {
    && |source| == |target|
    && forall i | 0 <= i < |source| ::
         source[i] in m.folders && target[i] == m.folders[source[i]] && (i > 0 ==> SameName(db, now, source[i], target[i]))
  }

  lemma PathEntered(db: Store, j: Job, path: seq<nat>, i: nat)
    requires i < |path| && IsPath(db, j, path, j.srcRoot, path[|path| - 1])
    ensures Entered(db, j, path[i])
    ensures i < |path| - 1 ==> SourceChild(db, j, path[i], path[i + 1])
  {
    assert IsPath(db, j, path[..i + 1], j.srcRoot, path[i]);
  }

  lemma StepCopied(db: Store, j: Job, now: Store, m: Copied, p: nat, c: nat)
    requires Ready(db, j) && Image(db, j, now, m) && Complete(db, j, m) && Entered(db, j, p) && SourceChild(db, j, p, c)
    ensures p in m.folders && c in m.folders
    ensures TargetStep(now, j, m.folders[p], m.folders[c]) && SameName(db, now, c, m.folders[c])
  {
    ChildEntered(db, j, p, c);
    assert c != j.srcRoot;
    assert FolderDone(db, j, now, m, c);
  }

  /** Nothing is lost: every way down the visible source tree is there in the copy. */
  lemma SourcePathCopied(db: Store, j: Job, now: Store, m: Copied, path: seq<nat>) returns (target: seq<nat>)
    requires Ready(db, j) && Image(db, j, now, m) && Complete(db, j, m)
    requires |path| > 0 && IsPath(db, j, path, j.srcRoot, path[|path| - 1])
    ensures TargetPath(now, j, target) && SamePlace(db, j, now, m, path, target)
  {
    ImageRoot(db, j, now, m);
    forall i | 0 <= i < |path| ensures path[i] in m.folders && (i > 0 ==> SameName(db, now, path[i], m.folders[path[i]])) {
      PathEntered(db, j, path, i);
      if i > 0 {
        PathEntered(db, j, path, i - 1);
        StepCopied(db, j, now, m, path[i - 1], path[i]);
      }
    }
    target := seq(|path|, i requires 0 <= i < |path| => m.folders[path[i]]);
    hide Ready, Image, Complete, SameName;
    forall i | 0 <= i < |path| - 1 ensures TargetStep(now, j, target[i], target[i + 1]) {
      PathEntered(db, j, path, i);
      StepCopied(db, j, now, m, path[i], path[i + 1]);
    }
  }

  lemma ImageRoot(db: Store, j: Job, now: Store, m: Copied)
    requires Image(db, j, now, m)
    ensures j.srcRoot in m.folders && m.folders[j.srcRoot] == j.dstRoot
  {
  }

  lemma TargetRow(db: Store, j: Job, now: Store, m: Copied)
    requires Ready(db, j) && Image(db, j, now, m)
    ensures j.dstRoot in now.folders
  {
  }

  /** Nothing is added: every way down below the target is the copy of a way down the
      visible source tree. */
  lemma {:induction false} TargetPathIsCopy(db: Store, j: Job, now: Store, m: Copied, path: seq<nat>) returns (source: seq<nat>)
    requires Ready(db, j) && Image(db, j, now, m) && TargetPath(now, j, path)
    ensures |source| > 0 && IsPath(db, j, source, j.srcRoot, source[|source| - 1]) && SamePlace(db, j, now, m, source, path)
  {
    var n := |path| - 1;
    ImageRoot(db, j, now, m);
    hide Ready, Image;
    if n == 0 {
      source := [j.srcRoot];
    } else {
      forall i | 0 <= i < n - 1 ensures TargetStep(now, j, path[..n][i], path[..n][i + 1]) {
        assert TargetStep(now, j, path[i], path[i + 1]);
      }
      source := TargetPathIsCopy(db, j, now, m, path[..n]);
      assert TargetStep(now, j, path[n - 1], path[n]);
      var c := CopiedChild(db, j, now, m, source[n - 1], path[n]);
      source := LongerPlace(db, j, now, m, source, path, c);
    }
  }

  lemma LongerPlace(db: Store, j: Job, now: Store, m: Copied, source: seq<nat>, path: seq<nat>, c: nat) returns (longer: seq<nat>)
    requires |source| > 0 && |path| == |source| + 1
    requires IsPath(db, j, source, j.srcRoot, source[|source| - 1]) && SamePlace(db, j, now, m, source, path[..|source|])
    requires SourceChild(db, j, source[|source| - 1], c) && c in m.folders && m.folders[c] == path[|source|]
    requires SameName(db, now, c, path[|source|])
    ensures |longer| > 0 && IsPath(db, j, longer, j.srcRoot, longer[|longer| - 1]) && SamePlace(db, j, now, m, longer, path)
  {
    hide SameName, SourceChild;
    longer := source + [c];
    forall i | 0 <= i < |longer| - 1 ensures SourceChild(db, j, longer[i], longer[i + 1]) {
      if i < |source| - 1 {
        assert SourceChild(db, j, source[i], source[i + 1]);
      }
    }
    forall i | 0 <= i < |longer|
      ensures longer[i] in m.folders && path[i] == m.folders[longer[i]] && (i > 0 ==> SameName(db, now, longer[i], path[i]))
    {
      if i < |source| {
        assert path[i] == path[..|source|][i] && longer[i] == source[i];
      }
    }
  }

  /** The files of a copied folder are, name by name and byte by byte, the accessible
      files of its source, each once. */
  lemma FilesAreCopied(db: Store, j: Job, now: Store, m: Copied, p: nat)
    requires Ready(db, j) && Image(db, j, now, m) && Complete(db, j, m) && Entered(db, j, p)
    ensures forall x | SourceFile(db, j, p, x) ::
              && x in m.files && m.files[x] in now.files && now.files[m.files[x]] == FileCopy(db.files[x], m.folders[p], j)
              && x in db.objects && m.files[x] in now.objects && now.objects[m.files[x]] == db.objects[x]
    ensures forall f | f in now.files && !now.files[f].deleted && now.files[f].bucket == j.dstBucket && now.files[f].folder == m.folders[p] ::
              exists x :: SourceFile(db, j, p, x) && x in m.files && m.files[x] == f
  {
    forall x | SourceFile(db, j, p, x) ensures x in m.files && FileDone(db, j, now, m, x) {
    }
    forall f | f in now.files && !now.files[f].deleted && now.files[f].bucket == j.dstBucket && now.files[f].folder == m.folders[p]
      ensures exists x :: SourceFile(db, j, p, x) && x in m.files && m.files[x] == f
    {
      var x := CopiedFile(db, j, now, m, p, f);
    }
  }

  /** A copied folder is entered, so its copied files are files of an entered folder. */
  lemma CopiedIsEntered(db: Store, j: Job, now: Store, m: Copied)
    requires Image(db, j, now, m)
    ensures forall s | s in m.folders :: Entered(db, j, s)
    ensures forall x | x in m.files :: x in db.files && Entered(db, j, db.files[x].folder) && SourceFile(db, j, db.files[x].folder, x)
  {
    RootEntered(db, j);
    forall s | s in m.folders ensures Entered(db, j, s) {
      assert s != j.srcRoot ==> FolderDone(db, j, now, m, s);
    }
    forall x | x in m.files
      ensures x in db.files && Entered(db, j, db.files[x].folder) && SourceFile(db, j, db.files[x].folder, x)
    {
      assert FileDone(db, j, now, m, x);
    }
  }

  /** Once complete, a further run adds nothing. */
  lemma CompleteIsStable(db: Store, j: Job, now: Store, m: Copied, later: Store, m1: Copied)
    requires Image(db, j, now, m) && Complete(db, j, m)
    requires Image(db, j, later, m1) && Grows(now, m, later, m1)
    ensures later.folders == now.folders && later.files == now.files
  {
    CopiedIsEntered(db, j, later, m1);
    CopyHasRow(db, j, now, m);
    hide FolderDone, FileDone, FoldersDone, AllFilesDone, Injective;
    NoNewFolder(db, j, now, m, later, m1);
    NoNewFile(db, j, now, m, later, m1);
  }

  lemma NoNewFolder(db: Store, j: Job, now: Store, m: Copied, later: Store, m1: Copied)
    requires OnlyCopies(db, j, later, m1) && Kept(db, now) && Grows(now, m, later, m1) && Complete(db, j, m)
    requires forall s | s in m.folders && s != j.srcRoot :: m.folders[s] in now.folders
    requires forall s | s in m1.folders :: Entered(db, j, s)
    ensures later.folders == now.folders
  {
    hide Entered, FilesDone, IsFileCopy;
    forall f | f in later.folders ensures f in now.folders {
      assert f in db.folders || IsFolderCopy(j, m1, f);
    }
  }

  lemma NoNewFile(db: Store, j: Job, now: Store, m: Copied, later: Store, m1: Copied)
    requires OnlyCopies(db, j, later, m1) && Kept(db, now) && Grows(now, m, later, m1) && Complete(db, j, m)
    requires forall x | x in m.files :: m.files[x] in now.files
    requires forall x | x in m1.files :: x in db.files && Entered(db, j, db.files[x].folder) && SourceFile(db, j, db.files[x].folder, x)
    ensures later.files == now.files
  {
    hide Entered, IsFolderCopy, SourceFile;
    forall f | f in later.files ensures f in now.files {
      if f !in db.files {
        var x :| x in m1.files && m1.files[x] == f;
        assert FilesDone(db, j, m, db.files[x].folder);
      }
    }
  }

  /** No duplicates: names stay unique in every folder through any number of runs. */
  lemma NoDuplicates(db: Store, j: Job, now: Store, m: Copied, p: nat, a: nat, b: nat)
    requires Ready(db, j) && Image(db, j, now, m) && p in m.folders
    ensures forall name | FolderNamed(now.folders, j.dstBucket, m.folders[p], name, a) && FolderNamed(now.folders, j.dstBucket, m.folders[p], name, b) :: a == b
    ensures forall name | FileNamed(now.files, j.dstBucket, m.folders[p], name, a) && FileNamed(now.files, j.dstBucket, m.folders[p], name, b) :: a == b
  {
    hide Image, Ready;
    forall name | FolderNamed(now.folders, j.dstBucket, m.folders[p], name, a) && FolderNamed(now.folders, j.dstBucket, m.folders[p], name, b)
      ensures a == b
    {
      var c := CopiedChild(db, j, now, m, p, a);
      FolderFound(db, j, now, m, p, c, b);
    }
    forall name | FileNamed(now.files, j.dstBucket, m.folders[p], name, a) && FileNamed(now.files, j.dstBucket, m.folders[p], name, b)
      ensures a == b
    {
      var x := CopiedFile(db, j, now, m, p, a);
      var y := CopiedFile(db, j, now, m, p, b);
      SameFileName(db, j, p, x, y);
    }
  }

  // ----- one run after another -----

  function NothingCopied(j: Job): Copied {
    Copied(map[j.srcRoot := j.dstRoot], map[])
  }

  /** A task that has not run yet has copied nothing: the image every first run starts
      from. */
  lemma StartImage(db: Store, j: Job)
    requires Ready(db, j)
    ensures Image(db, j, db, NothingCopied(j))
  {
  }

  ghost predicate Extends(m: Copied, m1: Copied) {
    && (forall s | s in m.folders :: s in m1.folders && m1.folders[s] == m.folders[s])
    && (forall x | x in m.files :: x in m1.files && m1.files[x] == m.files[x])
  }

  /** What one run of the task does to a store it finds as some image. */
  ghost predicate CopyRun(db: Store, j: Job, was: Store, m: Copied, now: Store, m1: Copied, finished: bool) {
    Image(db, j, was, m) ==> Image(db, j, now, m1) && Extends(m, m1) && (finished ==> Complete(db, j, m1))
  }

  /** A larger image has all rows and objects of the smaller one. */
  lemma ImageGrows(db: Store, j: Job, was: Store, m: Copied, now: Store, m1: Copied)
    requires Image(db, j, was, m) && Image(db, j, now, m1) && Extends(m, m1)
    ensures Grows(was, m, now, m1)
  {
    hide Entered, FilesDone, Injective;
    forall f | f in was.folders ensures f in now.folders && now.folders[f] == was.folders[f] {
      if f !in db.folders {
        assert IsFolderCopy(j, m, f);
        var s :| s in m.folders && s != j.srcRoot && m.folders[s] == f;
        assert FolderDone(db, j, was, m, s) && FolderDone(db, j, now, m1, s);
      }
    }
    forall f | f in was.files
      ensures f in now.files && now.files[f] == was.files[f]
      ensures f in was.objects <==> f in now.objects
      ensures f in was.objects ==> now.objects[f] == was.objects[f]
    {
      if f !in db.files {
        assert IsFileCopy(m, f);
        var x :| x in m.files && m.files[x] == f;
        assert FileDone(db, j, was, m, x) && FileDone(db, j, now, m1, x);
      }
    }
  }

  /** Run `i` leads from state `i` to the next one. */
  ghost predicate CopyRunAt(db: Store, j: Job, states: seq<Store>, copied: seq<Copied>, finished: seq<bool>, i: nat)
    requires |states| == |copied| == |finished| + 1 && i < |finished|
  {
    CopyRun(db, j, states[i], copied[i], states[i + 1], copied[i + 1], finished[i])
  }

  /** However often the task runs and wherever each run stops, the store is the old one
      with an exact image of part of the source tree beside it, ever more of it, all of it
      once a run has finished, and the same from then on. */
  lemma {:induction false} AnyNumberOfRuns(db: Store, j: Job, states: seq<Store>, copied: seq<Copied>, finished: seq<bool>, k: nat, n: nat)
    requires Ready(db, j) && |states| == |copied| == |finished| + 1 && k <= n < |states|
    requires states[0] == db && copied[0] == NothingCopied(j)
    requires forall i | 0 <= i < |finished| :: CopyRunAt(db, j, states, copied, finished, i)
    ensures Image(db, j, states[k], copied[k]) && Image(db, j, states[n], copied[n])
    ensures Grows(states[k], copied[k], states[n], copied[n])
    ensures k > 0 && finished[k - 1] ==>
              && Complete(db, j, copied[k])
              && states[n].folders == states[k].folders && states[n].files == states[k].files
    decreases n
  {
    hide Ready, Image, Complete, Grows, Extends;
    if n == 0 {
      StartImage(db, j);
      ExtendsItself(copied[0]);
    } else {
      AnyNumberOfRuns(db, j, states, copied, finished, if k < n then k else n - 1, n - 1);
      assert CopyRunAt(db, j, states, copied, finished, n - 1);
      if k < n {
        GrownExtends(states[k], copied[k], states[n - 1], copied[n - 1]);
        ExtendsMore(copied[k], copied[n - 1], copied[n]);
      } else {
        ExtendsItself(copied[n]);
      }
    }
    ImageGrows(db, j, states[k], copied[k], states[n], copied[n]);
    if k > 0 && finished[k - 1] {
      assert CopyRunAt(db, j, states, copied, finished, k - 1);
      if k < n {
        CompleteIsStable(db, j, states[k], copied[k], states[n], copied[n]);
      }
    }
  }

  // ----- whose rows the copies are, and who may see them -----

  /** Field by field: a copied file has its source's name, size, rule and bytes, lies in the
      copy of its folder, is live in the target bucket and belongs to the task's user. So it
      is visible to exactly those who may see the source. */
  lemma CopiedFileFields(db: Store, j: Job, now: Store, m: Copied, x: nat)
    requires Image(db, j, now, m) && x in m.files
    ensures x in db.files && m.files[x] in now.files && db.files[x].folder in m.folders
    ensures var was, row := db.files[x], now.files[m.files[x]];
            && row.name == was.name && row.size == was.size && row.rule == was.rule
            && row.bucket == j.dstBucket && row.folder == m.folders[was.folder] && row.owner == j.user && !row.deleted
            && (forall op :: ItemVisible(row.rule, op) <==> ItemVisible(was.rule, op))
            && x in now.objects && m.files[x] in now.objects && now.objects[m.files[x]] == now.objects[x]
  {
    assert FileDone(db, j, now, m, x);
  }

  lemma CopiedFolderFields(db: Store, j: Job, now: Store, m: Copied, s: nat)
    requires Image(db, j, now, m) && s in m.folders && s != j.srcRoot
    ensures s in db.folders && m.folders[s] in now.folders && db.folders[s].parent in m.folders
    ensures var was, row := db.folders[s], now.folders[m.folders[s]];
            && row.name == was.name && row.rule == was.rule && row.bucket == j.dstBucket
            && row.parent == m.folders[was.parent] && row.owner == j.user && row.isable == Usable && !row.deleted
            && (forall op :: ItemVisible(row.rule, op) <==> ItemVisible(was.rule, op))
  {
    assert FolderDone(db, j, now, m, s);
  }

  /** What a plain user's copy takes from a folder it enters, by the files' rules: when it
      is complete exactly the live files of the source bucket that are open or of the user's
      groups, before that no others. */
  lemma CopiedByRule(db: Store, j: Job, now: Store, m: Copied, mine: set<nat>, x: nat)
    requires Image(db, j, now, m) && j.op == User(false, mine) && x in db.files && Entered(db, j, db.files[x].folder)
    ensures var row := db.files[x];
            var mayBeSeen := !row.deleted && row.bucket == j.srcBucket
                             && match row.rule
                                case Unrestricted => true
                                case Corrupt => false
                                case Groups(ids) => exists g :: g in ids && g in mine && g != 0;
            (x in m.files ==> mayBeSeen) && (Complete(db, j, m) && mayBeSeen ==> x in m.files)
  {
    hide Entered, FoldersDone, Kept, OnlyCopies, Injective;
    if x in m.files {
      assert FileDone(db, j, now, m, x);
    } else if Complete(db, j, m) {
      assert FilesDone(db, j, m, db.files[x].folder);
    }
    NonzeroGroups(db.files[x].rule);
  }

  lemma NonzeroGroups(rule: VisibilityRule)
    ensures rule.Groups? ==> forall i | 0 <= i < |rule.ids| :: rule.ids[i] in rule.ids
  {
  }

  /** And which subfolders it enters and copies: the live ones of the source bucket that are
      not unusable, by the same rule. */
  lemma CopiedFoldersByRule(db: Store, j: Job, now: Store, m: Copied, mine: set<nat>, c: nat)
    requires Image(db, j, now, m) && j.op == User(false, mine) && c in db.folders && c != j.srcRoot
    requires Entered(db, j, db.folders[c].parent)
    ensures var row := db.folders[c];
            var mayBeEntered := !row.deleted && row.bucket == j.srcBucket && row.isable != Unusable
                                && match row.rule
                                   case Unrestricted => true
                                   case Corrupt => false
                                   case Groups(ids) => exists g :: g in ids && g in mine && g != 0;
            (c in m.folders ==> mayBeEntered) && (Complete(db, j, m) && mayBeEntered ==> c in m.folders)
  {
    hide FoldersDone, Kept, OnlyCopies, Injective, FilesDone, AllFilesDone;
    NonzeroGroups(db.folders[c].rule);
    if c in m.folders {
      CopiedIsEntered(db, j, now, m);
      EnteredFromParent(db, j, c);
    }
    if SourceChild(db, j, db.folders[c].parent, c) {
      ChildEntered(db, j, db.folders[c].parent, c);
    }
  }

  // ----- files without an object -----

  /** Some file the copy takes has no object. */
  ghost predicate ObjectMissing(db: Store, j: Job) {
    exists p, x :: Entered(db, j, p) && SourceFile(db, j, p, x) && x !in db.objects
  }

  /** A complete image has copied an object of every file. */
  lemma CompleteHasObjects(db: Store, j: Job, now: Store, m: Copied)
    requires Image(db, j, now, m) && Complete(db, j, m)
    ensures !ObjectMissing(db, j)
  {
    hide Entered, FoldersDone, Kept, OnlyCopies, Injective;
    forall p, x | Entered(db, j, p) && SourceFile(db, j, p, x) ensures x in db.objects {
      assert FilesDone(db, j, m, p) && x in m.files;
      assert FileDone(db, j, now, m, x);
    }
  }

  /** So with such a file in the source no run of the task ever finishes. */
  lemma MissingObjectBlocks(db: Store, j: Job, states: seq<Store>, copied: seq<Copied>, finished: seq<bool>)
    requires Ready(db, j) && |states| == |copied| == |finished| + 1
    requires states[0] == db && copied[0] == NothingCopied(j)
    requires forall i | 0 <= i < |finished| :: CopyRunAt(db, j, states, copied, finished, i)
    ensures ObjectMissing(db, j) ==> forall i | 0 <= i < |finished| :: !finished[i]
  {
    hide Ready, Image, Complete, Grows, ObjectMissing;
    forall i | 0 <= i < |finished| && finished[i] ensures !ObjectMissing(db, j) {
      AnyNumberOfRuns(db, j, states, copied, finished, i + 1, i + 1);
      CompleteHasObjects(db, j, states[i + 1], copied[i + 1]);
    }
  }

  /** A new empty file is enough: its row has no object yet. */
  lemma EmptyFileBlocksCopy()
    ensures exists db: Store, j: Job :: Ready(db, j) && ObjectMissing(db, j) && forall x | x in db.files :: db.files[x].size == 0
  {
    var a, b := FolderRow(1, 0, "a", 1, Unrestricted, Usable, false), FolderRow(2, 0, "b", 1, Unrestricted, Usable, false);
    var db := Store(map[1 := a, 2 := b], map[1 := FileRow(1, 1, "f", 0, 1, Unrestricted, false)], map[]);
    var j := Job(1, 1, 2, 2, 1, NoOperator);
    forall p | Entered(db, j, p) ensures p == 1 {
      var path :| IsPath(db, j, path, j.srcRoot, p);
      assert |path| > 1 ==> SourceChild(db, j, path[0], path[1]);
    }
    RootEntered(db, j);
    hide Entered;
    assert SourceFile(db, j, 1, 1) && 1 !in db.objects;
    assert ObjectMissing(db, j);
    assert UniqueNames(db) && EmptyFolder(db, j, 2) && ParentsExist(db);
    assert !SourceChild(db, j, 1, 1) && Ready(db, j);
  }

  lemma GrownExtends(now: Store, m: Copied, now1: Store, m1: Copied)
    requires Grows(now, m, now1, m1)
    ensures Extends(m, m1)
  {
  }

  lemma ExtendsItself(m: Copied)
    ensures Extends(m, m)
  {
  }

  lemma ExtendsMore(a: Copied, b: Copied, c: Copied)
    requires Extends(a, b) && Extends(b, c)
    ensures Extends(a, c)
  {
  }

  // ----- why the target must lie outside -----

  /** The folders the copy enters, of the rows there are. */
  ghost function EnteredSet(db: Store, j: Job): set<nat> {
    set s | s in db.folders && Entered(db, j, s)
  }

  /** A store that holds a copy of every entered folder, each in its place and the root's
      copy at the target: what the task would have to reach to finish. */
  ghost predicate Finished(now: Store, j: Job, copy: map<nat, nat>) {
    && copy.Keys == EnteredSet(now, j) && Injective(copy)
    && j.srcRoot in copy && copy[j.srcRoot] == j.dstRoot
    && forall s | s in copy && s != j.srcRoot ::
         && s in now.folders && now.folders[s].parent in copy
         && SourceChild(now, j, copy[now.folders[s].parent], copy[s])
  }

  lemma {:induction false} CopyEntered(now: Store, j: Job, copy: map<nat, nat>, path: seq<nat>, s: nat)
    requires Finished(now, j, copy) && Entered(now, j, j.dstRoot)
    requires IsPath(now, j, path, j.srcRoot, s)
    requires forall p | Entered(now, j, p) :: !SourceChild(now, j, p, j.srcRoot)
    ensures s in copy && Entered(now, j, copy[s])
  {
    var n := |path| - 1;
    if n > 0 {
      assert IsPath(now, j, path[..n], j.srcRoot, path[n - 1]);
      CopyEntered(now, j, copy, path[..n], path[n - 1]);
      assert Entered(now, j, path[n - 1]);
      assert SourceChild(now, j, path[n - 1], path[n]);
      assert s != j.srcRoot;
      assert Entered(now, j, s);
      ChildEntered(now, j, copy[path[n - 1]], copy[s]);
    }
  }

  lemma InjectiveRange(m: map<nat, nat>)
    requires Injective(m)
    ensures |m.Values| == |m.Keys|
    decreases m.Keys
  {
    if m.Keys == {} {
      assert m.Values == {};
    } else {
      var k :| k in m.Keys;
      var rest := map x | x in m && x != k :: m[x];
      assert rest.Keys == m.Keys - {k};
      InjectiveRange(rest);
      forall v | v in m.Values ensures v in rest.Values || v == m[k] {
        var x :| x in m && m[x] == v;
        assert x != k ==> rest[x] == v;
      }
      forall v | v in rest.Values ensures v in m.Values && v != m[k] {
        var x :| x in rest && rest[x] == v;
        assert m[x] == v;
      }
      assert m.Values == rest.Values + {m[k]};
    }
  }

  /** What the engine has copied, wherever the target lies: entered folders, each copy an
      exact row under the copy of the folder's parent. */
  ghost predicate CopiedAsFound(now: Store, j: Job, copy: map<nat, nat>) {
    && j.srcRoot in copy && copy[j.srcRoot] == j.dstRoot && Injective(copy)
    && forall s | s in copy && s != j.srcRoot :: ExactCopy(now, j, copy, s)
  }

  ghost predicate ExactCopy(now: Store, j: Job, copy: map<nat, nat>, s: nat)
    requires s in copy
  {
    && s in now.folders && Entered(now, j, s) && now.folders[s].parent in copy && copy[s] in now.folders
    && now.folders[copy[s]] == FolderCopy(now.folders[s], copy[now.folders[s].parent], j)
  }

  lemma {:induction false} EnteredKept(db: Store, j: Job, now: Store, path: seq<nat>, s: nat)
    requires Kept(db, now) && IsPath(db, j, path, j.srcRoot, s)
    ensures Entered(now, j, s)
  {
    forall i | 0 <= i < |path| - 1 ensures SourceChild(now, j, path[i], path[i + 1]) {
      assert SourceChild(db, j, path[i], path[i + 1]);
    }
    assert IsPath(now, j, path, j.srcRoot, s);
  }

  /** Every image the task leaves is such a copy. */
  lemma ImageIsCopiedAsFound(db: Store, j: Job, now: Store, m: Copied)
    requires Image(db, j, now, m)
    ensures CopiedAsFound(now, j, m.folders)
  {
    forall s | s in m.folders && s != j.srcRoot ensures ExactCopy(now, j, m.folders, s) {
      assert FolderDone(db, j, now, m, s);
      var path :| IsPath(db, j, path, j.srcRoot, s);
      EnteredKept(db, j, now, path, s);
    }
  }

  /** If it holds every folder it enters, it is finished in the sense above. */
  lemma CoveredIsFinished(now: Store, j: Job, copy: map<nat, nat>)
    requires CopiedAsFound(now, j, copy) && j.srcBucket == j.dstBucket && j.srcRoot in now.folders
    requires forall s | Entered(now, j, s) :: s in copy
    ensures Finished(now, j, copy)
  {
    RootEntered(now, j);
    forall s | s in copy ensures s in EnteredSet(now, j) {
      assert s != j.srcRoot ==> ExactCopy(now, j, copy, s);
    }
    forall s | s in EnteredSet(now, j) ensures s in copy {
    }
    forall s | s in copy && s != j.srcRoot
      ensures s in now.folders && now.folders[s].parent in copy && SourceChild(now, j, copy[now.folders[s].parent], copy[s])
    {
      assert ExactCopy(now, j, copy, s);
      EnteredFromParent(now, j, s);
    }
  }

  /** A copy into a folder the copy itself enters never ends: whatever it has copied, it
      enters a folder it has not copied yet. */
  lemma NoCopyIntoItself(now: Store, j: Job, copy: map<nat, nat>)
    requires CopiedAsFound(now, j, copy) && j.srcBucket == j.dstBucket && j.srcRoot in now.folders
    requires forall p | Entered(now, j, p) :: !SourceChild(now, j, p, j.srcRoot)
    requires Entered(now, j, j.dstRoot) && j.dstRoot != j.srcRoot
    ensures exists s :: Entered(now, j, s) && s !in copy
  {
    if forall s | Entered(now, j, s) :: s in copy {
      CoveredIsFinished(now, j, copy);
      NeverFinished(now, j, copy);
    }
  }

  /** So no image of the task is complete there. */
  lemma ImageInsideIsIncomplete(db: Store, j: Job, now: Store, m: Copied)
    requires Image(db, j, now, m) && j.srcBucket == j.dstBucket && j.srcRoot in now.folders
    requires forall p | Entered(now, j, p) :: !SourceChild(now, j, p, j.srcRoot)
    requires Entered(now, j, j.dstRoot) && j.dstRoot != j.srcRoot
    ensures !Complete(now, j, m)
  {
    ImageIsCopiedAsFound(db, j, now, m);
    NoCopyIntoItself(now, j, m.folders);
  }

  /** One round of the copy loop: the folder it works on, that folder's copy, and the round
      that had put the folder on the stack. */
  datatype Round = Round(src: nat, copy: nat, from: nat)

  ghost predicate FoldersKept(db: Store, now: Store) {
    forall f | f in db.folders :: f in now.folders && now.folders[f] == db.folders[f]
  }

  /** The round works on a folder that an earlier round listed, and finds or makes an exact
      copy of it under that round's copy. */
  ghost predicate RoundOk(states: seq<Store>, j: Job, rounds: seq<Round>, i: nat)
    requires i < |rounds| && |states| == |rounds| + 1
  {
    var r, now := rounds[i], states[i + 1];
    && r.from < i && SourceChild(now, j, rounds[r.from].src, r.src)
    && r.copy in now.folders && now.folders[r.copy] == FolderCopy(now.folders[r.src], rounds[r.from].copy, j)
  }

  ghost predicate WorkedOnLater(rounds: seq<Round>, i: nat, c: nat) {
    exists k :: i < k < |rounds| && rounds[k].src == c && rounds[k].from == i
  }

  /** The rounds of a run whose stack has emptied; `states[i + 1]` is the store in which
      round `i` lists the subfolders. All it listed was worked on later. */
  ghost predicate StackEmptied(j: Job, states: seq<Store>, rounds: seq<Round>) {
    && |states| == |rounds| + 1 && |rounds| > 0
    && rounds[0].src == j.srcRoot && rounds[0].copy == j.dstRoot
    && (forall i, k | 0 <= i <= k < |states| :: FoldersKept(states[i], states[k]))
    && (forall i | 0 < i < |rounds| :: RoundOk(states, j, rounds, i))
    && (forall i, c | 0 <= i < |rounds| && SourceChild(states[i + 1], j, rounds[i].src, c) :: WorkedOnLater(rounds, i, c))
  }

  /** Rounds one below the other: down the path to the target, and from there on down the
      copies of the rounds before. */
  ghost predicate Descent(rounds: seq<Round>, path: seq<nat>, ix: seq<nat>) {
    && |ix| > 0 && |path| > 1 && ix[0] == 0 && Rising(ix, |rounds|)
    && forall k | 0 <= k < |ix| :: DescentAt(rounds, path, ix, k)
  }

  ghost predicate Rising(ix: seq<nat>, n: nat) {
    (forall k | 0 <= k < |ix| :: ix[k] < n) && forall k, l | 0 <= k < l < |ix| :: ix[k] < ix[l]
  }

  ghost predicate DescentAt(rounds: seq<Round>, path: seq<nat>, ix: seq<nat>, k: nat)
    requires k < |ix| && |path| > 1 && Rising(ix, |rounds|)
  {
    && (k > 0 ==> rounds[ix[k]].from == ix[k - 1])
    && (k < |path| ==> rounds[ix[k]].src == path[k])
    && (k >= |path| - 1 ==> rounds[ix[k]].src == rounds[ix[k - (|path| - 1)]].copy)
  }

  /** What the next round down works on, and that the last one lists it. */
  lemma DescentGoesOn(j: Job, states: seq<Store>, rounds: seq<Round>, path: seq<nat>, ix: seq<nat>) returns (c: nat)
    requires StackEmptied(j, states, rounds) && Descent(rounds, path, ix) && j.srcBucket == j.dstBucket
    requires IsPath(states[0], j, path, j.srcRoot, j.dstRoot)
    ensures SourceChild(states[ix[|ix| - 1] + 1], j, rounds[ix[|ix| - 1]].src, c)
    ensures |ix| < |path| ==> c == path[|ix|]
    ensures |ix| >= |path| - 1 ==> c == rounds[ix[|ix| - (|path| - 1)]].copy
  {
    var n, m := |path| - 1, |ix| - 1;
    var now := states[ix[m] + 1];
    assert DescentAt(rounds, path, ix, m);
    if m < n {
      c := path[m + 1];
      assert SourceChild(states[0], j, path[m], path[m + 1]);
      assert FoldersKept(states[0], now);
    } else {
      var a := ix[m + 1 - n];
      c := rounds[a].copy;
      assert DescentAt(rounds, path, ix, m + 1 - n);
      assert RoundOk(states, j, rounds, a);
      assert FoldersKept(states[a + 1], now);
    }
  }

  lemma DescentMore(rounds: seq<Round>, path: seq<nat>, ix: seq<nat>, k: nat)
    requires Descent(rounds, path, ix) && ix[|ix| - 1] < k < |rounds| && rounds[k].from == ix[|ix| - 1]
    requires |ix| < |path| ==> rounds[k].src == path[|ix|]
    requires |ix| >= |path| - 1 ==> rounds[k].src == rounds[ix[|ix| - (|path| - 1)]].copy
    ensures Descent(rounds, path, ix + [k])
  {
    RisingMore(ix, k, |rounds|);
    hide Rising;
    forall i | 0 <= i < |ix| ensures DescentAt(rounds, path, ix + [k], i) {
      assert DescentAt(rounds, path, ix, i);
      DescentStays(rounds, path, ix, k, i);
    }
  }

  lemma RisingMore(ix: seq<nat>, k: nat, n: nat)
    requires |ix| > 0 && Rising(ix, n) && ix[|ix| - 1] < k < n
    ensures Rising(ix + [k], n)
  {
    forall i | 0 <= i < |ix| ensures ix[i] < k {
      assert i < |ix| - 1 ==> ix[i] < ix[|ix| - 1];
    }
  }

  lemma DescentStays(rounds: seq<Round>, path: seq<nat>, ix: seq<nat>, k: nat, i: nat)
    requires |path| > 1 && Rising(ix, |rounds|) && Rising(ix + [k], |rounds|) && i < |ix| && DescentAt(rounds, path, ix, i)
    ensures DescentAt(rounds, path, ix + [k], i)
  {
  }

  lemma ListedIsWorkedOn(j: Job, states: seq<Store>, rounds: seq<Round>, i: nat, c: nat) returns (k: nat)
    requires StackEmptied(j, states, rounds) && i < |rounds| && SourceChild(states[i + 1], j, rounds[i].src, c)
    ensures i < k < |rounds| && rounds[k].src == c && rounds[k].from == i
  {
    assert WorkedOnLater(rounds, i, c);
    k :| i < k < |rounds| && rounds[k].src == c && rounds[k].from == i;
  }

  lemma {:induction false} DescentOfLength(j: Job, states: seq<Store>, rounds: seq<Round>, path: seq<nat>, n: nat) returns (ix: seq<nat>)
    requires StackEmptied(j, states, rounds) && j.srcBucket == j.dstBucket
    requires IsPath(states[0], j, path, j.srcRoot, j.dstRoot) && |path| > 1
    ensures Descent(rounds, path, ix) && |ix| == n + 1 && n <= ix[n] < |rounds|
  {
    if n == 0 {
      ix := [0];
    } else {
      var up := DescentOfLength(j, states, rounds, path, n - 1);
      var c := DescentGoesOn(j, states, rounds, path, up);
      assert up[n - 1] < |rounds|;
      var k := ListedIsWorkedOn(j, states, rounds, up[n - 1], c);
      hide Descent, StackEmptied, IsPath, SourceChild, DescentAt;
      DescentMore(rounds, path, up, k);
      ix := up + [k];
    }
  }

  /** And no run into such a target ends: its stack never empties, in whatever order it
      works, because every copy it makes on the way is listed below the target again. */
  lemma StackNeverEmpties(j: Job, states: seq<Store>, rounds: seq<Round>)
    requires |states| > 0 && j.srcBucket == j.dstBucket
    requires Entered(states[0], j, j.dstRoot) && j.dstRoot != j.srcRoot
    ensures !StackEmptied(j, states, rounds)
  {
    if StackEmptied(j, states, rounds) {
      var path :| IsPath(states[0], j, path, j.srcRoot, j.dstRoot);
      var ix := DescentOfLength(j, states, rounds, path, |rounds|);
    }
  }

  /** The tree would have to hold an image of itself that misses the root. */
  lemma NeverFinished(now: Store, j: Job, copy: map<nat, nat>)
    requires j.srcRoot in now.folders && forall p | Entered(now, j, p) :: !SourceChild(now, j, p, j.srcRoot)
    requires Entered(now, j, j.dstRoot) && j.dstRoot != j.srcRoot
    ensures !Finished(now, j, copy)
  {
    if Finished(now, j, copy) {
      forall v | v in copy.Values ensures v in EnteredSet(now, j) - {j.srcRoot} {
        var s :| s in copy && copy[s] == v;
        var path :| IsPath(now, j, path, j.srcRoot, s);
        CopyEntered(now, j, copy, path, s);
        if s != j.srcRoot {
          var p := now.folders[s].parent;
          var up :| IsPath(now, j, up, j.srcRoot, p);
          CopyEntered(now, j, copy, up, p);
        }
        if v != j.srcRoot {
          EnteredFromParent(now, j, v);
        }
      }
      InjectiveRange(copy);
      RootEntered(now, j);
      SubsetSmaller(copy.Values, EnteredSet(now, j), j.srcRoot);
    }
  }

  lemma SubsetSmaller(a: set<nat>, b: set<nat>, x: nat)
    requires a <= b - {x} && x in b
    ensures |a| < |b|
  {
    var rest := b - {x};
    assert b == rest + {x};
    SubsetSize(a, rest);
  }
}

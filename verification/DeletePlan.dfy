/** What a delete-directory task has to do: which rows it reaches, which of them it
    removes, and why it may be interrupted and started again at any point. */
module DeletePlan {
  import opened Rows

  /** A delete-directory task: its bucket, its root folder and its operator. */
  datatype Task = Task(bucket: nat, root: nat, op: Operator)

  predicate Child(db: Tables, t: Task, p: nat, c: nat) {
    c in db.folders && !db.folders[c].deleted && db.folders[c].bucket == t.bucket && db.folders[c].parent == p
  }

  predicate VisibleChild(db: Tables, t: Task, p: nat, c: nat) {
    Child(db, t, p, c) && ItemVisible(db.folders[c].rule, t.op)
  }

  predicate FileIn(db: Tables, t: Task, p: nat, x: nat) {
    x in db.files && !db.files[x].deleted && db.files[x].bucket == t.bucket && db.files[x].folder == p
  }

  predicate VisibleFile(db: Tables, t: Task, p: nat, x: nat) {
    FileIn(db, t, p, x) && ItemVisible(db.files[x].rule, t.op)
  }

  /** The folder directly holds an item the operator may not see. */
  ghost predicate HasInvisible(db: Tables, t: Task, p: nat) {
    || (exists c :: Child(db, t, p, c) && !VisibleChild(db, t, p, c))
    || (exists x :: FileIn(db, t, p, x) && !VisibleFile(db, t, p, x))
  }

  ghost predicate IsPath(db: Tables, t: Task, path: seq<nat>, a: nat, g: nat) {
    && |path| > 0 && path[0] == a && path[|path| - 1] == g
    && forall i | 0 <= i < |path| - 1 :: VisibleChild(db, t, path[i], path[i + 1])
  }

  /** `g` lies below `a`, and every folder on the way down is visible. */
  ghost predicate Reach(db: Tables, t: Task, a: nat, g: nat) {
    exists path :: IsPath(db, t, path, a, g)
  }

  /** Something invisible stays behind in the reachable subtree of `f`. */
  ghost predicate Dirty(db: Tables, t: Task, f: nat) {
    exists g :: Reach(db, t, f, g) && HasInvisible(db, t, g)
  }

  /** The task is sound: rows have positive ids, the root is a live folder of the
      bucket, and it is not a child of a folder below it. */
  ghost predicate Sound(db: Tables, t: Task) {
    && 0 !in db.folders && 0 !in db.files
    && t.root in db.folders && !db.folders[t.root].deleted && db.folders[t.root].bucket == t.bucket
    && forall x | Reach(db, t, t.root, x) :: !Child(db, t, x, t.root)
  }

  function Recycled(r: FolderRow): FolderRow {
    r.(isable := Unusable, deleted := true)
  }

  function Restored(r: FolderRow): FolderRow {
    if r.isable == Deleting then r.(isable := Usable) else r
  }

  /** A file's row once the folders in `expanded` had their files processed. */
  ghost function FileNow(db: Tables, t: Task, expanded: set<nat>, x: nat): FileRow
    requires x in db.files
  {
    var r := db.files[x];
    if r.folder in expanded && VisibleFile(db, t, r.folder, x) then r.(deleted := true) else r
  }

  /** A folder's row once the folders in `done` were finished. */
  ghost function FolderNow(db: Tables, t: Task, done: set<nat>, f: nat): FolderRow
    requires f in db.folders
  {
    var r := db.folders[f];
    if f !in done then r
    else if !Dirty(db, t, f) then Recycled(r)
    else if f == t.root then Restored(r)
    else r
  }

  ghost function Progress(db: Tables, t: Task, expanded: set<nat>, done: set<nat>): Tables {
    Tables(map f | f in db.folders :: FolderNow(db, t, done, f), map x | x in db.files :: FileNow(db, t, expanded, x))
  }

  ghost function Reached(db: Tables, t: Task): set<nat> {
    set f | f in db.folders && Reach(db, t, t.root, f)
  }

  /** The tables after a completed task. */
  ghost function Final(db: Tables, t: Task): Tables {
    Progress(db, t, Reached(db, t), Reached(db, t))
  }

  // ----- reachability -----

  lemma ReachSelf(db: Tables, t: Task, a: nat)
    ensures Reach(db, t, a, a)
  {
    assert IsPath(db, t, [a], a, a);
  }

  lemma ReachDown(db: Tables, t: Task, a: nat, x: nat, c: nat)
    requires Reach(db, t, a, x) && VisibleChild(db, t, x, c)
    ensures Reach(db, t, a, c)
  {
    var path :| IsPath(db, t, path, a, x);
    assert IsPath(db, t, path + [c], a, c);
  }

  lemma ReachUp(db: Tables, t: Task, a: nat, c: nat, g: nat)
    requires VisibleChild(db, t, a, c) && Reach(db, t, c, g)
    ensures Reach(db, t, a, g)
  {
    var path :| IsPath(db, t, path, c, g);
    assert IsPath(db, t, [a] + path, a, g);
  }

  lemma ReachFirst(db: Tables, t: Task, a: nat, g: nat) returns (c: nat)
    requires Reach(db, t, a, g) && a != g
    ensures VisibleChild(db, t, a, c) && Reach(db, t, c, g)
  {
    var path :| IsPath(db, t, path, a, g);
    c := path[1];
    assert IsPath(db, t, path[1..], c, g);
  }

  /** A set that holds `a` and all visible children of its members holds all below `a`. */
  lemma ClosedHoldsReach(db: Tables, t: Task, s: set<nat>, a: nat, g: nat)
    requires a in s && forall x, c | x in s && VisibleChild(db, t, x, c) :: c in s
    requires Reach(db, t, a, g)
    ensures g in s
  {
    var path :| IsPath(db, t, path, a, g);
    ClosedHoldsPath(db, t, s, path, a, g);
  }

  lemma {:induction false} ClosedHoldsPath(db: Tables, t: Task, s: set<nat>, path: seq<nat>, a: nat, g: nat)
    requires a in s && forall x, c | x in s && VisibleChild(db, t, x, c) :: c in s
    requires IsPath(db, t, path, a, g)
    ensures g in s
  {
    if |path| > 1 {
      assert VisibleChild(db, t, path[0], path[1]);
      ClosedHoldsPath(db, t, s, path[1..], path[1], g);
    }
  }

  /** What stays behind below a folder stays in it or below one of its children. */
  lemma DirtyByChildren(db: Tables, t: Task, f: nat)
    ensures Dirty(db, t, f) <==> HasInvisible(db, t, f) || exists c :: VisibleChild(db, t, f, c) && Dirty(db, t, c)
  {
    if Dirty(db, t, f) && !HasInvisible(db, t, f) {
      var g :| Reach(db, t, f, g) && HasInvisible(db, t, g);
      var c := ReachFirst(db, t, f, g);
      assert Dirty(db, t, c);
    }
    if HasInvisible(db, t, f) {
      ReachSelf(db, t, f);
    }
    if c :| VisibleChild(db, t, f, c) && Dirty(db, t, c) {
      var g :| Reach(db, t, c, g) && HasInvisible(db, t, g);
      ReachUp(db, t, f, c, g);
    }
  }

  lemma {:induction false} ReachLive(db: Tables, t: Task, path: seq<nat>, a: nat, g: nat)
    requires IsPath(db, t, path, a, g) && a in db.folders && !db.folders[a].deleted
    ensures g in db.folders && !db.folders[g].deleted
  {
    if |path| > 1 {
      assert VisibleChild(db, t, path[|path| - 2], path[|path| - 1]);
    }
  }

  // ----- interrupted runs -----

  /** A state an interrupted task may leave: only rows of the plan changed, as planned,
      and a folder is recycled only after everything it will delete below. */
  ghost predicate Partial(db: Tables, t: Task, now: Tables) {
    && now.folders.Keys == db.folders.Keys && now.files.Keys == db.files.Keys
    && (forall x | x in db.files ::
          now.files[x] == db.files[x] || now.files[x] == FileNow(db, t, Reached(db, t), x))
    && (forall f | f in db.folders ::
          now.folders[f] == db.folders[f] || now.folders[f] == FolderNow(db, t, Reached(db, t), f))
    && (forall f, g | f in db.folders && g in db.folders && Gone(db, now, f) && Reach(db, t, f, g) ::
          Gone(db, now, g) && forall x | VisibleFile(db, t, g, x) :: now.files[x].deleted)
  }

  /** The folder was live and has been recycled since. */
  ghost predicate Gone(db: Tables, now: Tables, f: nat) {
    f in db.folders && f in now.folders && !db.folders[f].deleted && now.folders[f].deleted
  }

  /** Rows keep everything but their deletion mark and usability. */
  lemma PartialRows(db: Tables, t: Task, now: Tables, p: nat, c: nat)
    requires Partial(db, t, now)
    ensures Child(now, t, p, c) ==> Child(db, t, p, c)
    ensures Child(db, t, p, c) && !Gone(db, now, c) ==> Child(now, t, p, c)
    ensures FileIn(now, t, p, c) ==> FileIn(db, t, p, c)
    ensures c in db.folders ==> now.folders[c].rule == db.folders[c].rule
    ensures c in db.files ==> now.files[c].rule == db.files[c].rule
  {
  }

  lemma {:induction false} PathBack(db: Tables, t: Task, now: Tables, path: seq<nat>, a: nat, g: nat)
    requires Partial(db, t, now) && IsPath(now, t, path, a, g)
    ensures IsPath(db, t, path, a, g)
  {
    forall i | 0 <= i < |path| - 1 ensures VisibleChild(db, t, path[i], path[i + 1]) {
      assert VisibleChild(now, t, path[i], path[i + 1]);
      PartialRows(db, t, now, path[i], path[i + 1]);
    }
  }

  lemma {:induction false} PathForward(db: Tables, t: Task, now: Tables, path: seq<nat>, a: nat, g: nat)
    requires Partial(db, t, now) && IsPath(db, t, path, a, g) && g in db.folders && !Gone(db, now, g)
    ensures IsPath(now, t, path, a, g)
  {
    forall i | 0 <= i < |path| - 1 ensures VisibleChild(now, t, path[i], path[i + 1]) {
      assert VisibleChild(db, t, path[i], path[i + 1]);
      PartialRows(db, t, now, path[i], path[i + 1]);
      assert IsPath(db, t, path[i + 1..], path[i + 1], g);
      assert Reach(db, t, path[i + 1], g);
    }
  }

  /** In an interrupted state, what is still there is reached the same way. */
  lemma ReachNow(db: Tables, t: Task, now: Tables, a: nat, g: nat)
    requires Partial(db, t, now) && g in db.folders
    ensures Reach(now, t, a, g) ==> Reach(db, t, a, g)
    ensures Reach(db, t, a, g) && !Gone(db, now, g) ==> Reach(now, t, a, g)
  {
    if Reach(now, t, a, g) {
      var path :| IsPath(now, t, path, a, g);
      PathBack(db, t, now, path, a, g);
    }
    if Reach(db, t, a, g) && !Gone(db, now, g) {
      var path :| IsPath(db, t, path, a, g);
      PathForward(db, t, now, path, a, g);
    }
  }

  lemma ReachedLive(db: Tables, t: Task, f: nat)
    requires Sound(db, t) && Reach(db, t, t.root, f)
    ensures f in db.folders && !db.folders[f].deleted
  {
    var path :| IsPath(db, t, path, t.root, f);
    ReachLive(db, t, path, t.root, f);
  }

  /** A child below a reachable folder is itself reached only if it is visible. */
  lemma ReachedVisible(db: Tables, t: Task, p: nat, c: nat)
    requires Sound(db, t) && Reach(db, t, t.root, p) && Child(db, t, p, c) && Reach(db, t, t.root, c)
    ensures VisibleChild(db, t, p, c)
  {
    var path :| IsPath(db, t, path, t.root, c);
    assert |path| > 1;
    assert VisibleChild(db, t, path[|path| - 2], path[|path| - 1]);
  }

  lemma InvisibleNow(db: Tables, t: Task, now: Tables, g: nat)
    requires Sound(db, t) && Partial(db, t, now) && Reach(db, t, t.root, g)
    ensures HasInvisible(now, t, g) <==> HasInvisible(db, t, g)
  {
    forall c ensures Child(now, t, g, c) && !VisibleChild(now, t, g, c) <==> Child(db, t, g, c) && !VisibleChild(db, t, g, c) {
      PartialRows(db, t, now, g, c);
      if Child(db, t, g, c) && !VisibleChild(db, t, g, c) && Gone(db, now, c) {
        assert c in Reached(db, t);
        ReachedVisible(db, t, g, c);
      }
    }
    forall x ensures FileIn(now, t, g, x) && !VisibleFile(now, t, g, x) <==> FileIn(db, t, g, x) && !VisibleFile(db, t, g, x) {
      PartialRows(db, t, now, g, x);
    }
  }

  lemma GoneIsClean(db: Tables, t: Task, now: Tables, f: nat)
    requires Partial(db, t, now) && Gone(db, now, f)
    ensures f in Reached(db, t) && !Dirty(db, t, f)
  {
  }

  lemma DirtyNow(db: Tables, t: Task, now: Tables, f: nat)
    requires Sound(db, t) && Partial(db, t, now) && Reach(db, t, t.root, f) && !Gone(db, now, f)
    ensures Dirty(now, t, f) <==> Dirty(db, t, f)
  {
    if Dirty(now, t, f) {
      var g :| Reach(now, t, f, g) && HasInvisible(now, t, g);
      var path :| IsPath(now, t, path, f, g);
      PathBack(db, t, now, path, f, g);
      ReachTrans(db, t, t.root, f, g);
      InvisibleNow(db, t, now, g);
    }
    if Dirty(db, t, f) {
      var g :| Reach(db, t, f, g) && HasInvisible(db, t, g);
      ReachTrans(db, t, t.root, f, g);
      ReachedLive(db, t, g);
      ReachSelf(db, t, g);
      assert Dirty(db, t, g);
      if Gone(db, now, g) {
        GoneIsClean(db, t, now, g);
      }
      ReachNow(db, t, now, f, g);
      InvisibleNow(db, t, now, g);
    }
  }

  lemma ReachTrans(db: Tables, t: Task, a: nat, b: nat, c: nat)
    requires Reach(db, t, a, b) && Reach(db, t, b, c)
    ensures Reach(db, t, a, c)
  {
    var p, q :| IsPath(db, t, p, a, b) && IsPath(db, t, q, b, c);
    var path := p + q[1..];
    forall i | 0 <= i < |path| - 1 ensures VisibleChild(db, t, path[i], path[i + 1]) {
      if i < |p| - 1 {
        assert VisibleChild(db, t, p[i], p[i + 1]);
      } else {
        var k := i - (|p| - 1);
        assert VisibleChild(db, t, q[k], q[k + 1]);
      }
    }
    assert IsPath(db, t, path, a, c);
  }

  /** An interrupted task that still has its root is sound again. */
  lemma SoundNow(db: Tables, t: Task, now: Tables)
    requires Sound(db, t) && Partial(db, t, now) && !Gone(db, now, t.root)
    ensures Sound(now, t)
  {
    forall x | Reach(now, t, t.root, x) ensures !Child(now, t, x, t.root) {
      var path :| IsPath(now, t, path, t.root, x);
      PathBack(db, t, now, path, t.root, x);
      PartialRows(db, t, now, x, t.root);
    }
  }

  lemma ReachedNow(db: Tables, t: Task, now: Tables, f: nat)
    requires Sound(db, t) && Partial(db, t, now) && !Gone(db, now, t.root) && f in db.folders
    ensures f in Reached(now, t) <==> f in Reached(db, t) && !Gone(db, now, f)
  {
    ReachNow(db, t, now, t.root, f);
    if f in Reached(now, t) && Gone(db, now, f) {
      var path :| IsPath(now, t, path, t.root, f);
      ReachLive(now, t, path, t.root, f);
    }
  }

  lemma FolderFinalNow(db: Tables, t: Task, now: Tables, f: nat)
    requires Sound(db, t) && Partial(db, t, now) && !Gone(db, now, t.root) && f in db.folders
    ensures FolderNow(now, t, Reached(now, t), f) == FolderNow(db, t, Reached(db, t), f)
  {
    ReachedNow(db, t, now, f);
    if f in Reached(db, t) {
      ReachedLive(db, t, f);
      if !Gone(db, now, f) {
        DirtyNow(db, t, now, f);
      }
    }
  }

  lemma FileFinalNow(db: Tables, t: Task, now: Tables, x: nat)
    requires Sound(db, t) && Partial(db, t, now) && !Gone(db, now, t.root) && x in db.files
    ensures FileNow(now, t, Reached(now, t), x) == FileNow(db, t, Reached(db, t), x)
  {
    var p := db.files[x].folder;
    if p in db.folders {
      ReachedNow(db, t, now, p);
      if Gone(db, now, p) {
        ReachSelf(db, t, p);
      }
    }
  }

  /** Starting again from an interrupted state leads to the same final rows. */
  lemma ResumeSameEnd(db: Tables, t: Task, now: Tables)
    requires Sound(db, t) && Partial(db, t, now) && !Gone(db, now, t.root)
    ensures Sound(now, t) && Final(now, t) == Final(db, t)
  {
    SoundNow(db, t, now);
    forall f | f in db.folders ensures Final(now, t).folders[f] == Final(db, t).folders[f] {
      FolderFinalNow(db, t, now, f);
    }
    forall x | x in db.files ensures Final(now, t).files[x] == Final(db, t).files[x] {
      FileFinalNow(db, t, now, x);
    }
  }

  /** An interrupted task whose root is already recycled has nothing left to do. */
  lemma GoneRootIsFinal(db: Tables, t: Task, now: Tables)
    requires Sound(db, t) && Partial(db, t, now) && Gone(db, now, t.root)
    ensures now == Final(db, t)
  {
    forall f | f in db.folders ensures now.folders[f] == Final(db, t).folders[f] {
      if f in Reached(db, t) {
        ReachedLive(db, t, f);
      }
    }
    forall x | x in db.files ensures now.files[x] == Final(db, t).files[x] {
      var p := db.files[x].folder;
      if p in Reached(db, t) && VisibleFile(db, t, p, x) {
        assert now.files[x].deleted;
      }
    }
    assert now.folders == Final(db, t).folders && now.files == Final(db, t).files;
  }

  /** Interruptions add up: a run interrupted after an interrupted run is one
      interrupted run. */
  lemma PartialAgain(db: Tables, t: Task, now: Tables, later: Tables)
    requires Sound(db, t) && Partial(db, t, now) && !Gone(db, now, t.root) && Partial(now, t, later)
    ensures Partial(db, t, later)
  {
    forall x | x in db.files
      ensures later.files[x] == db.files[x] || later.files[x] == FileNow(db, t, Reached(db, t), x)
    {
      FileFinalNow(db, t, now, x);
    }
    forall f | f in db.folders
      ensures later.folders[f] == db.folders[f] || later.folders[f] == FolderNow(db, t, Reached(db, t), f)
    {
      FolderFinalNow(db, t, now, f);
    }
    forall f, g | f in db.folders && g in db.folders && Gone(db, later, f) && Reach(db, t, f, g)
      ensures Gone(db, later, g) && forall x | VisibleFile(db, t, g, x) :: later.files[x].deleted
    {
      GoneAgain(db, t, now, later, f, g);
    }
  }

  lemma GoneAgain(db: Tables, t: Task, now: Tables, later: Tables, f: nat, g: nat)
    requires Sound(db, t) && Partial(db, t, now) && !Gone(db, now, t.root) && Partial(now, t, later)
    requires f in db.folders && g in db.folders && Gone(db, later, f) && Reach(db, t, f, g)
    ensures Gone(db, later, g) && forall x | VisibleFile(db, t, g, x) :: later.files[x].deleted
  {
    if Gone(db, now, f) {
      assert Gone(db, now, g);
      FolderFinalNow(db, t, now, g);
    } else {
      ReachNow(db, t, now, f, g);
    }
    if Gone(db, now, g) {
      FolderFinalNow(db, t, now, g);
      ReachSelf(db, t, g);
    } else {
      assert Gone(now, later, g);
      ReachSelf(now, t, g);
    }
    forall x | VisibleFile(db, t, g, x) ensures later.files[x].deleted {
      FileFinalNow(db, t, now, x);
      if !now.files[x].deleted {
        assert VisibleFile(now, t, g, x);
      }
    }
  }

  /** No interrupted or completed task leaves a live folder or file in a folder it
      recycled, so every surviving row keeps its ancestors. */
  lemma SurvivorsKeepParents(db: Tables, t: Task, now: Tables, p: nat, c: nat)
    requires Sound(db, t) && Partial(db, t, now) && Gone(db, now, p)
    ensures !Child(now, t, p, c) && !FileIn(now, t, p, c)
  {
    GoneIsClean(db, t, now, p);
    PartialRows(db, t, now, p, c);
    ReachSelf(db, t, p);
    if Child(db, t, p, c) {
      DirtyByChildren(db, t, p);
      ReachDown(db, t, p, p, c);
    }
    if FileIn(db, t, p, c) && !VisibleFile(db, t, p, c) {
      assert HasInvisible(db, t, p);
    }
  }

  /** What a completed task leaves: exactly the visible files of reachable folders go,
      exactly the reachable folders with nothing invisible below go, a surviving root is
      usable again, and no other row changes. */
  lemma FinalRows(db: Tables, t: Task)
    requires Sound(db, t)
    ensures var end := Final(db, t);
            && (forall x | x in db.files && !db.files[x].deleted ::
                  && (end.files[x].deleted <==> Reach(db, t, t.root, db.files[x].folder) && VisibleFile(db, t, db.files[x].folder, x))
                  && end.files[x].(deleted := false) == db.files[x])
            && (forall f | f in db.folders && !db.folders[f].deleted ::
                  && (end.folders[f].deleted <==> Reach(db, t, t.root, f) && !Dirty(db, t, f))
                  && (end.folders[f].deleted ==> end.folders[f] == db.folders[f].(isable := Unusable, deleted := true))
                  && (f != t.root && !end.folders[f].deleted ==> end.folders[f] == db.folders[f]))
            && (!end.folders[t.root].deleted && db.folders[t.root].isable == Deleting ==> end.folders[t.root] == db.folders[t.root].(isable := Usable))
            && (!end.folders[t.root].deleted && db.folders[t.root].isable != Deleting ==> end.folders[t.root] == db.folders[t.root])
            && (forall f | f in db.folders && db.folders[f].deleted :: f !in Reached(db, t) && end.folders[f] == db.folders[f])
            && (forall x | x in db.files && db.files[x].deleted :: end.files[x] == db.files[x])
  {
    ReachSelf(db, t, t.root);
    forall f | f in db.folders && Reach(db, t, t.root, f) ensures !db.folders[f].deleted {
      ReachedLive(db, t, f);
    }
    forall x | x in db.files && Reach(db, t, t.root, db.files[x].folder) ensures db.files[x].folder in db.folders {
      ReachedLive(db, t, db.files[x].folder);
    }
  }

  // ----- a task is attempted again and again -----

  ghost predicate RootLive(db: Tables, t: Task) {
    t.root in db.folders && !db.folders[t.root].deleted
  }

  /** What one attempt at the task may do to the rows. */
  ghost predicate Attempt(t: Task, was: Tables, now: Tables, finished: bool) {
    if RootLive(was, t) then Partial(was, t, now) && (finished ==> now == Final(was, t)) else now == was
  }

  /** Attempt `i` leads from state `i` to the next one. */
  ghost predicate AttemptAt(t: Task, states: seq<Tables>, finished: seq<bool>, i: nat)
    requires |states| == |finished| + 1 && i < |finished|
  {
    Attempt(t, states[i], states[i + 1], finished[i])
  }

  lemma AttemptKeepsPlan(db: Tables, t: Task, was: Tables, now: Tables, finished: bool)
    requires Sound(db, t) && Partial(db, t, was) && Attempt(t, was, now, finished)
    ensures Partial(db, t, now) && (finished ==> now == Final(db, t))
    ensures RootLive(was, t) ==> Sound(was, t)
  {
    if Gone(db, was, t.root) {
      GoneRootIsFinal(db, t, was);
    } else {
      ResumeSameEnd(db, t, was);
      PartialAgain(db, t, was, now);
    }
  }

  lemma UntouchedIsPartial(db: Tables, t: Task)
    ensures Partial(db, t, db)
  {
    assert forall f :: !Gone(db, db, f);
  }

  lemma LiveStaysSound(db: Tables, t: Task, now: Tables)
    requires Sound(db, t) && Partial(db, t, now) && RootLive(now, t)
    ensures Sound(now, t)
  {
    SoundNow(db, t, now);
  }

  /** However often the task is attempted and wherever each attempt stops, the first one
      that finishes leaves what one uninterrupted run would have left. */
  lemma {:induction false} AnyNumberOfAttempts(db: Tables, t: Task, states: seq<Tables>, finished: seq<bool>, n: nat)
    requires Sound(db, t) && |states| == |finished| + 1 && states[0] == db && n < |states|
    requires forall i | 0 <= i < |finished| :: AttemptAt(t, states, finished, i)
    ensures Partial(db, t, states[n])
    ensures RootLive(states[n], t) ==> Sound(states[n], t)
    ensures n > 0 && finished[n - 1] ==> states[n] == Final(db, t)
  {
    if n == 0 {
      UntouchedIsPartial(db, t);
    } else {
      hide Partial, Final, Attempt, Sound;
      AnyNumberOfAttempts(db, t, states, finished, n - 1);
      assert AttemptAt(t, states, finished, n - 1);
      AttemptKeepsPlan(db, t, states[n - 1], states[n], finished[n - 1]);
      if RootLive(states[n], t) {
        LiveStaysSound(db, t, states[n]);
      }
    }
  }

  // ----- what the operator may not see -----

  lemma BelowRootIsVisible(db: Tables, t: Task, f: nat)
    requires Reach(db, t, t.root, f) && f != t.root
    ensures f in db.folders && ItemVisible(db.folders[f].rule, t.op)
  {
    var path :| IsPath(db, t, path, t.root, f);
    assert VisibleChild(db, t, path[|path| - 2], path[|path| - 1]);
  }

  /** Wherever a plain user's task stops, rows restricted to other people's groups are as
      they were, and so is every folder the task reached on the way to one. Only the root
      of the task is not looked at. */
  lemma RestrictedIsKept(db: Tables, t: Task, now: Tables, mine: set<nat>)
    requires Sound(db, t) && Partial(db, t, now) && t.op == User(false, mine)
    ensures forall x | x in db.files && db.files[x].rule.Groups? && (forall g | g in db.files[x].rule.ids :: g == 0 || g !in mine) ::
              now.files[x] == db.files[x]
    ensures forall f | f in db.folders && f != t.root && db.folders[f].rule.Groups? && (forall g | g in db.folders[f].rule.ids :: g == 0 || g !in mine) ::
              now.folders[f] == db.folders[f]
    ensures forall x, f | x in db.files && FileIn(db, t, db.files[x].folder, x) && db.files[x].rule.Groups? && (forall g | g in db.files[x].rule.ids :: g == 0 || g !in mine)
                          && f in db.folders && Reach(db, t, t.root, f) && Reach(db, t, f, db.files[x].folder) ::
              now.folders[f].deleted == db.folders[f].deleted
  {
    forall f | f in db.folders && f != t.root && db.folders[f].rule.Groups? && (forall g | g in db.folders[f].rule.ids :: g == 0 || g !in mine)
      ensures now.folders[f] == db.folders[f]
    {
      if Reach(db, t, t.root, f) {
        BelowRootIsVisible(db, t, f);
      }
    }
    forall x, f | x in db.files && FileIn(db, t, db.files[x].folder, x) && db.files[x].rule.Groups? && (forall g | g in db.files[x].rule.ids :: g == 0 || g !in mine)
                  && f in db.folders && Reach(db, t, t.root, f) && Reach(db, t, f, db.files[x].folder)
      ensures now.folders[f].deleted == db.folders[f].deleted
    {
      assert HasInvisible(db, t, db.files[x].folder);
      assert Dirty(db, t, f);
    }
  }

  /** Over whole tasks, however often attempted: a plain user deletes no file and, but for
      the root, no folder whose groups are all other people's. */
  lemma RestrictedSurvives(db: Tables, t: Task, states: seq<Tables>, finished: seq<bool>, n: nat, mine: set<nat>)
    requires Sound(db, t) && |states| == |finished| + 1 && states[0] == db && n < |states| && t.op == User(false, mine)
    requires forall i | 0 <= i < |finished| :: AttemptAt(t, states, finished, i)
    ensures forall x | x in db.files && db.files[x].rule.Groups? && (forall g | g in db.files[x].rule.ids :: g == 0 || g !in mine) ::
              x in states[n].files && states[n].files[x] == db.files[x]
    ensures forall f | f in db.folders && f != t.root && db.folders[f].rule.Groups? && (forall g | g in db.folders[f].rule.ids :: g == 0 || g !in mine) ::
              f in states[n].folders && states[n].folders[f] == db.folders[f]
  {
    AnyNumberOfAttempts(db, t, states, finished, n);
    assert states[n].files.Keys == db.files.Keys && states[n].folders.Keys == db.folders.Keys;
    hide Partial;
    RestrictedIsKept(db, t, states[n], mine);
  }

  /** And whoever the operator is, no row of another bucket changes, nor one that was
      deleted before. */
  lemma OtherRowsUntouched(db: Tables, t: Task, states: seq<Tables>, finished: seq<bool>, n: nat)
    requires Sound(db, t) && |states| == |finished| + 1 && states[0] == db && n < |states|
    requires forall i | 0 <= i < |finished| :: AttemptAt(t, states, finished, i)
    ensures forall x | x in db.files && (db.files[x].bucket != t.bucket || db.files[x].deleted) ::
              x in states[n].files && states[n].files[x] == db.files[x]
    ensures forall f | f in db.folders && (db.folders[f].bucket != t.bucket || db.folders[f].deleted) ::
              f in states[n].folders && states[n].folders[f] == db.folders[f]
  {
    AnyNumberOfAttempts(db, t, states, finished, n);
    forall f | f in db.folders && (db.folders[f].bucket != t.bucket || db.folders[f].deleted) ensures f !in Reached(db, t) {
      if Reach(db, t, t.root, f) && f != t.root {
        BelowRootIsLive(db, t, f);
      }
    }
  }

  lemma BelowRootIsLive(db: Tables, t: Task, f: nat)
    requires Reach(db, t, t.root, f) && f != t.root
    ensures f in db.folders && !db.folders[f].deleted && db.folders[f].bucket == t.bucket
  {
    var path :| IsPath(db, t, path, t.root, f);
    assert VisibleChild(db, t, path[|path| - 2], path[|path| - 1]);
  }

  /** Which files a completed task of a plain user deletes, by their rules: the open ones
      and those of the user's groups. */
  lemma DeletedByRule(db: Tables, t: Task, mine: set<nat>, x: nat)
    requires Sound(db, t) && t.op == User(false, mine) && x in db.files && FileIn(db, t, db.files[x].folder, x)
    requires Reach(db, t, t.root, db.files[x].folder)
    ensures x in Final(db, t).files
    ensures Final(db, t).files[x].deleted
            <==> match db.files[x].rule
                 case Unrestricted => true
                 case Corrupt => false
                 case Groups(ids) => exists g :: g in ids && g in mine && g != 0
  {
    FinalRows(db, t);
    if db.files[x].rule.Groups? {
      var ids := db.files[x].rule.ids;
      forall i | 0 <= i < |ids| ensures ids[i] in ids {
      }
    }
  }
}

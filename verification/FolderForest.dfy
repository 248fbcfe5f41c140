/** The folder table as a forest: every parent chain climbs to the bucket root 0. */
module FolderForest {
  import opened Rows
  import opened Names

  type Folders = map<nat, FolderRow>

  ghost predicate Up(fs: Folders, f: nat, p: nat) {
    f in fs && fs[f].parent == p
  }

  /** The parent chain from `f` to the bucket root. */
  ghost predicate IsChain(fs: Folders, chain: seq<nat>, f: nat) {
    && |chain| > 0 && chain[0] == f && chain[|chain| - 1] == 0
    && forall i | 0 <= i < |chain| - 1 :: Up(fs, chain[i], chain[i + 1])
  }

  ghost predicate Grounded(fs: Folders, f: nat) {
    exists chain :: IsChain(fs, chain, f)
  }

  ghost predicate Forest(fs: Folders) {
    0 !in fs && forall f | f in fs :: Grounded(fs, f)
  }

  /** `a` is `f` or one of the folders `f` lies in. */
  ghost predicate InOrBelow(fs: Folders, f: nat, a: nat) {
    exists chain :: IsChain(fs, chain, f) && a in chain
  }

  lemma {:induction false} ChainIsUnique(fs: Folders, c: seq<nat>, d: seq<nat>, f: nat)
    requires 0 !in fs && IsChain(fs, c, f) && IsChain(fs, d, f)
    ensures c == d
  {
    if |c| > 1 {
      ChainTail(fs, c, f);
      ChainTail(fs, d, f);
      ChainIsUnique(fs, c[1..], d[1..], c[1]);
      assert c == [f] + c[1..] && d == [f] + d[1..];
    } else if |d| > 1 {
      ChainTail(fs, d, f);
    }
  }

  lemma ChainTail(fs: Folders, chain: seq<nat>, f: nat)
    requires IsChain(fs, chain, f) && |chain| > 1
    ensures f in fs && fs[f].parent == chain[1] && IsChain(fs, chain[1..], chain[1])
  {
    assert Up(fs, chain[0], chain[1]);
    forall i | 0 <= i < |chain[1..]| - 1 ensures Up(fs, chain[1..][i], chain[1..][i + 1]) {
      assert Up(fs, chain[i + 1], chain[i + 2]);
    }
  }

  lemma ChainUp(fs: Folders, f: nat, chain: seq<nat>)
    requires f in fs && IsChain(fs, chain, fs[f].parent)
    ensures IsChain(fs, [f] + chain, f)
  {
    var longer := [f] + chain;
    forall i | 0 <= i < |longer| - 1 ensures Up(fs, longer[i], longer[i + 1]) {
      if i > 0 {
        assert Up(fs, chain[i - 1], chain[i]);
      }
    }
  }

  lemma RootGrounded(fs: Folders)
    ensures IsChain(fs, [0], 0)
  {
  }

  /** The chain of a folder in a forest, root included. */
  lemma HasChain(fs: Folders, f: nat) returns (chain: seq<nat>)
    requires Forest(fs) && (f == 0 || f in fs)
    ensures IsChain(fs, chain, f)
  {
    if f == 0 {
      RootGrounded(fs);
      chain := [0];
    } else {
      chain :| IsChain(fs, chain, f);
    }
  }

  /** Rows that keep their parents keep their chains. */
  lemma ChainKept(fs: Folders, gs: Folders, chain: seq<nat>, f: nat)
    requires IsChain(fs, chain, f)
    requires forall g | g in fs && g in chain :: g in gs && gs[g].parent == fs[g].parent
    ensures IsChain(gs, chain, f)
  {
    forall i | 0 <= i < |chain| - 1 ensures Up(gs, chain[i], chain[i + 1]) {
      assert Up(fs, chain[i], chain[i + 1]);
      assert chain[i] in chain;
    }
  }

  /** Creating a folder below an existing one, or the root, keeps the forest. */
  lemma CreateKeepsForest(fs: Folders, id: nat, row: FolderRow)
    requires Forest(fs) && id !in fs && id != 0 && (row.parent == 0 || row.parent in fs)
    ensures Forest(fs[id := row])
  {
    var gs := fs[id := row];
    forall f | f in gs ensures Grounded(gs, f) {
      var low := HasChain(fs, if f == id then row.parent else f);
      ChainKept(fs, gs, low, low[0]);
      if f == id {
        ChainUp(gs, id, low);
      }
    }
  }

  // ----- moving a folder -----

  /** With the folder hung below `dst`, a chain either avoids it or turns off at it. */
  lemma {:induction false} MovedChain(fs: Folders, gs: Folders, id: nat, low: seq<nat>, chain: seq<nat>, f: nat) returns (moved: seq<nat>)
    requires id in fs && id in gs && IsChain(gs, low, gs[id].parent)
    requires forall g | g in fs && g != id :: g in gs && gs[g].parent == fs[g].parent
    requires IsChain(fs, chain, f)
    ensures IsChain(gs, moved, f)
  {
    if f == id {
      ChainUp(gs, id, low);
      moved := [id] + low;
    } else if |chain| == 1 {
      moved := chain;
    } else {
      ChainTail(fs, chain, f);
      var up := MovedChain(fs, gs, id, low, chain[1..], chain[1]);
      ChainUp(gs, f, up);
      moved := [f] + up;
    }
  }

  /** Exactly when a move keeps the forest: the destination is not the folder itself and
      does not lie below it. */
  lemma MoveKeepsForestExactly(fs: Folders, id: nat, dst: nat, row: FolderRow)
    requires Forest(fs) && id in fs && (dst == 0 || dst in fs) && row.parent == dst
    ensures Forest(fs[id := row]) <==> !InOrBelow(fs, dst, id)
  {
    var gs := fs[id := row];
    var low := HasChain(fs, dst);
    if id !in low {
      forall c | IsChain(fs, c, dst) ensures c == low {
        ChainIsUnique(fs, c, low, dst);
      }
      ChainKept(fs, gs, low, dst);
      forall f | f in gs ensures Grounded(gs, f) {
        var chain := HasChain(fs, f);
        var moved := MovedChain(fs, gs, id, low, chain, f);
      }
    } else if Forest(gs) {
      var i :| 0 <= i < |low| && low[i] == id;
      var up := HasChain(gs, dst);
      NoWayOut(fs, gs, low, i, up, id, 0);
    }
  }

  /** In the cycle a bad move makes, no chain from a member ends. */
  lemma {:induction false} NoWayOut(fs: Folders, gs: Folders, low: seq<nat>, i: nat, up: seq<nat>, id: nat, k: nat)
    requires i < |low| && low[i] == id && id in fs && id in gs && gs[id].parent == low[0]
    requires 0 !in gs && k <= i
    requires forall a | 0 <= a < |low| - 1 :: Up(fs, low[a], low[a + 1])
    requires forall g | g in fs && g != id :: g in gs && gs[g].parent == fs[g].parent
    requires IsChain(gs, up, low[k])
    ensures false
    decreases |up|
  {
    if low[k] == id {
      ChainSteps(gs, up, id, low[0]);
      NoWayOut(fs, gs, low, i, up[1..], id, 0);
    } else {
      assert Up(fs, low[k], low[k + 1]);
      ChainSteps(gs, up, low[k], low[k + 1]);
      NoWayOut(fs, gs, low, i, up[1..], id, k + 1);
    }
  }

  lemma ChainSteps(gs: Folders, up: seq<nat>, f: nat, p: nat)
    requires 0 !in gs && f in gs && gs[f].parent == p && IsChain(gs, up, f)
    ensures |up| > 1 && up[1] == p && IsChain(gs, up[1..], p)
  {
    if |up| > 1 {
      ChainTail(gs, up, f);
    }
  }

  // ----- names on the way down -----

  ghost predicate NameFree(fs: Folders, bucket: nat, p: nat, name: string) {
    forall f :: !FolderNamed(fs, bucket, p, name, f)
  }

  /** What a path resolves to, segment by segment; empty segments are skipped. */
  datatype Resolution = Found(id: nat) | Missing | Invalid

  ghost function Resolve(fs: Folders, bucket: nat, p: nat, segs: seq<string>): Resolution
    decreases |segs|
  {
    if segs == [] then Found(p)
    else if segs[0] == "" then Resolve(fs, bucket, p, segs[1..])
    else if !ValidName(segs[0]) then Invalid
    else if f: nat :| FolderNamed(fs, bucket, p, segs[0], f) then Resolve(fs, bucket, f, segs[1..])
    else Missing
  }

  lemma ResolveStep(fs: Folders, bucket: nat, p: nat, segs: seq<string>, f: nat)
    requires UniqueFolderNames(fs) && segs != [] && segs[0] != "" && ValidName(segs[0]) && FolderNamed(fs, bucket, p, segs[0], f)
    ensures Resolve(fs, bucket, p, segs) == Resolve(fs, bucket, f, segs[1..])
  {
  }

  lemma CreateKeepsUnique(fs: Folders, id: nat, row: FolderRow)
    requires UniqueFolderNames(fs) && id !in fs && (row.deleted || NameFree(fs, row.bucket, row.parent, row.name))
    ensures UniqueFolderNames(fs[id := row])
  {
    var gs := fs[id := row];
    forall bucket, p, name, a, b | FolderNamed(gs, bucket, p, name, a) && FolderNamed(gs, bucket, p, name, b) ensures a == b {
      assert a != id ==> FolderNamed(fs, bucket, p, name, a) && FolderNamed(fs, bucket, p, row.name, a) == (Lower(name) == Lower(row.name));
      assert b != id ==> FolderNamed(fs, bucket, p, name, b) && FolderNamed(fs, bucket, p, row.name, b) == (Lower(name) == Lower(row.name));
    }
  }

  // ----- mkdir -p -----

  datatype Failure = InvalidInput | TooManySegments | Forbidden | NotFound | NameConflict

  datatype Outcome = Ok(id: nat) | Fail(failure: Failure)

  datatype Made = Made(fs: Folders, next: nat, outcome: Outcome)

  function NewFolder(bucket: nat, parent: nat, name: string, user: nat): FolderRow {
    FolderRow(bucket, parent, name, user, Unrestricted, Usable, false)
  }

  /** mkdir -p from folder `p`: go down while segments exist, create the rest; `next` is
      the next free id. */
  ghost function MkdirP(fs: Folders, next: nat, bucket: nat, user: nat, p: nat, segs: seq<string>): Made
    decreases |segs|
  {
    if segs == [] then Made(fs, next, Ok(p))
    else if segs[0] == "" then MkdirP(fs, next, bucket, user, p, segs[1..])
    else if !ValidName(segs[0]) then Made(fs, next, Fail(InvalidInput))
    else if f: nat :| FolderNamed(fs, bucket, p, segs[0], f) then
      if fs[f].isable == Deleting then Made(fs, next, Fail(Forbidden)) else MkdirP(fs, next, bucket, user, f, segs[1..])
    else
      MkdirP(fs[next := NewFolder(bucket, p, segs[0], user)], next + 1, bucket, user, next, segs[1..])
  }

  ghost predicate TableOk(fs: Folders, next: nat) {
    Forest(fs) && UniqueFolderNames(fs) && next > 0 && forall f | f in fs :: f < next
  }

  /** Rows are only added. */
  ghost predicate Keeps(fs: Folders, gs: Folders) {
    forall f | f in fs :: f in gs && gs[f] == fs[f]
  }

  lemma CreateStep(fs: Folders, next: nat, bucket: nat, user: nat, p: nat, name: string)
    requires TableOk(fs, next) && (p == 0 || p in fs) && NameFree(fs, bucket, p, name)
    ensures TableOk(fs[next := NewFolder(bucket, p, name, user)], next + 1)
  {
    CreateKeepsForest(fs, next, NewFolder(bucket, p, name, user));
    CreateKeepsUnique(fs, next, NewFolder(bucket, p, name, user));
  }

  lemma MkdirDown(fs: Folders, next: nat, bucket: nat, user: nat, p: nat, segs: seq<string>, f: nat)
    requires UniqueFolderNames(fs) && segs != [] && segs[0] != "" && ValidName(segs[0]) && FolderNamed(fs, bucket, p, segs[0], f)
    ensures MkdirP(fs, next, bucket, user, p, segs)
            == if fs[f].isable == Deleting then Made(fs, next, Fail(Forbidden)) else MkdirP(fs, next, bucket, user, f, segs[1..])
  {
  }

  lemma {:induction false} MkdirKeepsTable(fs: Folders, next: nat, bucket: nat, user: nat, p: nat, segs: seq<string>)
    requires TableOk(fs, next) && (p == 0 || p in fs)
    ensures var m := MkdirP(fs, next, bucket, user, p, segs);
            && TableOk(m.fs, m.next) && Keeps(fs, m.fs) && m.next >= next
            && (m.outcome.Ok? ==> m.outcome.id == 0 || m.outcome.id in m.fs)
            && (forall f | f in m.fs && f !in fs :: next <= f < m.next)
    decreases |segs|
  {
    hide Forest, UniqueFolderNames;
    if segs != [] {
      if segs[0] == "" {
        MkdirKeepsTable(fs, next, bucket, user, p, segs[1..]);
      } else if ValidName(segs[0]) {
        if f: nat :| FolderNamed(fs, bucket, p, segs[0], f) {
          MkdirDown(fs, next, bucket, user, p, segs, f);
          MkdirKeepsTable(fs, next, bucket, user, f, segs[1..]);
        } else {
          CreateStep(fs, next, bucket, user, p, segs[0]);
          MkdirKeepsTable(fs[next := NewFolder(bucket, p, segs[0], user)], next + 1, bucket, user, next, segs[1..]);
        }
      }
    }
  }

  /** After mkdir -p strict resolution finds the folder it returned. */
  lemma {:induction false} MkdirThenResolve(fs: Folders, next: nat, bucket: nat, user: nat, p: nat, segs: seq<string>)
    requires TableOk(fs, next) && (p == 0 || p in fs) && MkdirP(fs, next, bucket, user, p, segs).outcome.Ok?
    ensures var m := MkdirP(fs, next, bucket, user, p, segs); Resolve(m.fs, bucket, p, segs) == Found(m.outcome.id)
    decreases |segs|
  {
    hide Forest, UniqueFolderNames;
    if segs != [] {
      var m := MkdirP(fs, next, bucket, user, p, segs);
      MkdirKeepsTable(fs, next, bucket, user, p, segs);
      if segs[0] == "" {
        MkdirThenResolve(fs, next, bucket, user, p, segs[1..]);
      } else if f: nat :| FolderNamed(fs, bucket, p, segs[0], f) {
        MkdirDown(fs, next, bucket, user, p, segs, f);
        MkdirThenResolve(fs, next, bucket, user, f, segs[1..]);
        ResolveStep(m.fs, bucket, p, segs, f);
      } else {
        var gs := fs[next := NewFolder(bucket, p, segs[0], user)];
        CreateStep(fs, next, bucket, user, p, segs[0]);
        MkdirKeepsTable(gs, next + 1, bucket, user, next, segs[1..]);
        MkdirThenResolve(gs, next + 1, bucket, user, next, segs[1..]);
        ResolveStep(m.fs, bucket, p, segs, next);
      }
    }
  }

  /** mkdir -p creates nothing that strict resolution finds, whatever it returns. */
  lemma {:induction false} MkdirOfExisting(fs: Folders, next: nat, bucket: nat, user: nat, p: nat, segs: seq<string>)
    requires UniqueFolderNames(fs) && Resolve(fs, bucket, p, segs).Found?
    ensures var m := MkdirP(fs, next, bucket, user, p, segs);
            && m.fs == fs && m.next == next
            && (m.outcome.Ok? ==> Found(m.outcome.id) == Resolve(fs, bucket, p, segs))
    decreases |segs|
  {
    hide UniqueFolderNames;
    if segs != [] {
      if segs[0] == "" {
        MkdirOfExisting(fs, next, bucket, user, p, segs[1..]);
      } else {
        var f: nat :| FolderNamed(fs, bucket, p, segs[0], f);
        MkdirDown(fs, next, bucket, user, p, segs, f);
        ResolveStep(fs, bucket, p, segs, f);
        MkdirOfExisting(fs, next, bucket, user, f, segs[1..]);
      }
    }
  }

  /** How many segments from `p` down do not exist. */
  ghost function Unresolved(fs: Folders, bucket: nat, p: nat, segs: seq<string>): nat
    decreases |segs|
  {
    if segs == [] then 0
    else if segs[0] == "" then Unresolved(fs, bucket, p, segs[1..])
    else if f: nat :| FolderNamed(fs, bucket, p, segs[0], f) then Unresolved(fs, bucket, f, segs[1..])
    else |NonEmpty(segs)|
  }

  function NonEmpty(segs: seq<string>): seq<string> {
    if segs == [] then [] else if segs[0] == "" then NonEmpty(segs[1..]) else [segs[0]] + NonEmpty(segs[1..])
  }

  /** Below a folder just created nothing exists yet. */
  ghost predicate Childless(fs: Folders, p: nat) {
    forall f | f in fs :: fs[f].parent != p
  }

  lemma {:induction false} MkdirBelowNew(fs: Folders, next: nat, bucket: nat, user: nat, p: nat, segs: seq<string>)
    requires TableOk(fs, next) && p in fs && Childless(fs, p) && MkdirP(fs, next, bucket, user, p, segs).outcome.Ok?
    ensures var m := MkdirP(fs, next, bucket, user, p, segs); m.next == next + |NonEmpty(segs)|
    decreases |segs|
  {
    hide Forest, UniqueFolderNames;
    if segs != [] {
      if segs[0] == "" {
        MkdirBelowNew(fs, next, bucket, user, p, segs[1..]);
      } else {
        assert NameFree(fs, bucket, p, segs[0]);
        CreateStep(fs, next, bucket, user, p, segs[0]);
        ParentsPresent(fs, next);
        MkdirBelowNew(fs[next := NewFolder(bucket, p, segs[0], user)], next + 1, bucket, user, next, segs[1..]);
      }
    }
  }

  lemma ParentsPresent(fs: Folders, next: nat)
    requires TableOk(fs, next)
    ensures forall f | f in fs :: fs[f].parent < next
  {
    forall f | f in fs ensures fs[f].parent < next {
      var chain := HasChain(fs, f);
      ChainTail(fs, chain, f);
      if |chain| > 2 {
        ChainTail(fs, chain[1..], chain[1]);
      }
    }
  }

  /** A successful mkdir -p creates exactly the segments that did not exist. */
  lemma {:induction false} MkdirCreatesMissing(fs: Folders, next: nat, bucket: nat, user: nat, p: nat, segs: seq<string>)
    requires TableOk(fs, next) && (p == 0 || p in fs) && MkdirP(fs, next, bucket, user, p, segs).outcome.Ok?
    ensures var m := MkdirP(fs, next, bucket, user, p, segs); m.next == next + Unresolved(fs, bucket, p, segs)
    decreases |segs|
  {
    hide Forest, UniqueFolderNames;
    if segs != [] {
      if segs[0] == "" {
        MkdirCreatesMissing(fs, next, bucket, user, p, segs[1..]);
      } else if f: nat :| FolderNamed(fs, bucket, p, segs[0], f) {
        MkdirDown(fs, next, bucket, user, p, segs, f);
        UnresolvedDown(fs, bucket, p, segs, f);
        MkdirCreatesMissing(fs, next, bucket, user, f, segs[1..]);
      } else {
        CreateStep(fs, next, bucket, user, p, segs[0]);
        ParentsPresent(fs, next);
        MkdirBelowNew(fs[next := NewFolder(bucket, p, segs[0], user)], next + 1, bucket, user, next, segs[1..]);
      }
    }
  }

  lemma UnresolvedDown(fs: Folders, bucket: nat, p: nat, segs: seq<string>, f: nat)
    requires UniqueFolderNames(fs) && segs != [] && segs[0] != "" && FolderNamed(fs, bucket, p, segs[0], f)
    ensures Unresolved(fs, bucket, p, segs) == Unresolved(fs, bucket, f, segs[1..])
  {
  }

  /** mkdir -p twice is mkdir -p once. */
  lemma MkdirIsIdempotent(fs: Folders, next: nat, bucket: nat, user: nat, again: nat, segs: seq<string>)
    requires TableOk(fs, next) && MkdirP(fs, next, bucket, user, 0, segs).outcome.Ok?
    ensures var m := MkdirP(fs, next, bucket, user, 0, segs); MkdirP(m.fs, m.next, bucket, again, 0, segs) == m
  {
    MkdirAgain(fs, next, bucket, user, again, 0, segs);
  }

  lemma {:induction false} MkdirAgain(fs: Folders, next: nat, bucket: nat, user: nat, again: nat, p: nat, segs: seq<string>)
    requires TableOk(fs, next) && (p == 0 || p in fs) && MkdirP(fs, next, bucket, user, p, segs).outcome.Ok?
    ensures var m := MkdirP(fs, next, bucket, user, p, segs); MkdirP(m.fs, m.next, bucket, again, p, segs) == m
    decreases |segs|
  {
    hide Forest, UniqueFolderNames;
    if segs != [] {
      var m := MkdirP(fs, next, bucket, user, p, segs);
      MkdirKeepsTable(fs, next, bucket, user, p, segs);
      if segs[0] == "" {
        MkdirAgain(fs, next, bucket, user, again, p, segs[1..]);
      } else if f: nat :| FolderNamed(fs, bucket, p, segs[0], f) {
        MkdirDown(fs, next, bucket, user, p, segs, f);
        MkdirAgain(fs, next, bucket, user, again, f, segs[1..]);
        MkdirDown(m.fs, m.next, bucket, again, p, segs, f);
      } else {
        var gs := fs[next := NewFolder(bucket, p, segs[0], user)];
        CreateStep(fs, next, bucket, user, p, segs[0]);
        MkdirKeepsTable(gs, next + 1, bucket, user, next, segs[1..]);
        MkdirAgain(gs, next + 1, bucket, user, again, next, segs[1..]);
        MkdirDown(m.fs, m.next, bucket, again, p, segs, next);
      }
    }
  }

  lemma {:induction false} ResolveAppend(fs: Folders, bucket: nat, p: nat, segs: seq<string>, last: string, q: nat)
    requires UniqueFolderNames(fs) && Resolve(fs, bucket, p, segs) == Found(q)
    ensures Resolve(fs, bucket, p, segs + [last]) == Resolve(fs, bucket, q, [last])
    decreases |segs|
  {
    if segs != [] {
      assert (segs + [last])[1..] == segs[1..] + [last];
      if segs[0] == "" {
        ResolveAppend(fs, bucket, p, segs[1..], last, q);
      } else {
        var f: nat :| FolderNamed(fs, bucket, p, segs[0], f);
        ResolveStep(fs, bucket, p, segs, f);
        ResolveStep(fs, bucket, p, segs + [last], f);
        ResolveAppend(fs, bucket, f, segs[1..], last, q);
      }
    } else {
      assert segs + [last] == [last];
    }
  }

  /** What mkdir -p makes: live, usable and unrestricted folders of the bucket that belong
      to the user, with valid names from the path. */
  lemma {:induction false} MkdirRows(fs: Folders, next: nat, bucket: nat, user: nat, p: nat, segs: seq<string>)
    requires TableOk(fs, next) && (p == 0 || p in fs)
    ensures var m := MkdirP(fs, next, bucket, user, p, segs);
            forall f | f in m.fs && f !in fs ::
              && m.fs[f].bucket == bucket && m.fs[f].owner == user && m.fs[f].rule == Unrestricted
              && m.fs[f].isable == Usable && !m.fs[f].deleted && m.fs[f].name in segs && ValidName(m.fs[f].name)
    decreases |segs|
  {
    hide Forest, UniqueFolderNames;
    if segs != [] {
      if segs[0] == "" {
        MkdirRows(fs, next, bucket, user, p, segs[1..]);
      } else if ValidName(segs[0]) {
        if f: nat :| FolderNamed(fs, bucket, p, segs[0], f) {
          MkdirDown(fs, next, bucket, user, p, segs, f);
          MkdirRows(fs, next, bucket, user, f, segs[1..]);
        } else {
          var gs := fs[next := NewFolder(bucket, p, segs[0], user)];
          CreateStep(fs, next, bucket, user, p, segs[0]);
          MkdirKeepsTable(gs, next + 1, bucket, user, next, segs[1..]);
          MkdirRows(gs, next + 1, bucket, user, next, segs[1..]);
        }
      }
    }
  }

  /** The first `k` segments lead to a folder that is being deleted. */
  ghost predicate MeetsDeleting(fs: Folders, bucket: nat, p: nat, segs: seq<string>, k: nat) {
    && 0 < k <= |segs| && segs[k - 1] != ""
    && var r := Resolve(fs, bucket, p, segs[..k]);
    && r.Found? && r.id in fs && fs[r.id].isable == Deleting
  }

  lemma MeetsFurtherDown(fs: Folders, bucket: nat, p: nat, segs: seq<string>, q: nat, k: nat)
    requires k < |segs| && Resolve(fs, bucket, p, segs[..k + 1]) == Resolve(fs, bucket, q, segs[1..k + 1])
    ensures k > 0 ==> (MeetsDeleting(fs, bucket, p, segs, k + 1) <==> MeetsDeleting(fs, bucket, q, segs[1..], k))
  {
    assert segs[1..][..k] == segs[1..k + 1];
  }

  /** Exactly when mkdir -p is forbidden: the path leads through, or to, a folder that is
      being deleted. */
  lemma {:induction false} MkdirForbiddenExactly(fs: Folders, next: nat, bucket: nat, user: nat, p: nat, segs: seq<string>)
    requires TableOk(fs, next) && (p == 0 || p in fs)
    ensures MkdirP(fs, next, bucket, user, p, segs).outcome == Fail(Forbidden) <==> exists k :: MeetsDeleting(fs, bucket, p, segs, k)
    decreases |segs|
  {
    hide Forest, UniqueFolderNames;
    if segs == [] {
    } else if segs[0] == "" {
      MkdirForbiddenExactly(fs, next, bucket, user, p, segs[1..]);
      DownOne(fs, bucket, p, segs, p);
    } else if !ValidName(segs[0]) {
      forall k | 0 < k <= |segs| ensures Resolve(fs, bucket, p, segs[..k]) == Invalid {
        assert segs[..k][0] == segs[0];
      }
    } else if f: nat :| FolderNamed(fs, bucket, p, segs[0], f) {
      MkdirDown(fs, next, bucket, user, p, segs, f);
      MkdirForbiddenExactly(fs, next, bucket, user, f, segs[1..]);
      assert segs[..1] == [segs[0]] && segs[..1][1..] == [];
      ResolveStep(fs, bucket, p, segs[..1], f);
      if fs[f].isable == Deleting {
        assert MeetsDeleting(fs, bucket, p, segs, 1);
      }
      forall k | 0 < k <= |segs| ensures Resolve(fs, bucket, p, segs[..k]) == Resolve(fs, bucket, f, segs[1..k]) {
        ResolveStep(fs, bucket, p, segs[..k], f);
        assert segs[..k][1..] == segs[1..k];
      }
      DownOne(fs, bucket, p, segs, f);
    } else {
      forall k | 0 < k <= |segs| ensures Resolve(fs, bucket, p, segs[..k]) == Missing {
        assert segs[..k][0] == segs[0];
      }
      CreateStep(fs, next, bucket, user, p, segs[0]);
      ParentsPresent(fs, next);
      BelowNewAllowed(fs[next := NewFolder(bucket, p, segs[0], user)], next + 1, bucket, user, next, segs[1..]);
    }
  }

  lemma DownOne(fs: Folders, bucket: nat, p: nat, segs: seq<string>, q: nat)
    requires segs != [] && (segs[0] == "" ==> p == q)
    requires forall k | 0 < k <= |segs| :: Resolve(fs, bucket, p, segs[..k]) == Resolve(fs, bucket, q, segs[1..k])
    ensures (exists k :: MeetsDeleting(fs, bucket, p, segs, k))
            <==> MeetsDeleting(fs, bucket, p, segs, 1) || exists k :: MeetsDeleting(fs, bucket, q, segs[1..], k)
  {
    forall k: nat | k < |segs| {
      MeetsFurtherDown(fs, bucket, p, segs, q, k);
    }
    if k: nat :| MeetsDeleting(fs, bucket, p, segs, k) && k > 1 {
      assert MeetsDeleting(fs, bucket, q, segs[1..], k - 1);
    }
    if k: nat :| MeetsDeleting(fs, bucket, q, segs[1..], k) {
      assert MeetsDeleting(fs, bucket, p, segs, k + 1);
    }
  }

  lemma {:induction false} BelowNewAllowed(fs: Folders, next: nat, bucket: nat, user: nat, p: nat, segs: seq<string>)
    requires TableOk(fs, next) && p in fs && Childless(fs, p)
    ensures MkdirP(fs, next, bucket, user, p, segs).outcome != Fail(Forbidden)
    decreases |segs|
  {
    hide Forest, UniqueFolderNames;
    if segs != [] {
      if segs[0] == "" {
        BelowNewAllowed(fs, next, bucket, user, p, segs[1..]);
      } else if ValidName(segs[0]) {
        assert NameFree(fs, bucket, p, segs[0]);
        CreateStep(fs, next, bucket, user, p, segs[0]);
        ParentsPresent(fs, next);
        BelowNewAllowed(fs[next := NewFolder(bucket, p, segs[0], user)], next + 1, bucket, user, next, segs[1..]);
      }
    }
  }

  // ----- from an id back to a path -----

  /** The live folder `f` of the bucket lies in `p` and is called exactly `name`. */
  predicate Called(fs: Folders, bucket: nat, p: nat, name: string, f: nat) {
    f in fs && !fs[f].deleted && fs[f].bucket == bucket && fs[f].parent == p && fs[f].name == name
  }

  /** The exact names from `p` down to `id`. */
  ghost predicate Spells(fs: Folders, bucket: nat, p: nat, names: seq<string>, id: nat)
    decreases |names|
  {
    if names == [] then p == id else exists f: nat :: Called(fs, bucket, p, names[0], f) && Spells(fs, bucket, f, names[1..], id)
  }

  /** Strict resolution of a folder's own names finds the folder, exactly when every name
      is one the resolver accepts. */
  lemma {:induction false} SpelledResolves(fs: Folders, bucket: nat, p: nat, names: seq<string>, id: nat)
    requires UniqueFolderNames(fs) && Spells(fs, bucket, p, names, id) && forall i | 0 <= i < |names| :: names[i] != ""
    ensures Resolve(fs, bucket, p, names) == Found(id) <==> forall i | 0 <= i < |names| :: ValidName(names[i])
    ensures Resolve(fs, bucket, p, names) == Found(id) || Resolve(fs, bucket, p, names) == Invalid
    decreases |names|
  {
    if names != [] && ValidName(names[0]) {
      var f: nat :| Called(fs, bucket, p, names[0], f) && Spells(fs, bucket, f, names[1..], id);
      ResolveStep(fs, bucket, p, names, f);
      SpelledResolves(fs, bucket, f, names[1..], id);
      assert names == [names[0]] + names[1..];
    }
  }

  /** One more folder on top. */
  lemma SpellsUp(fs: Folders, bucket: nat, cur: nat, names: seq<string>, id: nat)
    requires Spells(fs, bucket, cur, names, id) && cur in fs && !fs[cur].deleted && fs[cur].bucket == bucket
    ensures Spells(fs, bucket, fs[cur].parent, [fs[cur].name] + names, id)
  {
    assert ([fs[cur].name] + names)[1..] == names;
    assert Called(fs, bucket, fs[cur].parent, fs[cur].name, cur);
  }

  /** What was resolved is spelled like the path, up to case and empty segments. */
  lemma {:induction false} ResolvedSpells(fs: Folders, bucket: nat, p: nat, segs: seq<string>, id: nat) returns (names: seq<string>)
    requires Resolve(fs, bucket, p, segs) == Found(id)
    ensures Spells(fs, bucket, p, names, id) && |names| == |NonEmpty(segs)|
    ensures forall i | 0 <= i < |names| :: Lower(names[i]) == Lower(NonEmpty(segs)[i])
    decreases |segs|
  {
    if segs == [] {
      names := [];
    } else if segs[0] == "" {
      names := ResolvedSpells(fs, bucket, p, segs[1..], id);
    } else {
      var f: nat :| FolderNamed(fs, bucket, p, segs[0], f) && Resolve(fs, bucket, f, segs[1..]) == Found(id);
      var rest := ResolvedSpells(fs, bucket, f, segs[1..], id);
      names := [fs[f].name] + rest;
      SpellsUp(fs, bucket, f, rest, id);
    }
  }

  /** Names from the root down are unique in a forest. */
  lemma {:induction false} SpellingIsUnique(fs: Folders, bucket: nat, a: seq<string>, b: seq<string>, id: nat)
    requires Forest(fs) && Spells(fs, bucket, 0, a, id) && Spells(fs, bucket, 0, b, id)
    ensures a == b
    decreases |a|
  {
    if a == [] {
      if b != [] {
        var q := SpellsLast(fs, bucket, 0, b, id);
      }
    } else {
      var p := SpellsLast(fs, bucket, 0, a, id);
      if b != [] {
        var q := SpellsLast(fs, bucket, 0, b, id);
        SpellingIsUnique(fs, bucket, a[..|a| - 1], b[..|b| - 1], p);
        assert a == a[..|a| - 1] + [a[|a| - 1]] && b == b[..|b| - 1] + [b[|b| - 1]];
      }
    }
  }

  lemma {:induction false} SpellsLast(fs: Folders, bucket: nat, p: nat, names: seq<string>, id: nat) returns (q: nat)
    requires names != [] && Spells(fs, bucket, p, names, id)
    ensures Spells(fs, bucket, p, names[..|names| - 1], q) && Called(fs, bucket, q, names[|names| - 1], id)
    decreases |names|
  {
    var f: nat :| Called(fs, bucket, p, names[0], f) && Spells(fs, bucket, f, names[1..], id);
    if |names| == 1 {
      q := p;
    } else {
      q := SpellsLast(fs, bucket, f, names[1..], id);
      var short := names[..|names| - 1];
      assert short[1..] == names[1..][..|names| - 2] && short[0] == names[0];
    }
  }
}

/** The folder table in use: resolving and making paths, climbing parent chains, naming
    a folder's path, and moving folders. */
module FolderTree {
  import opened Rows
  import opened Names
  import opened FolderForest

  /** The extension starts at the last dot. */
  function Extension(name: string): string {
    if name == [] then []
    else if name[|name| - 1] == '.' then "."
    else
      var e := Extension(name[..|name| - 1]);
      if e == [] then [] else e + [name[|name| - 1]]
  }

  lemma {:induction false} ExtensionIsSuffix(name: string)
    ensures |Extension(name)| <= |name| && name[|name| - |Extension(name)|..] == Extension(name)
  {
    if name != [] && name[|name| - 1] != '.' {
      ExtensionIsSuffix(name[..|name| - 1]);
    }
  }

  /** "base (n).ext". */
  function Renamed(name: string, n: nat): string {
    ExtensionIsSuffix(name);
    var e := Extension(name);
    name[..|name| - |e|] + " (" + Decimal(n) + ")" + e
  }

  const MAX_RENAMES: nat := 1000

  lemma {:induction false} ExtensionExactly(stem: string, ext: string)
    requires '.' !in ext
    ensures Extension(stem + "." + ext) == "." + ext
    ensures Extension(ext) == ""
  {
    var name := stem + "." + ext;
    if ext != "" {
      var k := |ext| - 1;
      assert ext[k] in ext && name[..|name| - 1] == stem + "." + ext[..k];
      forall c | c in ext[..k] ensures c in ext {
      }
      ExtensionExactly(stem, ext[..k]);
      assert ext == ext[..k] + [ext[k]];
    }
  }

  /** "report.txt" becomes "report (1).txt", a name without a dot "report (1)". */
  lemma RenamedExactly(stem: string, ext: string, n: nat)
    requires '.' !in ext
    ensures Renamed(stem + "." + ext, n) == stem + " (" + Decimal(n) + ")." + ext
    ensures Renamed(ext, n) == ext + " (" + Decimal(n) + ")"
  {
    ExtensionExactly(stem, ext);
    var name := stem + "." + ext;
    assert name[..|name| - |"." + ext|] == stem;
    assert ext[..|ext|] == ext;
  }

  lemma {:induction false} DecimalsDiffer(k: nat, n: nat)
    requires Decimal(k) == Decimal(n)
    ensures k == n
  {
    if k >= 10 && n >= 10 {
      assert Decimal(k)[..|Decimal(k)| - 1] == Decimal(k / 10) && Decimal(n)[..|Decimal(n)| - 1] == Decimal(n / 10);
      DecimalsDiffer(k / 10, n / 10);
    } else {
      DecimalHasNoSlash(k / 10);
      DecimalHasNoSlash(n / 10);
    }
  }

  /** No two of the candidates are the same name. */
  lemma RenamedDiffer(name: string, k: nat, n: nat)
    requires Renamed(name, k) == Renamed(name, n)
    ensures k == n
  {
    ExtensionIsSuffix(name);
    var e := Extension(name);
    var base := name[..|name| - |e|];
    hide Decimal, Extension;
    Parts(base, Decimal(k), e);
    Parts(base, Decimal(n), e);
    SameMiddle(base + " (", Decimal(k), Decimal(n), ")" + e);
    DecimalsDiffer(k, n);
  }

  lemma Parts(base: string, digits: string, e: string)
    ensures base + " (" + digits + ")" + e == (base + " (") + digits + (")" + e)
  {
  }

  lemma SameMiddle(a: string, x: string, y: string, b: string)
    requires a + x + b == a + y + b
    ensures x == y
  {
    assert |a + x + b| == |a| + |x| + |b| && |a + y + b| == |a| + |y| + |b|;
    forall i | 0 <= i < |x| ensures x[i] == y[i] {
      assert x[i] == (a + x + b)[|a| + i] && y[i] == (a + y + b)[|a| + i];
    }
  }

  lemma {:induction false} DecimalHasNoSlash(n: nat)
    ensures '/' !in Decimal(n) && |Decimal(n)| > 0
  {
    if n >= 10 {
      DecimalHasNoSlash(n / 10);
    }
  }

  lemma RenamedHasNoSlash(name: string, n: nat)
    requires '/' !in name
    ensures '/' !in Renamed(name, n) && Renamed(name, n) != ""
  {
    DecimalHasNoSlash(n);
    ExtensionIsSuffix(name);
    var e := Extension(name);
    var base := name[..|name| - |e|];
    assert base + e == name;
    NoSlashParts(base, e);
    NoSlashWhole(base, " (");
    NoSlashWhole(base + " (", Decimal(n));
    NoSlashWhole(base + " (" + Decimal(n), ")");
    NoSlashWhole(base + " (" + Decimal(n) + ")", e);
  }

  lemma NoSlashWhole(a: string, b: string)
    requires '/' !in a && '/' !in b
    ensures '/' !in a + b
  {
  }

  lemma NoSlashParts(a: string, b: string)
    requires '/' !in a + b
    ensures '/' !in a && '/' !in b
  {
    assert forall i | 0 <= i < |a| :: (a + b)[i] == a[i];
    assert forall i | 0 <= i < |b| :: (a + b)[|a| + i] == b[i];
  }

  predicate RowLive(r: FolderRow, bucket: nat) {
    !r.deleted && r.bucket == bucket
  }

  /** A row the plain ancestor check lets pass. */
  predicate RowUsable(r: FolderRow, bucket: nat) {
    !r.deleted && r.bucket == bucket && r.isable != Unusable
  }

  predicate RowReadable(r: FolderRow, bucket: nat, op: Operator) {
    RowUsable(r, bucket) && MayAccess(r.rule, op)
  }

  predicate RowWritable(r: FolderRow, bucket: nat) {
    RowUsable(r, bucket) && r.isable != Deleting
  }

  function LiveIn(bucket: nat): FolderRow -> bool {
    r => RowLive(r, bucket)
  }

  function UsableIn(bucket: nat): FolderRow -> bool {
    r => RowUsable(r, bucket)
  }

  function ReadableIn(bucket: nat, op: Operator): FolderRow -> bool {
    r => RowReadable(r, bucket, op)
  }

  function WritableIn(bucket: nat): FolderRow -> bool {
    r => RowWritable(r, bucket)
  }

  /** Every folder from `f` up to the bucket root passes the check. */
  ghost predicate AllUp(fs: Folders, f: nat, ok: FolderRow -> bool) {
    forall chain, i | IsChain(fs, chain, f) && 0 <= i < |chain| - 1 :: chain[i] in fs && ok(fs[chain[i]])
  }

  /** The checks on the way up, said of the rows: usable means live, in the bucket and not
      unusable, readable may be seen as well, writable is not being deleted either. */
  lemma UpChecksExactly(fs: Folders, f: nat, bucket: nat, op: Operator)
    requires Forest(fs) && (f == 0 || f in fs)
    ensures AllUp(fs, f, LiveIn(bucket)) <==> forall g | g in fs && InOrBelow(fs, f, g) :: !fs[g].deleted && fs[g].bucket == bucket
    ensures AllUp(fs, f, UsableIn(bucket))
            <==> forall g | g in fs && InOrBelow(fs, f, g) :: !fs[g].deleted && fs[g].bucket == bucket && fs[g].isable != Unusable
    ensures AllUp(fs, f, ReadableIn(bucket, op))
            <==> forall g | g in fs && InOrBelow(fs, f, g) ::
                   !fs[g].deleted && fs[g].bucket == bucket && fs[g].isable != Unusable && MayAccess(fs[g].rule, op)
    ensures AllUp(fs, f, WritableIn(bucket))
            <==> forall g | g in fs && InOrBelow(fs, f, g) :: !fs[g].deleted && fs[g].bucket == bucket && fs[g].isable == Usable
  {
    AllUpIsEveryRow(fs, f, LiveIn(bucket));
    AllUpIsEveryRow(fs, f, UsableIn(bucket));
    AllUpIsEveryRow(fs, f, ReadableIn(bucket, op));
    AllUpIsEveryRow(fs, f, WritableIn(bucket));
    hide AllUp, InOrBelow, Forest, MayAccess;
  }

  lemma AllUpIsEveryRow(fs: Folders, f: nat, ok: FolderRow -> bool)
    requires 0 !in fs
    ensures AllUp(fs, f, ok) <==> forall g | g in fs && InOrBelow(fs, f, g) :: ok(fs[g])
  {
    if forall g | g in fs && InOrBelow(fs, f, g) :: ok(fs[g]) {
      forall chain, i | IsChain(fs, chain, f) && 0 <= i < |chain| - 1 ensures chain[i] in fs && ok(fs[chain[i]]) {
        assert Up(fs, chain[i], chain[i + 1]);
        assert chain[i] in chain;
      }
    }
    if AllUp(fs, f, ok) {
      forall g | g in fs && InOrBelow(fs, f, g) ensures ok(fs[g]) {
        var chain :| IsChain(fs, chain, f) && g in chain;
        var i :| 0 <= i < |chain| && chain[i] == g;
      }
    }
  }

  ghost predicate PlainNames(fs: Folders) {
    forall f | f in fs :: fs[f].name != "" && '/' !in fs[f].name
  }

  lemma AllUpStep(fs: Folders, f: nat, ok: FolderRow -> bool)
    requires Forest(fs) && f in fs
    ensures AllUp(fs, f, ok) <==> ok(fs[f]) && AllUp(fs, fs[f].parent, ok)
    ensures fs[f].parent == 0 || fs[f].parent in fs
  {
    var chain := HasChain(fs, f);
    ChainTail(fs, chain, f);
    var up := chain[1..];
    forall c | IsChain(fs, c, f) ensures c == chain {
      ChainIsUnique(fs, c, chain, f);
    }
    forall c | IsChain(fs, c, fs[f].parent) ensures c == up {
      ChainIsUnique(fs, c, up, fs[f].parent);
    }
    if AllUp(fs, f, ok) {
      forall i | 0 <= i < |up| - 1 ensures up[i] in fs && ok(fs[up[i]]) {
        assert chain[i + 1] in fs && ok(fs[chain[i + 1]]);
      }
      assert chain[0] in fs && ok(fs[chain[0]]);
    }
    if ok(fs[f]) && AllUp(fs, fs[f].parent, ok) {
      forall i | 0 <= i < |chain| - 1 ensures chain[i] in fs && ok(fs[chain[i]]) {
        if i > 0 {
          assert up[i - 1] in fs && ok(fs[up[i - 1]]);
        }
      }
    }
    if |up| > 1 {
      ChainTail(fs, up, up[0]);
    }
  }

  lemma AllUpRoot(fs: Folders, ok: FolderRow -> bool)
    requires 0 !in fs
    ensures AllUp(fs, 0, ok)
  {
    forall chain | IsChain(fs, chain, 0) ensures chain == [0] {
      RootGrounded(fs);
      ChainIsUnique(fs, chain, [0], 0);
    }
  }

  /** The length of the way up: what an unguarded climb runs down. */
  ghost function Depth(fs: Folders, f: nat): nat {
    if chain :| IsChain(fs, chain, f) then |chain| else 0
  }

  lemma DepthDown(fs: Folders, f: nat)
    requires Forest(fs) && f in fs
    ensures Depth(fs, fs[f].parent) < Depth(fs, f)
  {
    var chain := HasChain(fs, f);
    ChainTail(fs, chain, f);
    forall c | IsChain(fs, c, f) ensures c == chain {
      ChainIsUnique(fs, c, chain, f);
    }
    forall c | IsChain(fs, c, fs[f].parent) ensures c == chain[1..] {
      ChainIsUnique(fs, c, chain[1..], fs[f].parent);
    }
  }

  /** The folders from `f` up, to below `id` or, if that is not met, to the root, are live
      rows of the bucket. */
  ghost predicate Loadable(fs: Folders, bucket: nat, f: nat, id: nat) {
    forall g | g in fs && InOrBelow(fs, f, g) && !(InOrBelow(fs, f, id) && InOrBelow(fs, id, g)) ::
      !fs[g].deleted && fs[g].bucket == bucket
  }

  lemma NothingToLoad(fs: Folders, bucket: nat, id: nat)
    requires Forest(fs) && id in fs
    ensures Loadable(fs, bucket, 0, id) && Loadable(fs, bucket, id, id)
  {
    BelowStep(fs, id, id);
    forall g | g in fs ensures !InOrBelow(fs, 0, g) {
      BelowRoot(fs, g);
    }
  }

  lemma LoadStep(fs: Folders, bucket: nat, f: nat, id: nat)
    requires Forest(fs) && f in fs && id in fs
    ensures f != id ==> (Loadable(fs, bucket, f, id) <==> !fs[f].deleted && fs[f].bucket == bucket && Loadable(fs, bucket, fs[f].parent, id))
  {
    hide Forest;
    forall a ensures InOrBelow(fs, f, a) <==> f == a || InOrBelow(fs, fs[f].parent, a) {
      BelowStep(fs, f, a);
    }
    hide InOrBelow;
    AllUpStep(fs, f, LiveIn(bucket));
    if f != id && InOrBelow(fs, fs[f].parent, id) && InOrBelow(fs, id, f) {
      BelowDepth(fs, id, f);
      BelowDepth(fs, fs[f].parent, id);
      DepthDown(fs, f);
    }
    NotBelowParent(fs, f);
  }

  lemma NotBelowParent(fs: Folders, f: nat)
    requires Forest(fs) && f in fs
    ensures !InOrBelow(fs, fs[f].parent, f)
  {
    hide InOrBelow;
    AllUpStep(fs, f, LiveIn(0));
    if InOrBelow(fs, fs[f].parent, f) {
      BelowDepth(fs, fs[f].parent, f);
      DepthDown(fs, f);
    }
  }

  lemma {:induction false} BelowDepth(fs: Folders, f: nat, a: nat)
    requires Forest(fs) && (f == 0 || f in fs) && a in fs && InOrBelow(fs, f, a)
    ensures Depth(fs, a) <= Depth(fs, f)
    decreases Depth(fs, f)
  {
    if f == 0 {
      BelowRoot(fs, a);
    } else if f != a {
      BelowStep(fs, f, a);
      DepthDown(fs, f);
      AllUpStep(fs, f, LiveIn(0));
      BelowDepth(fs, fs[f].parent, a);
    }
  }

  lemma BelowStep(fs: Folders, f: nat, a: nat)
    requires Forest(fs) && f in fs
    ensures InOrBelow(fs, f, a) <==> f == a || InOrBelow(fs, fs[f].parent, a)
  {
    var chain := HasChain(fs, f);
    ChainTail(fs, chain, f);
    forall c | IsChain(fs, c, f) ensures c == chain {
      ChainIsUnique(fs, c, chain, f);
    }
    forall c | IsChain(fs, c, fs[f].parent) ensures c == chain[1..] {
      ChainIsUnique(fs, c, chain[1..], fs[f].parent);
    }
    assert chain == [f] + chain[1..];
  }

  lemma BelowRoot(fs: Folders, a: nat)
    requires 0 !in fs && a != 0
    ensures !InOrBelow(fs, 0, a)
  {
    forall chain | IsChain(fs, chain, 0) ensures chain == [0] {
      RootGrounded(fs);
      ChainIsUnique(fs, chain, [0], 0);
    }
  }

  datatype Located = Located(path: string) | NoPath(failure: Failure)

  class FolderTable {
    var folders: Folders
    var files: map<nat, FileRow>
    var nextId: nat

    ghost predicate Valid()
      reads this`folders, this`nextId
    {
      TableOk(folders, nextId) && PlainNames(folders)
    }

    constructor ()
      ensures Valid() && folders == map[]
    {
      folders, files, nextId := map[], map[], 1;
    }

    method Lookup(bucket: nat, p: nat, name: string) returns (found: bool, f: nat)
      ensures if found then FolderNamed(folders, bucket, p, name, f) else NameFree(folders, bucket, p, name)
    {
      found, f := false, 0;
      if x :| x in folders && FolderNamed(folders, bucket, p, name, x) {
        return true, x;
      }
    }

    /** mkdir -p. */
    method ResolveDirPath(user: nat, bucket: nat, dirPath: string) returns (r: Outcome)
      requires Valid()
      modifies this`folders, this`nextId
      ensures Valid() && Keeps(old(folders), folders)
      ensures Made(folders, nextId, r) == MkdirPath(old(folders), old(nextId), bucket, user, dirPath)
      ensures r.Ok? ==> (r.id == 0 || r.id in folders) && Resolve(folders, bucket, 0, Split(dirPath)) == Found(r.id)
    {
      if |dirPath| > MAX_DIR_PATH_LEN {
        return Fail(InvalidInput);
      }
      var segs := Split(dirPath);
      if |segs| > MAX_SEGMENTS {
        return Fail(TooManySegments);
      }
      r := MakeSegments(user, bucket, segs);
      ghost var made := MkdirP(old(folders), old(nextId), bucket, user, 0, segs);
      MkdirKeepsTable(old(folders), old(nextId), bucket, user, 0, segs);
      if r.Ok? {
        MkdirThenResolve(old(folders), old(nextId), bucket, user, 0, segs);
      }
    }

    method MakeSegments(user: nat, bucket: nat, segs: seq<string>) returns (r: Outcome)
      requires Valid()
      modifies this`folders, this`nextId
      ensures Valid() && Made(folders, nextId, r) == MkdirP(old(folders), old(nextId), bucket, user, 0, segs)
    {
      hide Forest, UniqueFolderNames, ValidName;
      var parent: nat := 0;
      var i := 0;
      while i < |segs|
        invariant 0 <= i <= |segs| && Valid() && (parent == 0 || parent in folders)
        invariant MkdirP(folders, nextId, bucket, user, parent, segs[i..]) == MkdirP(old(folders), old(nextId), bucket, user, 0, segs)
      {
        assert segs[i..][1..] == segs[i + 1..];
        var seg := segs[i];
        i := i + 1;
        if seg == "" {
          continue;
        }
        if !ValidName(seg) {
          return Fail(InvalidInput);
        }
        var found, f := Lookup(bucket, parent, seg);
        if found {
          MkdirDown(folders, nextId, bucket, user, parent, segs[i - 1..], f);
          if folders[f].isable == Deleting {
            return Fail(Forbidden);
          }
          parent := f;
        } else {
          CreateStep(folders, nextId, bucket, user, parent, seg);
          ValidNameIsPlain(seg);
          folders := folders[nextId := NewFolder(bucket, parent, seg, user)];
          parent, nextId := nextId, nextId + 1;
        }
      }
      r := Ok(parent);
    }

    /** Resolution without creating anything. */
    method ResolveDirPathStrict(bucket: nat, dirPath: string) returns (r: Outcome)
      requires Valid()
      ensures r == StrictOutcome(folders, bucket, dirPath)
    {
      hide Forest, ValidName;
      if |dirPath| > MAX_DIR_PATH_LEN {
        return Fail(InvalidInput);
      }
      var segs := Split(dirPath);
      if |segs| > MAX_SEGMENTS {
        return Fail(TooManySegments);
      }
      var parent: nat := 0;
      var i := 0;
      while i < |segs|
        invariant 0 <= i <= |segs|
        invariant Resolve(folders, bucket, parent, segs[i..]) == Resolve(folders, bucket, 0, segs)
      {
        assert segs[i..][1..] == segs[i + 1..];
        var seg := segs[i];
        i := i + 1;
        if seg == "" {
          continue;
        }
        if !ValidName(seg) {
          return Fail(InvalidInput);
        }
        var found, f := Lookup(bucket, parent, seg);
        if !found {
          return Fail(NotFound);
        }
        ResolveStep(folders, bucket, parent, segs[i - 1..], f);
        parent := f;
      }
      r := Ok(parent);
    }

    /** The unguarded climb: it ends because the table is a forest. */
    method CheckAncestorsUsable(bucket: nat, folder: nat) returns (ok: bool)
      requires Valid()
      ensures ok <==> (folder == 0 || folder in folders) && AllUp(folders, folder, UsableIn(bucket))
    {
      ghost var good := UsableIn(bucket);
      var cur := folder;
      AllUpRoot(folders, good);
      while cur != 0
        invariant (cur == 0 || cur in folders) && AllUp(folders, cur, good)
                  <==> (folder == 0 || folder in folders) && AllUp(folders, folder, good)
        decreases Depth(folders, cur)
      {
        if cur !in folders {
          return false;
        }
        AllUpStep(folders, cur, good);
        DepthDown(folders, cur);
        if folders[cur].deleted || folders[cur].bucket != bucket || folders[cur].isable == Unusable {
          return false;
        }
        cur := folders[cur].parent;
      }
      ok := true;
    }

    /** The path of a folder: names from the root down, joined behind a slash. */
    method FolderIdToPath(bucket: nat, folder: nat) returns (r: Located, ghost names: seq<string>)
      requires Valid()
      ensures r.Located? <==> (folder == 0 || folder in folders) && AllUp(folders, folder, LiveIn(bucket))
      ensures r.Located? ==> Spells(folders, bucket, 0, names, folder) && r.path == "/" + Join(names)
      ensures r.Located? ==> forall i | 0 <= i < |names| :: names[i] != "" && '/' !in names[i]
    {
      ghost var good := LiveIn(bucket);
      var segs: seq<string> := [];
      var cur := folder;
      names := [];
      AllUpRoot(folders, good);
      while cur != 0
        invariant (cur == 0 || cur in folders) && AllUp(folders, cur, good)
                  <==> (folder == 0 || folder in folders) && AllUp(folders, folder, good)
        invariant Spells(folders, bucket, cur, segs, folder)
        invariant forall i | 0 <= i < |segs| :: segs[i] != "" && '/' !in segs[i]
        decreases Depth(folders, cur)
      {
        if cur !in folders {
          return NoPath(NotFound), [];
        }
        AllUpStep(folders, cur, good);
        DepthDown(folders, cur);
        if folders[cur].deleted || folders[cur].bucket != bucket {
          return NoPath(NotFound), [];
        }
        SpellsUp(folders, bucket, cur, segs, folder);
        segs := [folders[cur].name] + segs;
        cur := folders[cur].parent;
      }
      names := segs;
      r := if |segs| == 0 then Located("/") else Located("/" + Join(segs));
    }

    /** Access along the chain, with its guard against cycles; in a forest the guard
        never cuts a climb short. */
    method CheckAncestorsAccess(op: Operator, bucket: nat, folder: nat) returns (ok: bool)
      requires Valid()
      ensures ok <==> (folder == 0 || folder in folders) && AllUp(folders, folder, ReadableIn(bucket, op))
    {
      ghost var good := ReadableIn(bucket, op);
      var cur := folder;
      var seen: set<nat> := {};
      AllUpRoot(folders, good);
      while cur != 0 && cur !in seen
        invariant (cur == 0 || cur in folders) && AllUp(folders, cur, good)
                  <==> (folder == 0 || folder in folders) && AllUp(folders, folder, good)
        invariant forall f | f in seen :: f in folders && Depth(folders, cur) < Depth(folders, f)
        decreases Depth(folders, cur)
      {
        seen := seen + {cur};
        if cur !in folders {
          return false;
        }
        AllUpStep(folders, cur, good);
        DepthDown(folders, cur);
        if !RowReadable(folders[cur], bucket, op) {
          return false;
        }
        cur := folders[cur].parent;
      }
      ok := true;
    }

    method CheckAncestorsWritable(bucket: nat, folder: nat) returns (ok: bool)
      requires Valid()
      ensures ok <==> (folder == 0 || folder in folders) && AllUp(folders, folder, WritableIn(bucket))
    {
      ghost var good := WritableIn(bucket);
      var cur := folder;
      var seen: set<nat> := {};
      AllUpRoot(folders, good);
      while cur != 0 && cur !in seen
        invariant (cur == 0 || cur in folders) && AllUp(folders, cur, good)
                  <==> (folder == 0 || folder in folders) && AllUp(folders, folder, good)
        invariant forall f | f in seen :: f in folders && Depth(folders, cur) < Depth(folders, f)
        decreases Depth(folders, cur)
      {
        seen := seen + {cur};
        if cur !in folders {
          return false;
        }
        AllUpStep(folders, cur, good);
        DepthDown(folders, cur);
        if !RowWritable(folders[cur], bucket) {
          return false;
        }
        cur := folders[cur].parent;
      }
      ok := true;
    }

    method NameExists(bucket: nat, p: nat, name: string) returns (found: bool)
      ensures found <==> NameTaken(folders, files, bucket, p, name)
    {
      found := (exists x | x in files :: FileNamed(files, bucket, p, name, x)) || (exists f | f in folders :: FolderNamed(folders, bucket, p, name, f));
    }

    /** The first free one of the name, "name (1)", "name (2)" and so on. */
    method UniqueName(bucket: nat, p: nat, name: string) returns (ok: bool, cand: string)
      requires name != "" && '/' !in name
      ensures ok <==> SomeNameFree(folders, files, bucket, p, name)
      ensures ok ==> Chosen(folders, files, bucket, p, name, cand) && cand != "" && '/' !in cand
    {
      var found := NameExists(bucket, p, name);
      if !found {
        return true, name;
      }
      var n := 1;
      while n <= MAX_RENAMES
        invariant 1 <= n <= MAX_RENAMES + 1
        invariant forall k | 1 <= k < n :: NameTaken(folders, files, bucket, p, Renamed(name, k))
      {
        cand := Renamed(name, n);
        RenamedHasNoSlash(name, n);
        found := NameExists(bucket, p, cand);
        if !found {
          assert FirstFree(folders, files, bucket, p, name, n);
          return true, cand;
        }
        n := n + 1;
      }
      return false, name;
    }

    /** Create a directory and, before it, the directories above it. */
    method CreateDir(user: nat, op: Operator, bucket: nat, dirPath: string) returns (r: Outcome)
      requires Valid()
      modifies this`folders, this`nextId
      ensures Valid() && Keeps(old(folders), folders)
      ensures r.Ok? ==> Normal(dirPath).Path? && Resolve(folders, bucket, 0, Split(Normal(dirPath).path)) == Found(r.id)
      ensures r.Ok? ==> r.id in folders && AllUp(folders, folders[r.id].parent, WritableIn(bucket))
      ensures r.Ok? <==> CreateAllowed(old(folders), old(nextId), files, user, op, bucket, dirPath)
    {
      hide MkdirPath, NameFree, Forest, UniqueFolderNames, AllUp, Resolve, NameTaken, ValidName, MkdirP, Normal, Split, Join, UsableNamed;
      var dir := NormalizeDirPath(dirPath);
      if dir.BadPath? || dir.path == "/" {
        return Fail(InvalidInput);
      }
      var segs := Split(dir.path);
      NormalSegments(dirPath);
      var last := segs[|segs| - 1];
      var parentDir := Join(segs[..|segs| - 1]);
      var base := ResolveDirPath(user, bucket, parentDir);
      if base.Fail? {
        return base;
      }
      assert segs == segs[..|segs| - 1] + [last];
      r := CreateIn(user, op, bucket, base.id, last, segs[..|segs| - 1]);
    }

    /** The directory itself, below the one its path led to. */
    method CreateIn(user: nat, op: Operator, bucket: nat, p: nat, last: string, ghost up: seq<string>) returns (r: Outcome)
      requires Valid() && (p == 0 || p in folders) && (forall i | 0 <= i < |up| :: '/' !in up[i])
      requires Resolve(folders, bucket, 0, Split(Join(up))) == Found(p)
      modifies this`folders, this`nextId
      ensures Valid() && Keeps(old(folders), folders)
      ensures r.Ok? ==> Resolve(folders, bucket, 0, up + [last]) == Found(r.id)
      ensures r.Ok? ==> r.id in folders && AllUp(folders, folders[r.id].parent, WritableIn(bucket))
      ensures r.Ok? <==>
                && ValidName(last) && AllUp(old(folders), p, ReadableIn(bucket, op)) && AllUp(old(folders), p, WritableIn(bucket))
                && (UsableNamed(old(folders), bucket, p, last) || !NameTaken(old(folders), files, bucket, p, last))
    {
      hide MkdirPath, NameFree, Forest, UniqueFolderNames, AllUp, Resolve, NameTaken, ValidName, MkdirP, Split, Join, UsableNamed;
      var ok := CheckAncestorsAccess(op, bucket, p);
      if !ok {
        return Fail(Forbidden);
      }
      ok := CheckAncestorsWritable(bucket, p);
      if !ok {
        return Fail(Forbidden);
      }
      if !ValidName(last) {
        return Fail(InvalidInput);
      }
      ParentResolved(folders, bucket, up, last, p);
      var found, f := Lookup(bucket, p, last);
      if found {
        OnlyOneNamed(folders, bucket, p, last, f);
        LastResolved(folders, bucket, p, last, f);
        return if folders[f].isable == Unusable then Fail(NotFound) else if folders[f].isable == Deleting then Fail(Forbidden) else Ok(f);
      }
      NoneNamed(folders, bucket, p, last);
      var taken := NameExists(bucket, p, last);
      if taken {
        return Fail(NameConflict);
      }
      r := AddFolder(bucket, p, last, user, up);
    }

    method AddFolder(bucket: nat, p: nat, name: string, user: nat, ghost up: seq<string>) returns (r: Outcome)
      requires Valid() && (p == 0 || p in folders) && ValidName(name) && NameFree(folders, bucket, p, name)
      requires AllUp(folders, p, WritableIn(bucket))
      requires Resolve(folders, bucket, 0, up) == Found(p)
      modifies this`folders, this`nextId
      ensures Valid() && Keeps(old(folders), folders)
      ensures r.Ok? && r.id in folders && folders[r.id].parent == p && AllUp(folders, p, WritableIn(bucket))
      ensures Resolve(folders, bucket, 0, up + [name]) == Found(r.id)
    {
      hide Forest, UniqueFolderNames, AllUp, Resolve, NameFree, ValidName;
      FolderAdded(folders, nextId, bucket, p, name, user, up);
      folders := folders[nextId := NewFolder(bucket, p, name, user)];
      nextId := nextId + 1;
      return Ok(nextId - 1);
    }

    /** The climb before a move: does the destination lie in the folder? An ancestor that
        cannot be loaded stops it. */
    method ClimbMeets(bucket: nat, dst: nat, id: nat) returns (ok: bool, met: bool)
      requires Valid() && id in folders && (dst == 0 || dst in folders)
      ensures ok ==> (met <==> InOrBelow(folders, dst, id))
      ensures AllUp(folders, dst, UsableIn(bucket)) ==> ok
      ensures ok <==> Loadable(folders, bucket, dst, id)
    {
      hide Loadable, InOrBelow, AllUp;
      var cur := dst;
      BelowRoot(folders, id);
      NothingToLoad(folders, bucket, id);
      while cur != 0
        invariant (cur == 0 || cur in folders) && (InOrBelow(folders, cur, id) <==> InOrBelow(folders, dst, id))
        invariant AllUp(folders, dst, UsableIn(bucket)) ==> AllUp(folders, cur, UsableIn(bucket))
        invariant Loadable(folders, bucket, cur, id) <==> Loadable(folders, bucket, dst, id)
        decreases Depth(folders, cur)
      {
        BelowStep(folders, cur, id);
        DepthDown(folders, cur);
        AllUpStep(folders, cur, UsableIn(bucket));
        LoadStep(folders, bucket, cur, id);
        if cur == id {
          return true, true;
        }
        if folders[cur].deleted || folders[cur].bucket != bucket {
          return false, false;
        }
        cur := folders[cur].parent;
      }
      return true, false;
    }

    /** Where a move goes to: the destination directory, made if need be, and a free
        name in it. */
    method MoveTarget(user: nat, op: Operator, bucket: nat, dir: string, newName: string, parent: nat, name: string)
      returns (failed: bool, failure: Failure, dst: nat, cand: string)
      requires Valid() && newName != "" && '/' !in newName
      modifies this`folders, this`nextId
      ensures Valid() && Keeps(old(folders), folders)
      ensures var made := MkdirPath(old(folders), old(nextId), bucket, user, dir);
              && Made(folders, nextId, made.outcome) == made
              && (!failed <==> TargetAllowed(made, files, bucket, op, newName, parent, name))
              && (failed ==> failure == TargetFailure(made, bucket, op, newName, parent, name))
              && (!failed ==> dst == made.outcome.id && (dst == 0 || dst in folders))
      ensures !failed ==> Chosen(folders, files, bucket, dst, newName, cand) && cand != "" && '/' !in cand
    {
      hide Forest, UniqueFolderNames, AllUp, NameTaken, MkdirPath;
      cand := newName;
      failed, failure, dst := Destination(user, op, bucket, dir);
      if failed {
        return;
      }
      failed := true;
      if dst == parent && Lower(newName) == Lower(name) {
        failure := InvalidInput;
        return;
      }
      var ok: bool;
      ok, cand := UniqueName(bucket, dst, newName);
      failed, failure := !ok, NameConflict;
    }

    /** Move and rename a folder inside its bucket: one row changes, the subtree follows.
        `mid` is the table after the destination was made. */
    method MoveFolder(user: nat, op: Operator, bucket: nat, id: nat, dstDir: string, dstName: string)
      returns (r: Outcome, ghost mid: Folders, ghost dst: nat, ghost cand: string)
      requires Valid()
      modifies this`folders, this`nextId
      ensures Valid() && Keeps(old(folders), mid) && Forest(mid)
      ensures r.Fail? ==> folders == mid
      ensures r.Ok? <==> MoveAllowed(old(folders), old(nextId), files, user, op, bucket, id, dstDir, dstName)
      ensures r.Fail? ==> r.failure == MoveFailure(old(folders), old(nextId), files, user, op, bucket, id, dstDir, dstName)
      ensures r.Ok? ==>
                && r.id == id && id in mid && Made(mid, nextId, Ok(dst)) == MkdirPath(old(folders), old(nextId), bucket, user, Normal(dstDir).path)
                && Chosen(mid, files, bucket, dst, NameOr(dstName, mid[id].name), cand)
                && folders == mid[id := mid[id].(parent := dst, name := cand)]
    {
      hide Chosen, MkdirPath, SomeNameFree, Forest, UniqueFolderNames, AllUp, InOrBelow, NameTaken, NameFree, ValidName, Resolve;
      mid, dst, cand := folders, 0, "";
      if !(id in folders && !folders[id].deleted && folders[id].bucket == bucket) {
        return Fail(NotFound), mid, dst, cand;
      }
      var ok := CheckAncestorsUsable(bucket, id);
      if !ok {
        return Fail(NotFound), mid, dst, cand;
      }
      var dir := NormalizeDirPath(dstDir);
      if dir.BadPath? || (dstName != "" && !ValidName(dstName)) {
        return Fail(InvalidInput), mid, dst, cand;
      }
      var newName := if dstName == "" then folders[id].name else dstName;
      if dstName != "" {
        ValidNameIsPlain(dstName);
      }
      var failed, failure, target, free := MoveTarget(user, op, bucket, dir.path, newName, folders[id].parent, folders[id].name);
      mid, dst, cand := folders, target, free;
      if failed {
        return Fail(failure), mid, dst, cand;
      }
      var loaded, met := ClimbMeets(bucket, target, id);
      if !loaded {
        return Fail(NotFound), mid, dst, cand;
      }
      if met {
        return Fail(InvalidInput), mid, dst, cand;
      }
      ChosenIsFree(folders, files, bucket, target, newName, free);
      FolderMoved(folders, files, nextId, id, bucket, target, free);
      folders := folders[id := folders[id].(parent := target, name := free)];
      return Ok(id), mid, dst, cand;
    }

    /** The top folder a folder copy starts with: a free name in the destination, the
        source's visibility. */
    method CopyFolderTop(user: nat, op: Operator, srcBucket: nat, src: nat, bucket: nat, dstDir: string, dstName: string)
      returns (r: Outcome, ghost mid: Folders, ghost row: FolderRow)
      requires Valid()
      modifies this`folders, this`nextId
      ensures Valid() && Keeps(old(folders), mid)
      ensures r.Fail? ==> folders == mid
      ensures r.Ok? <==> CopyAllowed(old(folders), old(nextId), files, user, op, srcBucket, src, bucket, dstDir, dstName)
      ensures r.Fail? ==> r.failure == CopyFailure(old(folders), old(nextId), user, op, srcBucket, src, bucket, dstDir, dstName)
      ensures r.Ok? ==>
                && src in mid && RowLive(mid[src], srcBucket) && r.id !in mid && r.id != 0
                && row == FolderRow(bucket, row.parent, row.name, user, mid[src].rule, Usable, false)
                && Made(mid, r.id, Ok(row.parent)) == MkdirPath(old(folders), old(nextId), bucket, user, Normal(dstDir).path)
                && (row.parent == 0 || row.parent in mid)
                && Chosen(mid, files, bucket, row.parent, NameOr(dstName, mid[src].name), row.name)
                && folders == mid[r.id := row]
    {
      hide Chosen, MkdirPath, SomeNameFree, Forest, UniqueFolderNames, AllUp, NameTaken, NameFree, ValidName, Resolve;
      mid, row := folders, NewFolder(0, 0, "", 0);
      if !(src in folders && !folders[src].deleted && folders[src].bucket == srcBucket) {
        return Fail(NotFound), mid, row;
      }
      var ok := CheckAncestorsUsable(srcBucket, src);
      if !ok {
        return Fail(NotFound), mid, row;
      }
      var dir := NormalizeDirPath(dstDir);
      if dir.BadPath? {
        return Fail(InvalidInput), mid, row;
      }
      var failed, failure, parent := Destination(user, op, bucket, dir.path);
      mid := folders;
      if failed {
        return Fail(failure), mid, row;
      }
      if dstName != "" && !ValidName(dstName) {
        return Fail(InvalidInput), mid, row;
      }
      var baseName := if dstName == "" then folders[src].name else dstName;
      if dstName != "" {
        ValidNameIsPlain(dstName);
      }
      var cand: string;
      ok, cand := UniqueName(bucket, parent, baseName);
      if !ok {
        return Fail(NameConflict), mid, row;
      }
      var made := FolderRow(bucket, parent, cand, user, folders[src].rule, Usable, false);
      ChosenIsFree(folders, files, bucket, parent, baseName, cand);
      RowAdded(folders, files, nextId, made);
      folders := folders[nextId := made];
      nextId := nextId + 1;
      return Ok(nextId - 1), mid, made;
    }

    /** The destination of a move or copy: made if need be, usable, readable and writable. */
    method Destination(user: nat, op: Operator, bucket: nat, dir: string) returns (failed: bool, failure: Failure, dst: nat)
      requires Valid()
      modifies this`folders, this`nextId
      ensures Valid() && Keeps(old(folders), folders)
      ensures var made := MkdirPath(old(folders), old(nextId), bucket, user, dir);
              && Made(folders, nextId, made.outcome) == made
              && (!failed <==> made.outcome.Ok? && PathOpen(made.fs, bucket, op, made.outcome.id))
              && (failed ==> failure == DestinationFailure(made, bucket))
              && (!failed ==> dst == made.outcome.id && (dst == 0 || dst in folders))
    {
      hide Forest, UniqueFolderNames, AllUp, MkdirPath, Resolve;
      failed, failure, dst := true, NotFound, 0;
      var base := ResolveDirPath(user, bucket, dir);
      if base.Fail? {
        failure := base.failure;
        return;
      }
      dst := base.id;
      var ok := CheckAncestorsUsable(bucket, dst);
      if !ok {
        return;
      }
      ok := CheckAncestorsAccess(op, bucket, dst);
      if !ok {
        failure := Forbidden;
        return;
      }
      ok := CheckAncestorsWritable(bucket, dst);
      if !ok {
        failure := Forbidden;
        return;
      }
      failed := false;
    }
  }

  lemma RowAdded(fs: Folders, files: map<nat, FileRow>, next: nat, row: FolderRow)
    requires TableOk(fs, next) && PlainNames(fs) && (row.parent == 0 || row.parent in fs)
    requires !NameTaken(fs, files, row.bucket, row.parent, row.name) && row.name != "" && '/' !in row.name
    ensures TableOk(fs[next := row], next + 1) && PlainNames(fs[next := row])
  {
    CreateKeepsForest(fs, next, row);
    CreateKeepsUnique(fs, next, row);
  }

  lemma FolderMoved(fs: Folders, files: map<nat, FileRow>, next: nat, id: nat, bucket: nat, dst: nat, cand: string)
    requires TableOk(fs, next) && PlainNames(fs) && id in fs && fs[id].bucket == bucket && (dst == 0 || dst in fs)
    requires !InOrBelow(fs, dst, id) && !NameTaken(fs, files, bucket, dst, cand) && cand != "" && '/' !in cand
    ensures var gs := fs[id := fs[id].(parent := dst, name := cand)]; TableOk(gs, next) && PlainNames(gs)
  {
    var row := fs[id].(parent := dst, name := cand);
    MoveKeepsForestExactly(fs, id, dst, row);
    EditKeepsUnique(fs, id, row);
  }

  lemma EditKeepsUnique(fs: Folders, id: nat, row: FolderRow)
    requires UniqueFolderNames(fs) && id in fs && (row.deleted || NameFree(fs, row.bucket, row.parent, row.name))
    ensures UniqueFolderNames(fs[id := row])
  {
    var gs := fs[id := row];
    forall bucket, p, name, a, b | FolderNamed(gs, bucket, p, name, a) && FolderNamed(gs, bucket, p, name, b) ensures a == b {
      assert a != id ==> FolderNamed(fs, bucket, p, name, a) && FolderNamed(fs, bucket, p, row.name, a) == (Lower(name) == Lower(row.name));
      assert b != id ==> FolderNamed(fs, bucket, p, name, b) && FolderNamed(fs, bucket, p, row.name, b) == (Lower(name) == Lower(row.name));
    }
  }

  /** What making a directory path comes to, limits included. */
  ghost function MkdirPath(fs: Folders, next: nat, bucket: nat, user: nat, path: string): Made {
    if |path| > MAX_DIR_PATH_LEN then Made(fs, next, Fail(InvalidInput))
    else if |Split(path)| > MAX_SEGMENTS then Made(fs, next, Fail(TooManySegments))
    else MkdirP(fs, next, bucket, user, 0, Split(path))
  }

  /** A folder and all above it may be read and written by the operator. */
  ghost predicate PathOpen(fs: Folders, bucket: nat, op: Operator, dst: nat) {
    AllUp(fs, dst, UsableIn(bucket)) && AllUp(fs, dst, ReadableIn(bucket, op)) && AllUp(fs, dst, WritableIn(bucket))
  }

  function NameOr(given: string, own: string): string {
    if given == "" then own else given
  }

  /** The plain name or one of its variants is free. */
  ghost predicate SomeNameFree(fs: Folders, files: map<nat, FileRow>, bucket: nat, p: nat, name: string) {
    !NameTaken(fs, files, bucket, p, name) || exists n :: 1 <= n <= MAX_RENAMES && !NameTaken(fs, files, bucket, p, Renamed(name, n))
  }

  /** The plain name if it is free, otherwise the first free variant. */
  ghost predicate Chosen(fs: Folders, files: map<nat, FileRow>, bucket: nat, p: nat, name: string, cand: string) {
    && !NameTaken(fs, files, bucket, p, cand)
    && (cand == name
        || (NameTaken(fs, files, bucket, p, name)
            && exists n :: 1 <= n <= MAX_RENAMES && FirstFree(fs, files, bucket, p, name, n) && cand == Renamed(name, n)))
  }

  /** When a name is to be had, and which: the plain one if nobody has it, otherwise the
      first of a thousand numbered ones that nobody has. */
  lemma ChosenExactly(fs: Folders, files: map<nat, FileRow>, bucket: nat, p: nat, name: string, cand: string)
    ensures SomeNameFree(fs, files, bucket, p, name)
            <==> !NameTaken(fs, files, bucket, p, name) || exists n :: 1 <= n <= 1000 && !NameTaken(fs, files, bucket, p, Renamed(name, n))
    ensures !NameTaken(fs, files, bucket, p, name) ==> (Chosen(fs, files, bucket, p, name, cand) <==> cand == name)
    ensures NameTaken(fs, files, bucket, p, name) ==>
              (Chosen(fs, files, bucket, p, name, cand)
               <==> exists n :: && 1 <= n <= 1000 && cand == Renamed(name, n) && !NameTaken(fs, files, bucket, p, cand)
                                && forall k | 1 <= k < n :: NameTaken(fs, files, bucket, p, Renamed(name, k)))
  {
    hide NameTaken;
    if NameTaken(fs, files, bucket, p, name) {
      forall n | 1 <= n <= 1000
        ensures FirstFree(fs, files, bucket, p, name, n) <==> forall k | 1 <= k < n :: NameTaken(fs, files, bucket, p, Renamed(name, k)) {
      }
    }
  }

  /** Whether a folder may be moved to, or copied to: every folder from the destination up
      is live, in the bucket, usable, not being deleted, and may be seen. */
  lemma PathOpenExactly(fs: Folders, dst: nat, bucket: nat, op: Operator)
    requires Forest(fs) && (dst == 0 || dst in fs)
    ensures PathOpen(fs, bucket, op, dst)
            <==> forall g | g in fs && InOrBelow(fs, dst, g) ::
                   !fs[g].deleted && fs[g].bucket == bucket && fs[g].isable == Usable && MayAccess(fs[g].rule, op)
  {
    UpChecksExactly(fs, dst, bucket, op);
    hide AllUp, InOrBelow, Forest, MayAccess;
  }

  lemma ChosenIsFree(fs: Folders, files: map<nat, FileRow>, bucket: nat, p: nat, name: string, cand: string)
    requires Chosen(fs, files, bucket, p, name, cand)
    ensures !NameTaken(fs, files, bucket, p, cand)
  {
  }

  /** The destination can be made and is open, it is a real change, and a name is free. */
  ghost predicate TargetAllowed(made: Made, files: map<nat, FileRow>, bucket: nat, op: Operator, newName: string, parent: nat, name: string) {
    && made.outcome.Ok? && PathOpen(made.fs, bucket, op, made.outcome.id)
    && !(made.outcome.id == parent && Lower(newName) == Lower(name))
    && SomeNameFree(made.fs, files, bucket, made.outcome.id, newName)
  }

  /** Why a destination is refused: it cannot be made, or a folder on the way up is not
      there any more, may not be seen or is being deleted. */
  ghost function DestinationFailure(made: Made, bucket: nat): Failure {
    if made.outcome.Fail? then made.outcome.failure
    else if !AllUp(made.fs, made.outcome.id, UsableIn(bucket)) then NotFound
    else Forbidden
  }

  /** Why a move to a destination is refused: the destination itself, no change, or no
      free name. */
  ghost function TargetFailure(made: Made, bucket: nat, op: Operator, newName: string, parent: nat, name: string): Failure {
    if !(made.outcome.Ok? && PathOpen(made.fs, bucket, op, made.outcome.id)) then DestinationFailure(made, bucket)
    else if made.outcome.id == parent && Lower(newName) == Lower(name) then InvalidInput
    else NameConflict
  }

  /** Why a folder is not moved, the first reason first. */
  ghost function MoveFailure(fs: Folders, next: nat, files: map<nat, FileRow>, user: nat, op: Operator, bucket: nat,
                             id: nat, dstDir: string, dstName: string): Failure {
    if !(id in fs && RowLive(fs[id], bucket) && AllUp(fs, id, UsableIn(bucket))) then NotFound
    else if Normal(dstDir).BadPath? || (dstName != "" && !ValidName(dstName)) then InvalidInput
    else
      var made := MkdirPath(fs, next, bucket, user, Normal(dstDir).path);
      var newName := NameOr(dstName, fs[id].name);
      if !TargetAllowed(made, files, bucket, op, newName, fs[id].parent, fs[id].name)
      then TargetFailure(made, bucket, op, newName, fs[id].parent, fs[id].name)
      else InvalidInput
  }

  /** Why a folder copy is refused, the first reason first. */
  ghost function CopyFailure(fs: Folders, next: nat, user: nat, op: Operator, srcBucket: nat, src: nat, bucket: nat,
                             dstDir: string, dstName: string): Failure {
    if !(src in fs && RowLive(fs[src], srcBucket) && AllUp(fs, src, UsableIn(srcBucket))) then NotFound
    else if Normal(dstDir).BadPath? then InvalidInput
    else
      var made := MkdirPath(fs, next, bucket, user, Normal(dstDir).path);
      if !(made.outcome.Ok? && PathOpen(made.fs, bucket, op, made.outcome.id)) then DestinationFailure(made, bucket)
      else if dstName != "" && !ValidName(dstName) then InvalidInput
      else NameConflict
  }

  /** Exactly when a folder may be moved: it is live and reachable, path and name are
      valid, and the destination allows it and does not lie in the folder itself. */
  ghost predicate MoveAllowed(fs: Folders, next: nat, files: map<nat, FileRow>, user: nat, op: Operator, bucket: nat,
                              id: nat, dstDir: string, dstName: string) {
    && id in fs && RowLive(fs[id], bucket) && AllUp(fs, id, UsableIn(bucket))
    && Normal(dstDir).Path? && (dstName == "" || ValidName(dstName))
    && var made := MkdirPath(fs, next, bucket, user, Normal(dstDir).path);
    && TargetAllowed(made, files, bucket, op, NameOr(dstName, fs[id].name), fs[id].parent, fs[id].name)
    && !InOrBelow(made.fs, made.outcome.id, id)
  }

  /** Exactly when a folder copy is accepted. Nothing here looks at where the destination
      lies. */
  ghost predicate CopyAllowed(fs: Folders, next: nat, files: map<nat, FileRow>, user: nat, op: Operator, srcBucket: nat,
                              src: nat, bucket: nat, dstDir: string, dstName: string) {
    && src in fs && RowLive(fs[src], srcBucket) && AllUp(fs, src, UsableIn(srcBucket))
    && Normal(dstDir).Path? && (dstName == "" || ValidName(dstName))
    && var made := MkdirPath(fs, next, bucket, user, Normal(dstDir).path);
    && made.outcome.Ok? && PathOpen(made.fs, bucket, op, made.outcome.id)
    && SomeNameFree(made.fs, files, bucket, made.outcome.id, NameOr(dstName, fs[src].name))
  }

  /** Exactly when a directory may be created, or is there: the directories above can be
      made and are open, the name is valid, and it is free or a usable folder's. */
  ghost predicate CreateAllowed(fs: Folders, next: nat, files: map<nat, FileRow>, user: nat, op: Operator, bucket: nat, dirPath: string) {
    && Normal(dirPath).Path? && Normal(dirPath).path != "/"
    && var segs := Split(Normal(dirPath).path);
    && var made := MkdirPath(fs, next, bucket, user, Join(segs[..|segs| - 1]));
    && made.outcome.Ok? && ValidName(segs[|segs| - 1])
    && AllUp(made.fs, made.outcome.id, ReadableIn(bucket, op)) && AllUp(made.fs, made.outcome.id, WritableIn(bucket))
    && (UsableNamed(made.fs, bucket, made.outcome.id, segs[|segs| - 1])
        || !NameTaken(made.fs, files, bucket, made.outcome.id, segs[|segs| - 1]))
  }

  ghost predicate UsableNamed(fs: Folders, bucket: nat, p: nat, name: string) {
    exists f :: FolderNamed(fs, bucket, p, name, f) && fs[f].isable == Usable
  }

  lemma OnlyOneNamed(fs: Folders, bucket: nat, p: nat, name: string, f: nat)
    requires UniqueFolderNames(fs) && FolderNamed(fs, bucket, p, name, f)
    ensures UsableNamed(fs, bucket, p, name) <==> fs[f].isable == Usable
    ensures forall files :: NameTaken(fs, files, bucket, p, name)
  {
  }

  lemma NoneNamed(fs: Folders, bucket: nat, p: nat, name: string)
    requires NameFree(fs, bucket, p, name)
    ensures !UsableNamed(fs, bucket, p, name)
  {
  }

  ghost predicate FirstFree(fs: Folders, files: map<nat, FileRow>, bucket: nat, p: nat, name: string, n: nat) {
    forall k | 1 <= k < n :: NameTaken(fs, files, bucket, p, Renamed(name, k))
  }

  lemma NormalSegments(dirPath: string)
    requires Normal(dirPath).Path? && Normal(dirPath).path != "/"
    ensures forall i | 0 <= i < |Split(Normal(dirPath).path)| :: '/' !in Split(Normal(dirPath).path)[i]
  {
    SplitHasNoSlash(Normal(dirPath).path);
  }

  /** A path whose directory part was resolved resolves on from there. */
  lemma ParentResolved(fs: Folders, bucket: nat, up: seq<string>, last: string, p: nat)
    requires UniqueFolderNames(fs) && forall i | 0 <= i < |up| :: '/' !in up[i]
    requires Resolve(fs, bucket, 0, Split(Join(up))) == Found(p)
    ensures Resolve(fs, bucket, 0, up) == Found(p)
    ensures Resolve(fs, bucket, 0, up + [last]) == Resolve(fs, bucket, p, [last])
  {
    if up != [] {
      SplitJoin(up);
    }
    ResolveAppend(fs, bucket, 0, up, last, p);
  }

  lemma LastResolved(fs: Folders, bucket: nat, p: nat, last: string, f: nat)
    requires UniqueFolderNames(fs) && ValidName(last) && FolderNamed(fs, bucket, p, last, f)
    ensures Resolve(fs, bucket, p, [last]) == Found(f)
  {
    ValidNameIsPlain(last);
    ResolveStep(fs, bucket, p, [last], f);
  }

  lemma FolderAdded(fs: Folders, next: nat, bucket: nat, p: nat, name: string, user: nat, up: seq<string>)
    requires TableOk(fs, next) && PlainNames(fs) && (p == 0 || p in fs) && ValidName(name) && NameFree(fs, bucket, p, name)
    requires AllUp(fs, p, WritableIn(bucket))
    requires Resolve(fs, bucket, 0, up) == Found(p)
    ensures var gs := fs[next := NewFolder(bucket, p, name, user)];
            && TableOk(gs, next + 1) && PlainNames(gs) && AllUp(gs, p, WritableIn(bucket))
            && Resolve(gs, bucket, 0, up + [name]) == Found(next)
  {
    hide Forest, UniqueFolderNames, AllUp, NameFree;
    var gs := fs[next := NewFolder(bucket, p, name, user)];
    CreateStep(fs, next, bucket, user, p, name);
    ValidNameIsPlain(name);
    RootIsNoRow(fs);
    RootIsNoRow(gs);
    AllUpKept(fs, gs, p, WritableIn(bucket));
    ResolveKept(fs, gs, bucket, 0, up, p);
    ResolveAppend(gs, bucket, 0, up, name, p);
    assert [name][1..] == [];
    ResolveStep(gs, bucket, p, [name], next);
  }

  lemma RootIsNoRow(fs: Folders)
    requires Forest(fs)
    ensures 0 !in fs
  {
  }

  lemma AllUpKept(fs: Folders, gs: Folders, f: nat, ok: FolderRow -> bool)
    requires Forest(fs) && 0 !in gs && Keeps(fs, gs) && (f == 0 || f in fs) && AllUp(fs, f, ok)
    ensures AllUp(gs, f, ok)
  {
    var chain := HasChain(fs, f);
    ChainKept(fs, gs, chain, f);
    forall c | IsChain(gs, c, f) ensures c == chain {
      ChainIsUnique(gs, c, chain, f);
    }
  }

  lemma {:induction false} ResolveKept(fs: Folders, gs: Folders, bucket: nat, p: nat, segs: seq<string>, id: nat)
    requires UniqueFolderNames(gs) && Keeps(fs, gs) && Resolve(fs, bucket, p, segs) == Found(id)
    ensures Resolve(gs, bucket, p, segs) == Found(id)
    decreases |segs|
  {
    if segs != [] {
      if segs[0] == "" {
        ResolveKept(fs, gs, bucket, p, segs[1..], id);
      } else {
        var f: nat :| FolderNamed(fs, bucket, p, segs[0], f) && Resolve(fs, bucket, f, segs[1..]) == Found(id);
        ResolveStep(gs, bucket, p, segs, f);
        ResolveKept(fs, gs, bucket, f, segs[1..], id);
      }
    }
  }

  // ----- paths and ids undo each other -----

  /** Strict resolution of a folder's path returns the folder, exactly when the path is
      short enough and every name on it passes the name check. */
  lemma PathBackToIdExactly(fs: Folders, bucket: nat, names: seq<string>, id: nat)
    requires UniqueFolderNames(fs) && Spells(fs, bucket, 0, names, id)
    requires forall i | 0 <= i < |names| :: names[i] != "" && '/' !in names[i]
    ensures var path := "/" + Join(names);
            StrictOutcome(fs, bucket, path) == Ok(id)
            <==> |path| <= 512 && forall i | 0 <= i < |names| :: ValidName(names[i])
  {
    var path := "/" + Join(names);
    assert path[1..] == Join(names);
    SpelledResolves(fs, bucket, 0, names, id);
    if names == [] {
      assert Split(path) == [[], []];
      assert [[], []][1..] == [""] && [""][1..] == [];
      assert Resolve(fs, bucket, 0, [""]) == Resolve(fs, bucket, 0, []);
    } else {
      SplitJoin(names);
      assert Split(path)[1..] == names;
      JoinLength(names);
    }
  }

  /** And back: the names of what a path resolves to are the path's own segments, up to
      case. */
  lemma IdBackToPath(fs: Folders, bucket: nat, path: string, id: nat, names: seq<string>)
    requires Forest(fs) && StrictOutcome(fs, bucket, path) == Ok(id) && Spells(fs, bucket, 0, names, id)
    ensures |names| == |NonEmpty(Split(path))|
    ensures forall i | 0 <= i < |names| :: Lower(names[i]) == Lower(NonEmpty(Split(path))[i])
  {
    var spelled := ResolvedSpells(fs, bucket, 0, Split(path), id);
    SpellingIsUnique(fs, bucket, names, spelled, id);
  }

  // ----- the segment guard -----

  lemma {:induction false} MkdirNeverTooMany(fs: Folders, next: nat, bucket: nat, user: nat, p: nat, segs: seq<string>)
    ensures MkdirP(fs, next, bucket, user, p, segs).outcome != Fail(TooManySegments)
    decreases |segs|
  {
    if segs != [] && (segs[0] == "" || ValidName(segs[0])) {
      if segs[0] == "" {
        MkdirNeverTooMany(fs, next, bucket, user, p, segs[1..]);
      } else if f: nat :| FolderNamed(fs, bucket, p, segs[0], f) {
        forall g: nat | FolderNamed(fs, bucket, p, segs[0], g) {
          MkdirNeverTooMany(fs, next, bucket, user, g, segs[1..]);
        }
      } else {
        MkdirNeverTooMany(fs[next := NewFolder(bucket, p, segs[0], user)], next + 1, bucket, user, next, segs[1..]);
      }
    }
  }

  /** Exactly which paths the segment guard refuses, in both resolutions: short enough,
      but with as many slashes as segments are allowed. */
  lemma SegmentGuardExactly(fs: Folders, next: nat, bucket: nat, user: nat, path: string)
    ensures var tooMany := |path| <= 512 && SlashCount(path) >= 500;
            && (StrictOutcome(fs, bucket, path) == Fail(TooManySegments) <==> tooMany)
            && (MkdirPath(fs, next, bucket, user, path).outcome == Fail(TooManySegments) <==> tooMany)
  {
    SplitCounts(path);
    MkdirNeverTooMany(fs, next, bucket, user, 0, Split(path));
  }

  /** A path in normal form never meets the guard: its segments are not empty, so there
      are at most half as many as it has characters. */
  lemma NormalPathPassesGuard(fs: Folders, next: nat, bucket: nat, user: nat, p: string)
    requires Normal(p).Path?
    ensures StrictOutcome(fs, bucket, Normal(p).path) != Fail(TooManySegments)
    ensures MkdirPath(fs, next, bucket, user, Normal(p).path).outcome != Fail(TooManySegments)
  {
    var path := Normal(p).path;
    SegmentGuardExactly(fs, next, bucket, user, path);
    SplitCounts(path);
    if p == "" || p == "/" {
      assert Split("/") == [""] + Split("");
    } else {
      var segs := Split(TrimRight(TrimLeft(p)));
      SplitHasNoSlash(TrimRight(TrimLeft(p)));
      SplitJoin(segs);
      JoinLength(segs);
    }
  }

  function Slashes(n: nat): string {
    seq(n, i => '/')
  }

  lemma {:induction false} AllSlashes(n: nat)
    ensures SlashCount(Slashes(n)) == n
  {
    if n > 0 {
      assert Slashes(n)[1..] == Slashes(n - 1);
      AllSlashes(n - 1);
    }
  }

  /** So only a path that is not normal meets it: slashes alone, within the length limit. */
  lemma SegmentGuardIsReachable(fs: Folders, bucket: nat)
    ensures exists path :: |path| <= MAX_DIR_PATH_LEN && StrictOutcome(fs, bucket, path) == Fail(TooManySegments)
  {
    AllSlashes(MAX_SEGMENTS);
    assert |Slashes(MAX_SEGMENTS)| <= MAX_DIR_PATH_LEN;
    SegmentGuardExactly(fs, 1, bucket, 0, Slashes(MAX_SEGMENTS));
  }

  lemma ValidNameIsPlain(name: string)
    requires ValidName(name)
    ensures name != "" && '/' !in name
  {
    forall i | 0 <= i < |name| ensures name[i] != '/' {
      assert !BadChar(name[i]);
    }
  }

  ghost function StrictOutcome(fs: Folders, bucket: nat, dirPath: string): Outcome {
    if |dirPath| > MAX_DIR_PATH_LEN then Fail(InvalidInput)
    else if |Split(dirPath)| > MAX_SEGMENTS then Fail(TooManySegments)
    else match Resolve(fs, bucket, 0, Split(dirPath))
      case Found(id) => Ok(id)
      case Missing => Fail(NotFound)
      case Invalid => Fail(InvalidInput)
  }
}

/** The directory tree a download walks: which directories lie within reach of the root,
    and how often the paired page cursors of one directory turn. */
module DirectoryTree {
  import opened Paging
  import opened Turns

  /** Per directory the ids of its visible files and subfolders, newest first. */
  datatype Tree = Tree(files: map<nat, seq<nat>>, folders: map<nat, seq<nat>>)

  ghost predicate Holds(t: Tree, p: nat, d: nat) {
    p in t.folders && d in t.folders[p]
  }

  /** Every directory lists its entries in order, has at most one parent, and the root
      has none. */
  ghost predicate Sound(t: Tree, root: nat) {
    && t.files.Keys == t.folders.Keys && root in t.folders
    && (forall d | d in t.folders :: Descending(t.folders[d]) && Descending(t.files[d]))
    && (forall p, d | Holds(t, p, d) :: d in t.folders && d != root)
    && (forall p, q, d | Holds(t, p, d) && Holds(t, q, d) :: p == q)
  }

  /** Directory `d` lies `k` levels below the root. */
  ghost predicate At(t: Tree, root: nat, d: nat, k: nat)
    decreases k
  {
    if k == 0 then d == root else exists p: nat :: At(t, root, p, k - 1) && Holds(t, p, d)
  }

  ghost predicate Within(t: Tree, root: nat, d: nat, limit: nat) {
    exists k: nat :: k <= limit && At(t, root, d, k)
  }

  lemma {:induction false} LevelIsUnique(t: Tree, root: nat, d: nat, j: nat, k: nat)
    requires Sound(t, root) && At(t, root, d, j) && At(t, root, d, k)
    ensures j == k
    decreases j
  {
    if j > 0 && k > 0 {
      var p: nat :| At(t, root, p, j - 1) && Holds(t, p, d);
      var q: nat :| At(t, root, q, k - 1) && Holds(t, q, d);
      LevelIsUnique(t, root, p, j - 1, k - 1);
    }
  }

  lemma AtIsDirectory(t: Tree, root: nat, d: nat, k: nat)
    requires Sound(t, root) && At(t, root, d, k)
    ensures d in t.folders
  {
  }

  // ----- two cursors turning together -----

  /** The least common multiple, by what it is. */
  ghost predicate IsLcm(a: nat, b: nat, m: nat)
    requires a > 0 && b > 0
  {
    && m > 0 && m % a == 0 && m % b == 0
    && forall q | 0 < q < m :: !(q % a == 0 && q % b == 0)
  }

  /** There is only one. */
  lemma LcmIsUnique(a: nat, b: nat, m: nat, n: nat)
    requires a > 0 && b > 0 && IsLcm(a, b, m) && IsLcm(a, b, n)
    ensures m == n && m > 0 && m % a == 0 && m % b == 0
  {
  }

  /** Both cursors are empty together by the product of the page counts at the latest. */
  lemma ProductTurns(a: nat, b: nat)
    requires a > 0 && b > 0
    ensures (a * b) % a == 0 && (a * b) % b == 0 && a * b > 0
  {
    ModOf(b, a, 0);
    ModOf(a, b, 0);
  }

  /** A common multiple covers all pages of both tables. */
  lemma MultipleCovers(r: nat, n: nat)
    requires n > 0 && r > 0 && r % n == 0
    ensures r >= n
  {
  }
}

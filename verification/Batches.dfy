/** `ORDER BY id LIMIT n` over a table. */
module Batches {
  /** `ids` are the smallest members of `s`, at most `limit` of them, in order. */
  ghost predicate IsBatch(ids: seq<nat>, s: set<nat>, limit: nat) {
    && |ids| <= limit
    && (forall i, j | 0 <= i < j < |ids| :: ids[i] < ids[j])
    && (forall x | x in ids :: x in s)
    && (forall x | x in s && x !in ids :: |ids| == limit && forall y | y in ids :: y < x)
  }

  ghost predicate Least(s: set<nat>, m: nat) {
    m in s && forall x: nat | x in s :: m <= x
  }

  lemma {:induction false} LeastExists(s: set<nat>) returns (m: nat)
    requires s != {}
    ensures Least(s, m)
  {
    m :| m in s;
    var rest := s - {m};
    if rest == {} {
      assert forall x: nat | x in s :: x == m || x in rest;
    } else {
      var k := LeastExists(rest);
      LeastOfMore(s, m, k);
      if k < m {
        m := k;
      }
    }
  }

  lemma LeastOfMore(s: set<nat>, m: nat, k: nat)
    requires m in s && Least(s - {m}, k)
    ensures Least(s, if k < m then k else m)
  {
    forall x: nat | x in s ensures k <= x || x == m {
      assert x == m || x in s - {m};
    }
  }

  /** The query itself. */
  method FirstIds(s: set<nat>, limit: nat) returns (ids: seq<nat>)
    ensures IsBatch(ids, s, limit)
  {
    ids := [];
    var rest := s;
    while |ids| < limit && rest != {}
      invariant |ids| <= limit && rest <= s
      invariant forall x | x in ids :: x in s
      invariant forall x | x in s :: x in ids || x in rest
      invariant forall i, j | 0 <= i < j < |ids| :: ids[i] < ids[j]
      invariant forall x, y | x in rest && y in ids :: y < x
      decreases rest
    {
      ghost var least := LeastExists(rest);
      var m :| m in rest && forall x | x in rest :: m <= x;
      TakeLeast(s, rest, ids, m);
      ids := ids + [m];
      rest := rest - {m};
    }
  }

  lemma TakeLeast(s: set<nat>, rest: set<nat>, ids: seq<nat>, m: nat)
    requires Least(rest, m)
    requires forall x | x in s :: x in ids || x in rest
    requires forall i, j | 0 <= i < j < |ids| :: ids[i] < ids[j]
    requires forall x, y | x in rest && y in ids :: y < x
    ensures forall x | x in s :: x in ids + [m] || x in rest - {m}
    ensures forall i, j | 0 <= i < j < |ids + [m]| :: (ids + [m])[i] < (ids + [m])[j]
    ensures forall x, y | x in rest - {m} && y in ids + [m] :: y < x
  {
    forall x | x in s ensures x in ids + [m] || x in rest - {m} {
      assert x == m ==> (ids + [m])[|ids|] == x;
    }
    forall i | 0 <= i < |ids| ensures ids[i] < m {
      assert ids[i] in ids;
    }
  }

  /** No more ordered members than the set has. */
  lemma {:induction false} OrderedFit(ids: seq<nat>, s: set<nat>)
    requires forall i, j | 0 <= i < j < |ids| :: ids[i] < ids[j]
    requires forall x | x in ids :: x in s
    ensures |ids| <= |s|
  {
    if ids != [] {
      var last := ids[|ids| - 1];
      var rest := ids[..|ids| - 1];
      forall x | x in rest ensures x in s - {last} {
        assert x in ids;
        var i :| 0 <= i < |rest| && rest[i] == x;
        assert ids[i] < last;
      }
      assert last in ids;
      OrderedFit(rest, s - {last});
    }
  }

  /** `ORDER BY id` without a limit. */
  method AllIds(s: set<nat>) returns (ids: seq<nat>)
    ensures forall x :: x in ids <==> x in s
    ensures forall i, j | 0 <= i < j < |ids| :: ids[i] < ids[j]
  {
    ids := FirstIds(s, |s| + 1);
    OrderedFit(ids, s);
  }

  lemma {:induction false} OrderedSize(ids: seq<nat>)
    requires forall i, j | 0 <= i < j < |ids| :: ids[i] < ids[j]
    ensures |set x: nat | x in ids| == |ids|
  {
    if ids != [] {
      var last, rest := ids[|ids| - 1], ids[..|ids| - 1];
      OrderedSize(rest);
      assert ids == rest + [last];
      assert (set x: nat | x in ids) == (set x: nat | x in rest) + {last};
    }
  }

  lemma SubsetSize(s: set<nat>, all: set<nat>)
    requires s <= all
    ensures |s| <= |all|
  {
    assert all == s + (all - s);
  }
}

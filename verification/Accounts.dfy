/** Used space: what bucket and user counters should say, and what one change of the
    files table does to them. */
module Accounts {
  import opened Wrappers
  import opened Rows

  type Files = map<nat, FileRow>

  /** A quota of zero or less does not limit a bucket. */
  datatype Bucket = Bucket(quota: int, used: int)

  /** No quota does not limit a user; a quota of zero makes the user read-only. */
  datatype Account = Account(quota: Option<int>, used: int)

  type Weight = FileRow -> nat

  function InBucket(b: nat): Weight {
    (r: FileRow) => if r.bucket == b then r.size else 0
  }

  function OwnedBy(u: nat): Weight {
    (r: FileRow) => if r.owner == u then r.size else 0
  }

  /** The weight of all rows, those in the recycle bin included. */
  ghost function Sum(files: Files, w: Weight): nat
    decreases files.Keys
  {
    if files.Keys == {} then 0
    else
      var k :| k in files.Keys;
      w(files[k]) + Sum(files - {k}, w)
  }

  lemma {:induction false} SumWithout(files: Files, w: Weight, k: nat)
    requires k in files
    ensures Sum(files, w) == w(files[k]) + Sum(files - {k}, w)
    decreases files.Keys
  {
    var j :| j in files.Keys && Sum(files, w) == w(files[j]) + Sum(files - {j}, w);
    if j != k {
      SumWithout(files - {j}, w, k);
      SumWithout(files - {k}, w, j);
      assert files - {j} - {k} == files - {k} - {j};
    }
  }

  lemma SumSet(files: Files, w: Weight, k: nat, r: FileRow)
    ensures Sum(files[k := r], w) == Sum(files, w) + w(r) - if k in files then w(files[k]) else 0
  {
    SumWithout(files[k := r], w, k);
    if k in files {
      SumWithout(files, w, k);
      assert files[k := r] - {k} == files - {k};
    } else {
      assert files[k := r] - {k} == files;
    }
  }

  /** The weight of some of the rows. */
  ghost function SumOf(files: Files, ids: set<nat>, w: Weight): nat {
    Sum(Restrict(files, ids), w)
  }

  function Restrict(files: Files, ids: set<nat>): Files {
    map x | x in files && x in ids :: files[x]
  }

  lemma {:induction false} SumSplit(files: Files, ids: set<nat>, w: Weight)
    ensures Sum(files, w) == SumOf(files, ids, w) + Sum(files - ids, w)
    decreases files.Keys
  {
    var some := Restrict(files, ids);
    if files.Keys == {} {
      assert some.Keys == {} && (files - ids).Keys == {};
    } else {
      var k :| k in files.Keys;
      var rest := files - {k};
      SumSplit(rest, ids, w);
      SumWithout(files, w, k);
      if k in ids {
        SumWithout(some, w, k);
        assert some - {k} == Restrict(rest, ids);
        assert files - ids == rest - ids;
      } else {
        SumWithout(files - ids, w, k);
        assert some == Restrict(rest, ids);
        assert files - ids - {k} == rest - ids;
      }
    }
  }

  // ----- the invariants -----

  /** Every bucket counter is the total size of the bucket's rows. */
  ghost predicate Conserved(files: Files, buckets: map<nat, Bucket>) {
    forall b | b in buckets :: buckets[b].used == Sum(files, InBucket(b))
  }

  /** Every user counter is the total size of the user's own rows. */
  ghost predicate UsersExact(files: Files, users: map<nat, Account>) {
    forall u | u in users :: users[u].used == Sum(files, OwnedBy(u))
  }

  ghost predicate UsersNonNegative(users: map<nat, Account>) {
    forall u | u in users :: users[u].used >= 0
  }

  // ----- counter updates -----

  function Clamped(n: int): nat {
    if n < 0 then 0 else n
  }

  /** `used_space + delta` without a clamp. */
  function Charge(buckets: map<nat, Bucket>, b: nat, delta: int): map<nat, Bucket> {
    if b in buckets then buckets[b := buckets[b].(used := buckets[b].used + delta)] else buckets
  }

  /** A clamped return; an unknown bucket is skipped. */
  function Refund(buckets: map<nat, Bucket>, b: nat, size: nat): map<nat, Bucket> {
    if b in buckets then buckets[b := buckets[b].(used := Clamped(buckets[b].used - size))] else buckets
  }

  function ChargeUser(users: map<nat, Account>, u: nat, size: nat): map<nat, Account> {
    if u in users then users[u := users[u].(used := users[u].used + size)] else users
  }

  /** A clamped change of either sign, as the SMB write-back makes it. */
  function ShiftUser(users: map<nat, Account>, u: nat, delta: int): map<nat, Account> {
    if u in users then users[u := users[u].(used := Clamped(users[u].used + delta))] else users
  }

  /** Adding a row and charging for it. */
  lemma AddConserves(files: Files, buckets: map<nat, Bucket>, id: nat, r: FileRow)
    requires id !in files && Conserved(files, buckets)
    ensures Conserved(files[id := r], Charge(buckets, r.bucket, r.size))
  {
    forall b ensures Sum(files[id := r], InBucket(b)) == Sum(files, InBucket(b)) + InBucket(b)(r) {
      SumSet(files, InBucket(b), id, r);
    }
  }

  lemma AddKeepsUsers(files: Files, users: map<nat, Account>, id: nat, r: FileRow)
    requires id !in files && UsersExact(files, users)
    ensures UsersExact(files[id := r], ChargeUser(users, r.owner, r.size))
  {
    forall u ensures Sum(files[id := r], OwnedBy(u)) == Sum(files, OwnedBy(u)) + OwnedBy(u)(r) {
      SumSet(files, OwnedBy(u), id, r);
    }
  }

  /** A change that keeps size, bucket and owner: recycling, restoring, moving inside the
      bucket, renaming. */
  lemma EditConserves(files: Files, buckets: map<nat, Bucket>, users: map<nat, Account>, id: nat, r: FileRow)
    requires id in files && r.size == files[id].size && r.bucket == files[id].bucket && r.owner == files[id].owner
    ensures Conserved(files, buckets) <==> Conserved(files[id := r], buckets)
    ensures UsersExact(files, users) <==> UsersExact(files[id := r], users)
  {
    forall b ensures Sum(files[id := r], InBucket(b)) == Sum(files, InBucket(b)) {
      SumSet(files, InBucket(b), id, r);
    }
    forall u ensures Sum(files[id := r], OwnedBy(u)) == Sum(files, OwnedBy(u)) {
      SumSet(files, OwnedBy(u), id, r);
    }
  }

  /** Purging rows of one bucket and returning their bytes; the clamp never acts. */
  lemma PurgeConserves(files: Files, buckets: map<nat, Bucket>, b: nat, ids: set<nat>)
    requires Conserved(files, buckets) && forall x | x in ids && x in files :: files[x].bucket == b
    ensures Conserved(files - ids, Refund(buckets, b, SumOf(files, ids, InBucket(b))))
    ensures b in buckets ==> buckets[b].used - SumOf(files, ids, InBucket(b)) >= 0
  {
    forall c | c in buckets
      ensures Sum(files, InBucket(c)) == SumOf(files, ids, InBucket(c)) + Sum(files - ids, InBucket(c))
      ensures c != b ==> SumOf(files, ids, InBucket(c)) == 0
    {
      SumSplit(files, ids, InBucket(c));
      if c != b {
        WeightlessSum(Restrict(files, ids), InBucket(c));
      }
    }
  }

  lemma {:induction false} WeightlessSum(files: Files, w: Weight)
    requires forall x | x in files :: w(files[x]) == 0
    ensures Sum(files, w) == 0
    decreases files.Keys
  {
    if files.Keys != {} {
      var k :| k in files.Keys;
      SumWithout(files, w, k);
      WeightlessSum(files - {k}, w);
    }
  }

  /** Clamped returns to the owners of purged files; nothing to return changes nothing. */
  function RefundOwners(users: map<nat, Account>, sizes: map<nat, nat>): map<nat, Account> {
    map u | u in users ::
      if u in sizes && sizes[u] > 0 then users[u].(used := Clamped(users[u].used - sizes[u])) else users[u]
  }

  /** `sizes` says what each owner gets back for the purged rows. */
  ghost predicate SizesByOwner(files: Files, ids: set<nat>, sizes: map<nat, nat>) {
    forall u: nat :: SumOf(files, ids, OwnedBy(u)) == if u in sizes then sizes[u] else 0
  }

  lemma PurgeKeepsUsers(files: Files, users: map<nat, Account>, ids: set<nat>, sizes: map<nat, nat>)
    requires UsersExact(files, users) && SizesByOwner(files, ids, sizes)
    ensures UsersExact(files - ids, RefundOwners(users, sizes))
  {
    forall u | u in users ensures Sum(files, OwnedBy(u)) == SumOf(files, ids, OwnedBy(u)) + Sum(files - ids, OwnedBy(u)) {
      SumSplit(files, ids, OwnedBy(u));
    }
  }

  lemma SumOfMore(files: Files, ids: set<nat>, x: nat, w: Weight)
    requires x in files && x !in ids
    ensures SumOf(files, ids + {x}, w) == SumOf(files, ids, w) + w(files[x])
  {
    var more := Restrict(files, ids + {x});
    SumWithout(more, w, x);
    assert more - {x} == Restrict(files, ids);
  }

  lemma SumOfNone(files: Files, w: Weight)
    ensures SumOf(files, {}, w) == 0
  {
    assert forall x :: x !in Restrict(files, {});
  }

  /** What goes back: a counter falls by exactly what is returned, but not below zero, and
      no other counter moves. */
  lemma RefundsExactly(buckets: map<nat, Bucket>, b: nat, users: map<nat, Account>, u: nat, n: nat)
    ensures forall c | c in buckets && c != b :: c in Refund(buckets, b, n) && Refund(buckets, b, n)[c] == buckets[c]
    ensures b in buckets ==> b in Refund(buckets, b, n)
                             && Refund(buckets, b, n)[b] == Bucket(buckets[b].quota, if buckets[b].used > n then buckets[b].used - n else 0)
    ensures Refund(buckets, b, n).Keys == buckets.Keys && RefundOwners(users, map[u := n]).Keys == users.Keys
    ensures forall v | v in users && v != u :: RefundOwners(users, map[u := n])[v] == users[v]
    ensures u in users && n > 0 ==>
              RefundOwners(users, map[u := n])[u] == Account(users[u].quota, if users[u].used > n then users[u].used - n else 0)
    ensures u in users && n == 0 ==> RefundOwners(users, map[u := n])[u] == users[u]
  {
  }

  // ----- write-back over SMB -----

  /** The size of one file changes and the bucket is charged the difference. */
  lemma SyncConserves(files: Files, buckets: map<nat, Bucket>, id: nat, size: nat)
    requires id in files && Conserved(files, buckets)
    ensures Conserved(files[id := files[id].(size := size)], Charge(buckets, files[id].bucket, size - files[id].size))
  {
    forall b ensures Sum(files[id := files[id].(size := size)], InBucket(b))
                     == Sum(files, InBucket(b)) + InBucket(b)(files[id].(size := size)) - InBucket(b)(files[id])
    {
      SumSet(files, InBucket(b), id, files[id].(size := size));
    }
  }

  /** The acting user, not the owner, is charged the difference. User counters stay exact
      exactly when nothing changes or the actor is the owner. */
  lemma SyncKeepsUsersExactly(files: Files, users: map<nat, Account>, id: nat, size: nat, actor: nat)
    requires id in files && UsersExact(files, users) && files[id].owner in users && actor in users
    ensures UsersExact(files[id := files[id].(size := size)], ShiftUser(users, actor, size - files[id].size))
            <==> size == files[id].size || actor == files[id].owner
    ensures UsersNonNegative(users) ==> UsersNonNegative(ShiftUser(users, actor, size - files[id].size))
  {
    var owner, after := files[id].owner, files[id := files[id].(size := size)];
    forall u ensures Sum(after, OwnedBy(u)) == Sum(files, OwnedBy(u)) + OwnedBy(u)(files[id].(size := size)) - OwnedBy(u)(files[id]) {
      SumSet(files, OwnedBy(u), id, files[id].(size := size));
    }
  }

  /** The books a write-back touches. */
  datatype Sheet = Sheet(files: Files, buckets: map<nat, Bucket>, users: map<nat, Account>)

  predicate Live(files: Files, x: nat) {
    x in files && !files[x].deleted
  }

  /** The books after record `x` took the size `size`, the bucket and the acting user
      charged the difference; nothing happens to a record that is gone or recycled. */
  function Synced(s: Sheet, x: nat, actor: nat, size: nat): Sheet {
    if !Live(s.files, x) then s
    else
      var delta := size - s.files[x].size;
      Sheet(s.files[x := s.files[x].(size := size)], Charge(s.buckets, s.files[x].bucket, delta),
            if delta == 0 then s.users else ShiftUser(s.users, actor, delta))
  }

  // ----- quotas -----

  predicate BucketAllows(b: Bucket, delta: int) {
    delta <= 0 || b.quota <= 0 || b.used + delta <= b.quota
  }

  predicate UserAllows(a: Account) {
    a.quota == None || (a.quota.value != 0 && a.used <= a.quota.value)
  }

  /** A bucket charged with those of the changes its quota allows. */
  function ChargedBucket(b: Bucket, deltas: seq<int>): Bucket {
    if deltas == [] then b
    else
      var before := ChargedBucket(b, deltas[..|deltas| - 1]);
      var delta := deltas[|deltas| - 1];
      if BucketAllows(before, delta) then before.(used := before.used + delta) else before
  }

  /** A bucket within its quota stays within it, whatever is asked for; and what is
      refused would have crossed it. */
  lemma {:induction false} BucketStaysWithinQuota(b: Bucket, deltas: seq<int>)
    requires b.quota > 0 && b.used <= b.quota
    ensures ChargedBucket(b, deltas).used <= b.quota && ChargedBucket(b, deltas).quota == b.quota
    ensures forall delta: int :: BucketAllows(ChargedBucket(b, deltas), delta) <==> delta <= 0 || ChargedBucket(b, deltas).used + delta <= b.quota
  {
    if deltas != [] {
      BucketStaysWithinQuota(b, deltas[..|deltas| - 1]);
    }
  }

  /** A user charged with those of the files the soft limit allows. */
  function ChargedAccount(a: Account, sizes: seq<nat>): Account {
    if sizes == [] then a
    else
      var before := ChargedAccount(a, sizes[..|sizes| - 1]);
      if UserAllows(before) then before.(used := before.used + sizes[|sizes| - 1]) else before
  }

  /** The soft limit is crossed by less than one file more than the largest: a user
      within the limit never has more than the limit and one file; a user with the limit
      zero gets nothing; a user over the limit gets nothing. */
  lemma {:induction false} UserOvershootsByOneFile(a: Account, sizes: seq<nat>, largest: nat)
    requires a.quota.Some? && forall i | 0 <= i < |sizes| :: sizes[i] <= largest
    ensures ChargedAccount(a, sizes).quota == a.quota
    ensures a.used <= a.quota.value ==> ChargedAccount(a, sizes).used <= a.quota.value + largest
    ensures a.quota.value == 0 || a.used > a.quota.value ==> ChargedAccount(a, sizes) == a
  {
    if sizes != [] {
      UserOvershootsByOneFile(a, sizes[..|sizes| - 1], largest);
    }
  }

  function Total(deltas: seq<int>): int {
    if deltas == [] then 0 else Total(deltas[..|deltas| - 1]) + deltas[|deltas| - 1]
  }

  /** A bucket without a quota, zero or less, takes everything it is asked to. */
  lemma {:induction false} NoBucketQuotaTakesAll(b: Bucket, deltas: seq<int>)
    requires b.quota <= 0
    ensures ChargedBucket(b, deltas) == b.(used := b.used + Total(deltas))
  {
    if deltas != [] {
      NoBucketQuotaTakesAll(b, deltas[..|deltas| - 1]);
    }
  }

  /** A user without a quota takes everything too. */
  lemma {:induction false} NoUserQuotaTakesAll(a: Account, sizes: seq<nat>)
    requires a.quota.None?
    ensures ChargedAccount(a, sizes) == a.(used := a.used + Total(sizes))
  {
    if sizes != [] {
      NoUserQuotaTakesAll(a, sizes[..|sizes| - 1]);
    }
  }

  /** And one within a limit that is not zero takes the next file, whatever its size. */
  lemma WithinLimitTakesNext(a: Account, size: nat)
    requires a.quota.Some?
    ensures ChargedAccount(a, [size]) == if a.quota.value != 0 && a.used <= a.quota.value then a.(used := a.used + size) else a
  {
    assert [size][..0] == [];
  }

  // ----- several purges in a row -----

  lemma SumOfUnion(files: Files, a: set<nat>, b: set<nat>, w: Weight)
    ensures SumOf(files, a + b, w) == SumOf(files, a, w) + SumOf(files - a, b, w)
  {
    var both := Restrict(files, a + b);
    SumSplit(both, a, w);
    assert Restrict(both, a) == Restrict(files, a);
    assert both - a == Restrict(files - a, b);
  }

  lemma RefundTwice(buckets: map<nat, Bucket>, b: nat, m: nat, n: nat)
    ensures Refund(Refund(buckets, b, m), b, n) == Refund(buckets, b, m + n)
  {
  }

  function MergedSizes(a: map<nat, nat>, b: map<nat, nat>): map<nat, nat> {
    map u | u in a.Keys + b.Keys :: (if u in a then a[u] else 0) + if u in b then b[u] else 0
  }

  lemma RefundOwnersTwice(users: map<nat, Account>, a: map<nat, nat>, b: map<nat, nat>)
    ensures RefundOwners(RefundOwners(users, a), b) == RefundOwners(users, MergedSizes(a, b))
  {
  }

  lemma SizesOfUnion(files: Files, a: set<nat>, b: set<nat>, sizesA: map<nat, nat>, sizesB: map<nat, nat>)
    requires SizesByOwner(files, a, sizesA) && SizesByOwner(files - a, b, sizesB)
    ensures SizesByOwner(files, a + b, MergedSizes(sizesA, sizesB))
  {
    forall u: nat ensures SumOf(files, a + b, OwnedBy(u)) == SumOf(files, a, OwnedBy(u)) + SumOf(files - a, b, OwnedBy(u)) {
      SumOfUnion(files, a, b, OwnedBy(u));
    }
  }

  /** One file gives its size back to its bucket and its owner. */
  lemma SumOfOne(files: Files, x: nat, w: Weight)
    requires x in files
    ensures SumOf(files, {x}, w) == w(files[x])
  {
    SumOfNone(files, w);
    SumOfMore(files, {}, x, w);
    assert {} + {x} == {x};
  }

  lemma OneOwner(files: Files, users: map<nat, Account>, x: nat, sizes: map<nat, nat>)
    requires x in files && SizesByOwner(files, {x}, sizes)
    ensures RefundOwners(users, sizes) == RefundOwners(users, map[files[x].owner := files[x].size])
  {
    forall u: nat ensures SumOf(files, {x}, OwnedBy(u)) == OwnedBy(u)(files[x]) {
      SumOfOne(files, x, OwnedBy(u));
    }
  }
}

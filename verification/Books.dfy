/** The operations that change the files table and keep the books: uploads, copies,
    recycling, purging whole subtrees, and the write-back over SMB. */
module Books {
  import opened Wrappers
  import opened Rows
  import opened FolderForest
  import opened FolderTree
  import opened Accounts
  import opened Batches

  datatype Quota = Allowed | Exceeded | Unknown

  datatype Result = Done(id: nat) | Rejected

  /** How closing a handle ends. */
  datatype CloseOutcome = Closed | Refused(why: Quota) | NotStored

  /** Which of the later steps of an upload or copy fail. */
  datatype Faults = Faults(put: bool, finalize: bool)

  /** Rows and objects after a close: `accepted` and `stored` say how the quota check and
      the upload of a changed file end. */
  datatype Holdings = Holdings(files: Files, objects: set<nat>)

  function AfterClose(files: Files, objects: set<nat>, x: nat, size: nat, dirty: bool, accepted: bool, stored: bool): Holdings {
    if dirty && !accepted then
      if Live(files, x) && files[x].size == 0 then Holdings(files - {x}, objects - {x}) else Holdings(files, objects)
    else if dirty && !stored then Holdings(files, objects)
    else
      Holdings(if Live(files, x) then files[x := files[x].(size := size)] else files, if dirty then objects + {x} else objects)
  }

  class Ledger {
    var folders: Folders
    var files: Files
    var objects: set<nat>
    var buckets: map<nat, Bucket>
    var users: map<nat, Account>
    var nextFile: nat

    ghost predicate Fresh()
      reads this`files, this`objects, this`nextFile
    {
      (forall x | x in files :: x < nextFile) && (forall x | x in objects :: x < nextFile)
    }

    /** Counters are right: per bucket always, per user as long as only owners grow and
        shrink their files. */
    ghost predicate BucketsRight()
      reads this`files, this`buckets
    {
      Conserved(files, buckets)
    }

    ghost predicate UsersRight()
      reads this`files, this`users
    {
      UsersExact(files, users)
    }

    /** Both quotas let `user` add `size` bytes to the bucket. */
    ghost predicate QuotasAllow(bucket: nat, user: nat, size: nat)
      reads this`buckets, this`users
    {
      bucket in buckets && BucketAllows(buckets[bucket], size) && user in users && UserAllows(users[user])
    }

    method CheckBucketQuota(b: nat, delta: int) returns (q: Quota)
      ensures q.Allowed? <==> delta <= 0 || (b in buckets && BucketAllows(buckets[b], delta))
      ensures q.Unknown? <==> delta > 0 && b !in buckets
    {
      if delta <= 0 {
        return Allowed;
      }
      if b !in buckets {
        return Unknown;
      }
      if buckets[b].quota <= 0 {
        return Allowed;
      }
      q := if buckets[b].used + delta > buckets[b].quota then Exceeded else Allowed;
    }

    /** A soft limit: one write may cross it, the next is refused. */
    method CheckUserQuota(u: nat) returns (q: Quota)
      ensures q.Allowed? <==> u in users && UserAllows(users[u])
      ensures q.Unknown? <==> u !in users
    {
      if u !in users {
        return Unknown;
      }
      match users[u].quota {
        case None => q := Allowed;
        case Some(limit) => q := if limit == 0 || users[u].used > limit then Exceeded else Allowed;
      }
    }

    /** Row, object, counters, in this order; a step that fails takes back the steps
        before it. */
    method AddFile(row: FileRow, faults: Faults) returns (r: Result)
      requires Fresh() && row.bucket in buckets && row.owner in users
      modifies this`files, this`objects, this`buckets, this`users, this`nextFile
      ensures Fresh() && r == (if faults.put || faults.finalize then Rejected else Done(old(nextFile)))
      ensures r.Rejected? ==> files == old(files) && objects == old(objects) && buckets == old(buckets) && users == old(users)
      ensures r.Done? ==>
                && r.id !in old(files) && files == old(files)[r.id := row] && objects == old(objects) + {r.id}
                && buckets == Charge(old(buckets), row.bucket, row.size) && users == ChargeUser(old(users), row.owner, row.size)
      ensures old(BucketsRight()) ==> BucketsRight()
      ensures old(UsersRight()) ==> UsersRight()
    {
      hide Conserved, UsersExact;
      var id := nextFile;
      files, nextFile := files[id := row], nextFile + 1;
      if faults.put {
        files := files - {id};
        assert files == old(files);
        return Rejected;
      }
      objects := objects + {id};
      if faults.finalize {
        objects := objects - {id};
        files := files - {id};
        assert files == old(files) && objects == old(objects);
        return Rejected;
      }
      if old(BucketsRight()) {
        AddConserves(old(files), buckets, id, row);
      }
      if old(UsersRight()) {
        AddKeepsUsers(old(files), users, id, row);
      }
      buckets := buckets[row.bucket := buckets[row.bucket].(used := buckets[row.bucket].used + row.size)];
      users := ChargeUser(users, row.owner, row.size);
      return Done(id);
    }

    method Upload(user: nat, bucket: nat, folder: nat, name: string, size: nat, faults: Faults) returns (r: Result)
      requires Fresh()
      modifies this`files, this`objects, this`buckets, this`users, this`nextFile
      ensures Fresh()
      ensures r.Rejected? ==> files == old(files) && objects == old(objects) && buckets == old(buckets) && users == old(users)
      ensures r.Done? ==>
                && r.id !in old(files) && objects == old(objects) + {r.id}
                && files == old(files)[r.id := FileRow(bucket, folder, name, size, user, Unrestricted, false)]
      ensures r.Done? <==> old(QuotasAllow(bucket, user, size)) && !faults.put && !faults.finalize
      ensures r.Done? ==> buckets == Charge(old(buckets), bucket, size) && users == ChargeUser(old(users), user, size)
      ensures old(BucketsRight()) ==> BucketsRight()
      ensures old(UsersRight()) ==> UsersRight()
    {
      var q := CheckBucketQuota(bucket, size);
      if q != Allowed || bucket !in buckets {
        return Rejected;
      }
      q := CheckUserQuota(user);
      if q != Allowed {
        return Rejected;
      }
      r := AddFile(FileRow(bucket, folder, name, size, user, Unrestricted, false), faults);
    }

    /** The copy belongs to the copying user and keeps the source's visibility; a source
        without an object fails after the row was made. */
    method CopyFile(user: nat, x: nat, bucket: nat, folder: nat, name: string, faults: Faults) returns (r: Result)
      requires Fresh()
      modifies this`files, this`objects, this`buckets, this`users, this`nextFile
      ensures Fresh()
      ensures r.Rejected? ==> files == old(files) && objects == old(objects) && buckets == old(buckets) && users == old(users)
      ensures r.Done? ==>
                && x in old(files) && x in old(objects) && !old(files)[x].deleted && r.id !in old(files)
                && objects == old(objects) + {r.id}
                && files == old(files)[r.id := FileRow(bucket, folder, name, old(files)[x].size, user, old(files)[x].rule, false)]
                && buckets == Charge(old(buckets), bucket, old(files)[x].size) && users == ChargeUser(old(users), user, old(files)[x].size)
      ensures r.Done? <==>
                && old(Live(files, x) && QuotasAllow(bucket, user, files[x].size)) && x in old(objects)
                && !faults.put && !faults.finalize
      ensures old(BucketsRight()) ==> BucketsRight()
      ensures old(UsersRight()) ==> UsersRight()
    {
      if !(x in files && !files[x].deleted) {
        return Rejected;
      }
      var q := CheckBucketQuota(bucket, files[x].size);
      if q != Allowed || bucket !in buckets {
        return Rejected;
      }
      q := CheckUserQuota(user);
      if q != Allowed {
        return Rejected;
      }
      r := AddFile(FileRow(bucket, folder, name, files[x].size, user, files[x].rule, false), faults.(put := faults.put || x !in objects));
    }

    /** Moving inside the bucket, recycling and restoring change a row, not its bytes. */
    method Edit(x: nat, folder: nat, name: string, deleted: bool)
      requires x in files
      modifies this`files
      ensures files == old(files)[x := old(files)[x].(folder := folder, name := name, deleted := deleted)]
      ensures BucketsRight() <==> old(BucketsRight())
      ensures UsersRight() <==> old(UsersRight())
    {
      EditConserves(files, buckets, users, x, files[x].(folder := folder, name := name, deleted := deleted));
      files := files[x := files[x].(folder := folder, name := name, deleted := deleted)];
    }

    method DeleteFile(bucket: nat, x: nat) returns (ok: bool)
      modifies this`files
      ensures ok <==> x in old(files) && !old(files)[x].deleted && old(files)[x].bucket == bucket
      ensures files == if ok then old(files)[x := old(files)[x].(deleted := true)] else old(files)
      ensures BucketsRight() <==> old(BucketsRight())
      ensures UsersRight() <==> old(UsersRight())
    {
      ok := x in files && !files[x].deleted && files[x].bucket == bucket;
      if ok {
        Edit(x, files[x].folder, files[x].name, true);
      }
    }

    /** Restoring goes back to the old folder if that is still there, otherwise to the
        bucket root; `free` is a free name at the place. */
    method RestoreFile(x: nat, free: string) returns (ok: bool)
      modifies this`files
      ensures ok <==> x in old(files) && old(files)[x].deleted
      ensures !ok ==> files == old(files)
      ensures ok ==> var f := old(files)[x].folder;
                     var back := f != 0 && f in folders && !folders[f].deleted && folders[f].bucket == old(files)[x].bucket;
                     files == old(files)[x := old(files)[x].(deleted := false, name := free, folder := if back then f else 0)]
      ensures BucketsRight() <==> old(BucketsRight())
      ensures UsersRight() <==> old(UsersRight())
    {
      ok := x in files && files[x].deleted;
      if ok {
        var f := files[x].folder;
        var back := f != 0 && f in folders && !folders[f].deleted && folders[f].bucket == files[x].bucket;
        Edit(x, if back then f else 0, free, false);
      }
    }

    /** Rows of one bucket and their objects go for good; bucket and owners get the bytes
        back. */
    method Purge(bucket: nat, ids: set<nat>)
      requires forall x | x in ids :: x in files && files[x].bucket == bucket
      modifies this`files, this`objects, this`buckets, this`users
      ensures files == old(files) - ids && objects == old(objects) - ids
      ensures buckets == Refund(old(buckets), bucket, SumOf(old(files), ids, InBucket(bucket)))
      ensures exists sizes :: SizesByOwner(old(files), ids, sizes) && users == RefundOwners(old(users), sizes)
      ensures Refunded(old(files), bucket, ids, old(buckets), old(users), buckets, users)
      ensures old(BucketsRight()) ==> BucketsRight()
      ensures old(UsersRight()) ==> UsersRight()
      ensures old(UsersNonNegative(users)) ==> UsersNonNegative(users)
    {
      hide Conserved, UsersExact, SumOf, SizesByOwner, UsersNonNegative;
      var size: nat, byOwner: map<nat, nat> := SumUp(bucket, ids);
      RefundNonNegative(users, byOwner);
      if old(BucketsRight()) {
        PurgeConserves(files, buckets, bucket, ids);
      }
      if old(UsersRight()) {
        PurgeKeepsUsers(files, users, ids, byOwner);
      }
      objects := objects - ids;
      files := files - ids;
      if bucket in buckets {
        var used := buckets[bucket].used - size;
        if used < 0 {
          used := 0;
        }
        buckets := buckets[bucket := buckets[bucket].(used := used)];
      }
      RefundAll(byOwner);
    }

    /** The bytes of the rows, in all and per owner. */
    method SumUp(bucket: nat, ids: set<nat>) returns (size: nat, byOwner: map<nat, nat>)
      requires forall x | x in ids :: x in files && files[x].bucket == bucket
      ensures size == SumOf(files, ids, InBucket(bucket)) && SizesByOwner(files, ids, byOwner)
    {
      hide SumOf, SizesByOwner;
      size, byOwner := 0, map[];
      var rest := ids;
      ghost var past: set<nat> := {};
      SumOfNone(files, InBucket(bucket));
      NothingForOwners(files);
      while rest != {}
        invariant past !! rest && past + rest == ids
        invariant size == SumOf(files, past, InBucket(bucket)) && SizesByOwner(files, past, byOwner)
      {
        var x :| x in rest;
        SumOfMore(files, past, x, InBucket(bucket));
        size := size + files[x].size;
        var u := files[x].owner;
        MoreForOwner(files, past, byOwner, x);
        byOwner := byOwner[u := (if u in byOwner then byOwner[u] else 0) + files[x].size];
        past, rest := past + {x}, rest - {x};
      }
      assert past == ids;
    }

    method RefundAll(byOwner: map<nat, nat>)
      modifies this`users
      ensures users == RefundOwners(old(users), byOwner)
    {
      var rest := byOwner.Keys;
      while rest != {}
        invariant rest <= byOwner.Keys && users.Keys == old(users).Keys
        invariant forall u | u in users :: users[u] == if u in rest then old(users)[u] else RefundOwners(old(users), byOwner)[u]
      {
        var u :| u in rest;
        if u in users && byOwner[u] > 0 {
          users := users[u := users[u].(used := Clamped(users[u].used - byOwner[u]))];
        }
        rest := rest - {u};
      }
    }

    method PurgeFile(x: nat) returns (ok: bool)
      modifies this`files, this`objects, this`buckets, this`users
      ensures ok <==> x in old(files) && old(files)[x].deleted
      ensures files == (if ok then old(files) - {x} else old(files)) && objects == if ok then old(objects) - {x} else old(objects)
      ensures ok ==>
                && buckets == Refund(old(buckets), old(files)[x].bucket, old(files)[x].size)
                && users == RefundOwners(old(users), map[old(files)[x].owner := old(files)[x].size])
      ensures !ok ==> buckets == old(buckets) && users == old(users)
      ensures old(BucketsRight()) ==> BucketsRight()
      ensures old(UsersRight()) ==> UsersRight()
    {
      hide Conserved, UsersExact, SumOf, SizesByOwner, RefundOwners;
      ok := x in files && files[x].deleted;
      if ok {
        SumOfOne(files, x, InBucket(files[x].bucket));
        Purge(files[x].bucket, {x});
        ghost var sizes :| SizesByOwner(old(files), {x}, sizes) && users == RefundOwners(old(users), sizes);
        OneOwner(old(files), old(users), x, sizes);
      }
    }

    /** After a write-back: the record takes the handle's size, the bucket and the acting
        user are charged the difference. A record that is gone, or in the recycle bin, is
        left alone. */
    method SyncFileMeta(x: nat, actor: nat, size: nat)
      modifies this`files, this`buckets, this`users
      ensures Sheet(files, buckets, users) == Synced(old(Sheet(files, buckets, users)), x, actor, size)
      ensures old(BucketsRight()) ==> BucketsRight()
      ensures old(UsersRight() && Live(files, x)) && old(files)[x].owner in users && actor in users ==>
                (UsersRight() <==> size == old(files)[x].size || actor == old(files)[x].owner)
      ensures old(UsersNonNegative(users)) ==> UsersNonNegative(users)
    {
      hide Conserved, UsersExact, UsersNonNegative;
      if x in files && !files[x].deleted {
        ShiftNonNegative(users, actor, size - files[x].size);
        var delta := size - files[x].size;
        var bucket := files[x].bucket;
        if old(BucketsRight()) {
          SyncConserves(files, buckets, x, size);
        }
        if old(UsersRight()) && files[x].owner in users && actor in users {
          SyncKeepsUsersExactly(files, users, x, size, actor);
          UsersExactNonNegative(files, users);
          ShiftByZero(users, actor);
        }
        if delta != 0 {
          if bucket in buckets {
            buckets := buckets[bucket := buckets[bucket].(used := buckets[bucket].used + delta)];
          }
          users := ShiftUser(users, actor, delta);
        }
        files := files[x := files[x].(size := size)];
      }
    }

    /** Closing a written handle over quota drops the record if it is still empty. */
    method DropGhost(x: nat) returns (dropped: bool)
      modifies this`files, this`objects
      ensures dropped <==> x in old(files) && !old(files)[x].deleted && old(files)[x].size == 0
      ensures files == (if dropped then old(files) - {x} else old(files)) && objects == if dropped then old(objects) - {x} else old(objects)
      ensures BucketsRight() <==> old(BucketsRight())
      ensures UsersRight() <==> old(UsersRight())
    {
      dropped := x in files && !files[x].deleted && files[x].size == 0;
      if dropped {
        EmptyRow(files, buckets, users, x);
        files, objects := files - {x}, objects - {x};
      }
    }

    /** The record is live, and it does not grow or both quotas let it grow. */
    ghost predicate WriteAllowed(x: nat, actor: nat, size: nat)
      reads this`files, this`buckets, this`users
    {
      Live(files, x) && (size <= files[x].size || QuotasAllow(files[x].bucket, actor, size - files[x].size))
    }

    /** The quota check before a write-back: only growth is checked, the bucket first. */
    method CheckWriteQuota(x: nat, actor: nat, size: nat) returns (q: Quota)
      ensures q.Allowed? <==> WriteAllowed(x, actor, size)
    {
      if !(x in files && !files[x].deleted) {
        return Unknown;
      }
      var delta := size - files[x].size;
      if delta <= 0 {
        return Allowed;
      }
      q := CheckBucketQuota(files[x].bucket, delta);
      if q == Allowed {
        q := CheckUserQuota(actor);
      }
    }

    /** Closing a handle of the size `size`: a dirty one is flushed if the quotas allow it
        (`stored` says whether the object store took it), and only then are record and
        counters brought up to date; one refused by the quota may leave an empty record,
        which goes with its object. */
    method Close(x: nat, actor: nat, size: nat, dirty: bool, stored: bool) returns (r: CloseOutcome)
      modifies this`files, this`objects, this`buckets, this`users
      ensures r.Refused? <==> dirty && !old(WriteAllowed(x, actor, size))
      ensures r.NotStored? <==> dirty && old(WriteAllowed(x, actor, size)) && !stored
      ensures r.Refused? ==>
                && buckets == old(buckets) && users == old(users)
                && if old(Live(files, x) && files[x].size == 0) then files == old(files) - {x} && objects == old(objects) - {x}
                   else files == old(files) && objects == old(objects)
      ensures r.NotStored? ==> files == old(files) && objects == old(objects) && buckets == old(buckets) && users == old(users)
      ensures r.Closed? ==>
                && Sheet(files, buckets, users) == Synced(old(Sheet(files, buckets, users)), x, actor, size)
                && objects == if dirty then old(objects) + {x} else old(objects)
      ensures Holdings(files, objects) == AfterClose(old(files), old(objects), x, size, dirty, old(WriteAllowed(x, actor, size)), stored)
      ensures old(BucketsRight()) ==> BucketsRight()
      ensures old(UsersNonNegative(users)) ==> UsersNonNegative(users)
    {
      hide Conserved, UsersExact, UsersNonNegative;
      if dirty {
        var q := CheckWriteQuota(x, actor, size);
        if q != Allowed {
          var dropped := DropGhost(x);
          return Refused(q);
        }
        if !stored {
          return NotStored;
        }
        objects := objects + {x};
      }
      SyncFileMeta(x, actor, size);
      return Closed;
    }

    // ----- purging a folder with everything in it -----

    /** One folder of a purged subtree: its files in one transaction with its own row. */
    method PurgeFolder(bucket: nat, fid: nat)
      modifies this`folders, this`files, this`objects, this`buckets, this`users
      ensures folders == old(folders) - {fid}
      ensures files == old(files) - FilesIn(old(files), bucket, fid) && objects == old(objects) - FilesIn(old(files), bucket, fid)
      ensures Refunded(old(files), bucket, FilesIn(old(files), bucket, fid), old(buckets), old(users), buckets, users)
      ensures old(BucketsRight()) ==> BucketsRight()
      ensures old(UsersRight()) ==> UsersRight()
      ensures old(UsersNonNegative(users)) ==> UsersNonNegative(users)
    {
      var ids := FilesIn(files, bucket, fid);
      Purge(bucket, ids);
      folders := folders - {fid};
    }

    /** Child rows of a folder, recycled ones included. */
    method AllChildren(bucket: nat, fid: nat) returns (ids: seq<nat>)
      ensures forall c :: c in ids <==> c in ChildrenIn(folders, bucket, fid)
      ensures forall c :: c in ids <==> c in folders && folders[c].bucket == bucket && folders[c].parent == fid
      ensures forall i, j | 0 <= i < j < |ids| :: ids[i] != ids[j]
    {
      ids := AllIds(ChildrenIn(folders, bucket, fid));
    }

    /** The whole subtree of a recycled folder goes, row by row and file by file, and
        nothing else does. */
    method PurgeSubtree(bucket: nat, root: nat)
      requires Forest(folders) && SameBucket(folders) && root in folders && folders[root].bucket == bucket
      modifies this`folders, this`files, this`objects, this`buckets, this`users
      ensures folders == old(folders) - Subtree(old(folders), root)
      ensures files == old(files) - FilesUnder(old(files), bucket, Subtree(old(folders), root))
      ensures objects == old(objects) - FilesUnder(old(files), bucket, Subtree(old(folders), root))
      ensures Refunded(old(files), bucket, FilesUnder(old(files), bucket, Subtree(old(folders), root)), old(buckets), old(users), buckets, users)
      ensures Forest(folders)
      ensures old(BucketsRight()) ==> BucketsRight()
      ensures old(UsersRight()) ==> UsersRight()
    {
      hide PurgedSoFar, Refunded, Conserved, UsersExact, UsersNonNegative, Forest, InOrBelow, SameBucket, PurgePlan, FilesUnder, FilesIn, Subtree;
      ghost var fs := folders;
      var stack: seq<nat> := [root];
      ghost var gone: set<nat> := {};
      StartPurge(fs, root);
      NothingPurged(files, objects, buckets, users, bucket);
      while |stack| > 0
        invariant folders == fs - gone && PurgePlan(fs, root, stack, gone) && gone <= fs.Keys
        invariant PurgedSoFar(old(files), old(objects), old(buckets), old(users), bucket, gone, files, objects, buckets, users)
        invariant old(BucketsRight()) ==> BucketsRight()
        invariant old(UsersRight()) ==> UsersRight()
        decreases |fs.Keys - gone|
      {
        var fid := stack[|stack| - 1];
        var ids := AllChildren(bucket, fid);
        ghost var was, wereObjects, wereBuckets, wereUsers := files, objects, buckets, users;
        PurgeStep(fs, root, stack, gone, bucket, ids);
        stack := stack[..|stack| - 1] + ids;
        PurgeFolder(bucket, fid);
        PurgedMore(old(files), old(objects), old(buckets), old(users), bucket, gone, fid,
                   was, wereObjects, wereBuckets, wereUsers, files, objects, buckets, users);
        RowsLeft(fs, gone, fid);
        gone := gone + {fid};
      }
      PurgeEnd(fs, root, gone);
      SomethingPurged(old(files), old(objects), old(buckets), old(users), bucket, gone, files, objects, buckets, users);
    }
  }

  /** The bytes of the purged rows went back to the bucket and, grouped, to the owners. */
  ghost predicate Refunded(files: Files, bucket: nat, ids: set<nat>, buckets: map<nat, Bucket>, users: map<nat, Account>,
                           buckets1: map<nat, Bucket>, users1: map<nat, Account>) {
    && buckets1 == Refund(buckets, bucket, SumOf(files, ids, InBucket(bucket)))
    && exists sizes :: SizesByOwner(files, ids, sizes) && users1 == RefundOwners(users, sizes)
  }

  /** Counter by counter: the bucket's falls by the bytes of the purged rows, each user's by
      the bytes of the user's own ones, none below zero, and no other moves. */
  lemma RefundedExactly(files: Files, bucket: nat, ids: set<nat>, buckets: map<nat, Bucket>, users: map<nat, Account>,
                        buckets1: map<nat, Bucket>, users1: map<nat, Account>)
    requires Refunded(files, bucket, ids, buckets, users, buckets1, users1)
    ensures buckets1.Keys == buckets.Keys && users1.Keys == users.Keys
    ensures forall c | c in buckets && c != bucket :: buckets1[c] == buckets[c]
    ensures bucket in buckets ==>
              buckets1[bucket] == buckets[bucket].(used := FallsBy(buckets[bucket].used, SumOf(files, ids, InBucket(bucket))))
    ensures forall u | u in users && SumOf(files, ids, OwnedBy(u)) > 0 ::
              users1[u] == users[u].(used := FallsBy(users[u].used, SumOf(files, ids, OwnedBy(u))))
    ensures forall u | u in users && SumOf(files, ids, OwnedBy(u)) == 0 :: users1[u] == users[u]
  {
    hide SumOf;
    var sizes :| SizesByOwner(files, ids, sizes) && users1 == RefundOwners(users, sizes);
  }

  function FallsBy(used: int, n: nat): (r: int)
    ensures used <= n ==> r == 0
    ensures used >= n ==> r == used - n
  {
    if used < n then 0 else used - n
  }

  /** Two purges in a row return what one purge of both would. */
  lemma RefundedTwice(files: Files, bucket: nat, a: set<nat>, b: set<nat>, buckets: map<nat, Bucket>, users: map<nat, Account>,
                      buckets1: map<nat, Bucket>, users1: map<nat, Account>, buckets2: map<nat, Bucket>, users2: map<nat, Account>)
    requires Refunded(files, bucket, a, buckets, users, buckets1, users1)
    requires Refunded(files - a, bucket, b, buckets1, users1, buckets2, users2)
    ensures Refunded(files, bucket, a + b, buckets, users, buckets2, users2)
  {
    hide SumOf, SizesByOwner, RefundOwners, Refund, MergedSizes;
    SumOfUnion(files, a, b, InBucket(bucket));
    RefundTwice(buckets, bucket, SumOf(files, a, InBucket(bucket)), SumOf(files - a, b, InBucket(bucket)));
    var sizes :| SizesByOwner(files, a, sizes) && users1 == RefundOwners(users, sizes);
    var more :| SizesByOwner(files - a, b, more) && users2 == RefundOwners(users1, more);
    SizesOfUnion(files, a, b, sizes, more);
    RefundOwnersTwice(users, sizes, more);
  }

  lemma RefundedMore(all: Files, some: Files, bucket: nat, gone: set<nat>, fid: nat, buckets: map<nat, Bucket>, users: map<nat, Account>,
                     buckets1: map<nat, Bucket>, users1: map<nat, Account>, buckets2: map<nat, Bucket>, users2: map<nat, Account>)
    requires some == all - FilesUnder(all, bucket, gone)
    requires if gone == {} then buckets1 == buckets && users1 == users
             else Refunded(all, bucket, FilesUnder(all, bucket, gone), buckets, users, buckets1, users1)
    requires Refunded(some, bucket, FilesIn(some, bucket, fid), buckets1, users1, buckets2, users2)
    ensures Refunded(all, bucket, FilesUnder(all, bucket, gone + {fid}), buckets, users, buckets2, users2)
  {
    hide Refunded;
    FilesUnderMore(all, bucket, gone, fid);
    if gone == {} {
      assert FilesUnder(all, bucket, gone) == {} && some == all;
      assert FilesUnder(all, bucket, gone + {fid}) == FilesIn(some, bucket, fid);
    } else {
      RefundedTwice(all, bucket, FilesUnder(all, bucket, gone), FilesIn(some, bucket, fid), buckets, users, buckets1, users1, buckets2, users2);
    }
  }

  /** How far a purge is: the files under the purged folders are gone and paid back. */
  ghost predicate PurgedSoFar(files: Files, objects: set<nat>, buckets: map<nat, Bucket>, users: map<nat, Account>, bucket: nat, gone: set<nat>,
                              files1: Files, objects1: set<nat>, buckets1: map<nat, Bucket>, users1: map<nat, Account>) {
    && files1 == files - FilesUnder(files, bucket, gone) && objects1 == objects - FilesUnder(files, bucket, gone)
    && if gone == {} then buckets1 == buckets && users1 == users
       else Refunded(files, bucket, FilesUnder(files, bucket, gone), buckets, users, buckets1, users1)
  }

  lemma NothingPurged(files: Files, objects: set<nat>, buckets: map<nat, Bucket>, users: map<nat, Account>, bucket: nat)
    ensures PurgedSoFar(files, objects, buckets, users, bucket, {}, files, objects, buckets, users)
  {
    assert FilesUnder(files, bucket, {}) == {};
    assert files - {} == files && objects - {} == objects;
  }

  lemma SomethingPurged(files: Files, objects: set<nat>, buckets: map<nat, Bucket>, users: map<nat, Account>, bucket: nat, gone: set<nat>,
                        files1: Files, objects1: set<nat>, buckets1: map<nat, Bucket>, users1: map<nat, Account>)
    requires PurgedSoFar(files, objects, buckets, users, bucket, gone, files1, objects1, buckets1, users1) && gone != {}
    ensures files1 == files - FilesUnder(files, bucket, gone) && objects1 == objects - FilesUnder(files, bucket, gone)
    ensures Refunded(files, bucket, FilesUnder(files, bucket, gone), buckets, users, buckets1, users1)
  {
  }

  lemma PurgedMore(files: Files, objects: set<nat>, buckets: map<nat, Bucket>, users: map<nat, Account>, bucket: nat, gone: set<nat>, fid: nat,
                   files1: Files, objects1: set<nat>, buckets1: map<nat, Bucket>, users1: map<nat, Account>,
                   files2: Files, objects2: set<nat>, buckets2: map<nat, Bucket>, users2: map<nat, Account>)
    requires PurgedSoFar(files, objects, buckets, users, bucket, gone, files1, objects1, buckets1, users1)
    requires files2 == files1 - FilesIn(files1, bucket, fid) && objects2 == objects1 - FilesIn(files1, bucket, fid)
    requires Refunded(files1, bucket, FilesIn(files1, bucket, fid), buckets1, users1, buckets2, users2)
    ensures PurgedSoFar(files, objects, buckets, users, bucket, gone + {fid}, files2, objects2, buckets2, users2)
  {
    hide Refunded, FilesUnder, FilesIn;
    MinusMore(files, files1, objects, bucket, gone, fid);
    RefundedMore(files, files1, bucket, gone, fid, buckets, users, buckets1, users1, buckets2, users2);
    assert fid in gone + {fid};
  }

  lemma RowsLeft(fs: Folders, gone: set<nat>, fid: nat)
    requires fid in fs && fid !in gone
    ensures |fs.Keys - (gone + {fid})| < |fs.Keys - gone|
    ensures fs - gone - {fid} == fs - (gone + {fid})
  {
    assert fs.Keys - gone == (fs.Keys - (gone + {fid})) + {fid};
  }

  lemma MinusMore(all: Files, some: Files, objects: set<nat>, bucket: nat, gone: set<nat>, fid: nat)
    requires some == all - FilesUnder(all, bucket, gone)
    ensures some - FilesIn(some, bucket, fid) == all - FilesUnder(all, bucket, gone + {fid})
    ensures objects - FilesUnder(all, bucket, gone) - FilesIn(some, bucket, fid) == objects - FilesUnder(all, bucket, gone + {fid})
  {
    FilesUnderMore(all, bucket, gone, fid);
  }

  function FilesIn(files: Files, bucket: nat, fid: nat): set<nat> {
    set x | x in files && files[x].bucket == bucket && files[x].folder == fid
  }

  function FilesUnder(files: Files, bucket: nat, fids: set<nat>): set<nat> {
    set x | x in files && files[x].bucket == bucket && files[x].folder in fids
  }

  function ChildrenIn(fs: Folders, bucket: nat, fid: nat): set<nat> {
    set c | c in fs && fs[c].bucket == bucket && fs[c].parent == fid
  }

  /** The files that go with a subtree: those of the bucket in the root or in a folder
      below it. */
  lemma SubtreeFilesExactly(fs: Folders, files: Files, bucket: nat, root: nat, x: nat)
    ensures x in FilesUnder(files, bucket, Subtree(fs, root))
            <==> x in files && files[x].bucket == bucket && files[x].folder in fs && InOrBelow(fs, files[x].folder, root)
    ensures forall f :: f in Subtree(fs, root) <==> f in fs && InOrBelow(fs, f, root)
  {
  }

  ghost function Subtree(fs: Folders, root: nat): set<nat> {
    set f | f in fs && InOrBelow(fs, f, root)
  }

  /** A folder and the folder it lies in belong to one bucket. */
  ghost predicate SameBucket(fs: Folders) {
    forall f | f in fs :: BucketOfParent(fs, f)
  }

  ghost predicate BucketOfParent(fs: Folders, f: nat)
    requires f in fs
  {
    fs[f].parent in fs ==> fs[f].bucket == fs[fs[f].parent].bucket
  }

  lemma FilesUnderMore(files: Files, bucket: nat, gone: set<nat>, fid: nat)
    ensures var left := files - FilesUnder(files, bucket, gone);
            FilesUnder(files, bucket, gone + {fid}) == FilesUnder(files, bucket, gone) + FilesIn(left, bucket, fid)
  {
  }

  /** What the purge still has to do: everything left of the subtree lies in or below a
      folder on the stack. */
  ghost predicate PurgePlan(fs: Folders, root: nat, stack: seq<nat>, gone: set<nat>) {
    && (forall i | 0 <= i < |stack| :: Pending(fs, root, gone, stack[i]))
    && (forall i, j | 0 <= i < j < |stack| :: stack[i] != stack[j])
    && (root in gone || stack == [root])
    && (forall f {:trigger Purged(fs, root, gone, f)} | f in gone :: Purged(fs, root, gone, f))
    && (forall f | f in fs && InOrBelow(fs, f, root) :: f in gone || Above(fs, stack, f))
  }

  ghost predicate Purged(fs: Folders, root: nat, gone: set<nat>, f: nat) {
    f in fs && InOrBelow(fs, f, root) && (f == root || fs[f].parent in gone)
  }

  ghost predicate Pending(fs: Folders, root: nat, gone: set<nat>, f: nat) {
    Purged(fs, root, gone, f) && f !in gone && root in fs && fs[f].bucket == fs[root].bucket
  }

  ghost predicate Above(fs: Folders, stack: seq<nat>, f: nat) {
    exists i :: 0 <= i < |stack| && InOrBelow(fs, f, stack[i])
  }

  lemma StartPurge(fs: Folders, root: nat)
    requires Forest(fs) && root in fs
    ensures PurgePlan(fs, root, [root], {})
    ensures forall files: Files, bucket :: FilesUnder(files, bucket, {}) == {}
    ensures fs - {} == fs
    ensures forall files: Files :: files - {} == files
  {
    BelowStep(fs, root, root);
    forall f | f in fs && InOrBelow(fs, f, root) ensures Above(fs, [root], f) {
      assert [root][0] == root;
    }
  }

  /** Below a folder means the folder itself or below one of its children. */
  lemma {:induction false} BelowChild(fs: Folders, f: nat, a: nat) returns (c: nat)
    requires Forest(fs) && f in fs && a in fs && InOrBelow(fs, f, a) && f != a
    ensures c in fs && fs[c].parent == a && InOrBelow(fs, f, c)
    decreases Depth(fs, f)
  {
    BelowStep(fs, f, a);
    DepthDown(fs, f);
    BelowRootFree(fs, fs[f].parent, a);
    if fs[f].parent == a {
      c := f;
      BelowStep(fs, f, f);
    } else {
      c := BelowChild(fs, fs[f].parent, a);
      BelowStep(fs, f, c);
    }
  }

  lemma BelowRootFree(fs: Folders, f: nat, a: nat)
    requires Forest(fs) && InOrBelow(fs, f, a) && a in fs
    ensures f != 0 && f in fs
  {
    if f == 0 {
      BelowRoot(fs, a);
    } else {
      var chain :| IsChain(fs, chain, f) && a in chain;
      if |chain| > 1 {
        ChainTail(fs, chain, f);
      }
    }
  }

  /** A child of a folder in the subtree is in the subtree, of the same bucket, new to the
      purge, and not its own parent. */
  lemma ChildPending(fs: Folders, root: nat, gone: set<nat>, fid: nat, c: nat)
    requires Forest(fs) && SameBucket(fs) && Pending(fs, root, gone, fid) && c in fs && fs[c].parent == fid
    requires forall f | f in gone :: Purged(fs, root, gone, f)
    requires root in gone || fid == root
    ensures c != fid && c != root && c !in gone && InOrBelow(fs, c, root) && fs[c].bucket == fs[fid].bucket
  {
    DepthDown(fs, c);
    BelowStep(fs, c, root);
    assert c in gone ==> Purged(fs, root, gone, c);
    if c == root {
      RootNotBelow(fs, fid, root);
    }
  }

  lemma {:induction false} RootNotBelow(fs: Folders, f: nat, root: nat)
    requires Forest(fs) && f in fs && root in fs && InOrBelow(fs, f, root)
    ensures Depth(fs, f) >= Depth(fs, root)
    decreases Depth(fs, f)
  {
    if f != root {
      BelowStep(fs, f, root);
      DepthDown(fs, f);
      BelowRootFree(fs, fs[f].parent, root);
      RootNotBelow(fs, fs[f].parent, root);
    }
  }

  lemma PurgeFrames(fs: Folders, root: nat, stack: seq<nat>, gone: set<nat>, ids: seq<nat>)
    requires Forest(fs) && SameBucket(fs) && PurgePlan(fs, root, stack, gone) && |stack| > 0
    requires forall c :: c in ids <==> c in fs && fs[c].parent == stack[|stack| - 1]
    requires forall i, j | 0 <= i < j < |ids| :: ids[i] != ids[j]
    ensures var fid, after := stack[|stack| - 1], stack[..|stack| - 1] + ids;
            && (forall i | 0 <= i < |after| :: Pending(fs, root, gone + {fid}, after[i]))
            && (forall i, j | 0 <= i < j < |after| :: after[i] != after[j])
  {
    hide Forest, InOrBelow, Above;
    var n := |stack| - 1;
    var fid, after := stack[n], stack[..n] + ids;
    assert Pending(fs, root, gone, fid);
    forall i | 0 <= i < |ids| ensures Pending(fs, root, gone + {fid}, ids[i]) && fs[ids[i]].parent == fid && ids[i] != root {
      assert ids[i] in ids;
      ChildPending(fs, root, gone, fid, ids[i]);
    }
    forall i | 0 <= i < n ensures Pending(fs, root, gone + {fid}, stack[i]) && (stack[i] == root || fs[stack[i]].parent != fid) {
      assert Pending(fs, root, gone, stack[i]);
    }
    forall i, j | 0 <= i < j < |after| ensures after[i] != after[j] {
      if i < n <= j {
        assert after[j] == ids[j - n];
      }
    }
  }

  lemma PendingRow(fs: Folders, root: nat, gone: set<nat>, f: nat)
    requires Pending(fs, root, gone, f)
    ensures f in fs && f !in gone
  {
  }

  lemma PurgeCovers(fs: Folders, root: nat, stack: seq<nat>, gone: set<nat>, ids: seq<nat>, f: nat)
    requires Forest(fs) && PurgePlan(fs, root, stack, gone) && |stack| > 0
    requires forall c :: c in ids <==> c in fs && fs[c].parent == stack[|stack| - 1]
    requires f in fs && InOrBelow(fs, f, root)
    ensures f in gone || f == stack[|stack| - 1] || Above(fs, stack[..|stack| - 1] + ids, f)
  {
    hide Forest, InOrBelow, SameBucket, Purged;
    var n := |stack| - 1;
    var after := stack[..n] + ids;
    if f !in gone && f != stack[n] {
      var i :| 0 <= i < |stack| && InOrBelow(fs, f, stack[i]);
      if i < n {
        assert after[i] == stack[i];
      } else {
        assert Pending(fs, root, gone, stack[n]);
        PendingRow(fs, root, gone, stack[n]);
        var c := BelowChild(fs, f, stack[n]);
        assert c in ids;
        var k :| 0 <= k < |ids| && ids[k] == c;
        assert after[n + k] == c;
      }
    }
  }

  /** The top folder is purged, its children take its place. */
  lemma PurgeStep(fs: Folders, root: nat, stack: seq<nat>, gone: set<nat>, bucket: nat, ids: seq<nat>)
    requires Forest(fs) && SameBucket(fs) && PurgePlan(fs, root, stack, gone) && |stack| > 0
    requires root in fs && fs[root].bucket == bucket
    requires forall c :: c in ids <==> c in ChildrenIn(fs - gone, bucket, stack[|stack| - 1])
    requires forall i, j | 0 <= i < j < |ids| :: ids[i] != ids[j]
    ensures var fid := stack[|stack| - 1];
            && fid in fs && fid !in gone
            && PurgePlan(fs, root, stack[..|stack| - 1] + ids, gone + {fid})
  {
    hide Forest, InOrBelow, Above;
    var fid, after := stack[|stack| - 1], stack[..|stack| - 1] + ids;
    assert Pending(fs, root, gone, fid);
    forall c ensures c in ids <==> c in fs && fs[c].parent == fid {
      if c in fs && fs[c].parent == fid {
        ChildPending(fs, root, gone, fid, c);
      }
    }
    PurgeFrames(fs, root, stack, gone, ids);
    forall f | f in gone + {fid} ensures Purged(fs, root, gone + {fid}, f) {
      assert f in gone ==> Purged(fs, root, gone, f);
    }
    forall f | f in fs && InOrBelow(fs, f, root) ensures f in gone + {fid} || Above(fs, after, f) {
      PurgeCovers(fs, root, stack, gone, ids, f);
    }
  }

  lemma {:induction false} StillGrounded(fs: Folders, root: nat, f: nat) returns (chain: seq<nat>)
    requires Forest(fs) && root in fs && f in fs && !InOrBelow(fs, f, root)
    ensures IsChain(fs - Subtree(fs, root), chain, f)
    decreases Depth(fs, f)
  {
    var gs := fs - Subtree(fs, root);
    BelowStep(fs, f, root);
    DepthDown(fs, f);
    if fs[f].parent == 0 {
      RootGrounded(gs);
      ChainUp(gs, f, [0]);
      chain := [f] + [0];
    } else {
      AllUpStep(fs, f, LiveIn(0));
      var up := StillGrounded(fs, root, fs[f].parent);
      ChainUp(gs, f, up);
      chain := [f] + up;
    }
  }

  lemma PurgeEnd(fs: Folders, root: nat, gone: set<nat>)
    requires Forest(fs) && root in fs && PurgePlan(fs, root, [], gone)
    ensures root in gone && gone == Subtree(fs, root) && Forest(fs - gone)
  {
    forall f | f in gone ensures f in Subtree(fs, root) {
      assert Purged(fs, root, gone, f);
    }
    forall f | f in Subtree(fs, root) ensures f in gone {
      assert f in gone || Above(fs, [], f);
    }
    assert gone == Subtree(fs, root);
    forall f | f in fs && f !in gone ensures Grounded(fs - gone, f) {
      var chain := StillGrounded(fs, root, f);
    }
  }

  lemma UsersExactNonNegative(files: Files, users: map<nat, Account>)
    requires UsersExact(files, users)
    ensures UsersNonNegative(users)
  {
  }

  lemma NothingForOwners(files: Files)
    ensures SizesByOwner(files, {}, map[])
  {
    forall u: nat ensures SumOf(files, {}, OwnedBy(u)) == 0 {
      SumOfNone(files, OwnedBy(u));
    }
  }

  lemma MoreForOwner(files: Files, past: set<nat>, sizes: map<nat, nat>, x: nat)
    requires x in files && x !in past && SizesByOwner(files, past, sizes)
    ensures var u := files[x].owner;
            SizesByOwner(files, past + {x}, sizes[u := (if u in sizes then sizes[u] else 0) + files[x].size])
  {
    forall u: nat ensures SumOf(files, past + {x}, OwnedBy(u)) == SumOf(files, past, OwnedBy(u)) + OwnedBy(u)(files[x]) {
      SumOfMore(files, past, x, OwnedBy(u));
    }
  }

  lemma RefundNonNegative(users: map<nat, Account>, sizes: map<nat, nat>)
    ensures UsersNonNegative(users) ==> UsersNonNegative(RefundOwners(users, sizes))
  {
  }

  lemma ShiftNonNegative(users: map<nat, Account>, u: nat, delta: int)
    ensures UsersNonNegative(users) ==> UsersNonNegative(ShiftUser(users, u, delta))
  {
  }

  lemma ShiftByZero(users: map<nat, Account>, u: nat)
    requires UsersNonNegative(users)
    ensures ShiftUser(users, u, 0) == users
  {
  }

  lemma EmptyRow(files: Files, buckets: map<nat, Bucket>, users: map<nat, Account>, x: nat)
    requires x in files && files[x].size == 0
    ensures Conserved(files, buckets) <==> Conserved(files - {x}, buckets)
    ensures UsersExact(files, users) <==> UsersExact(files - {x}, users)
  {
    forall b ensures Sum(files, InBucket(b)) == Sum(files - {x}, InBucket(b)) {
      SumWithout(files, InBucket(b), x);
    }
    forall u ensures Sum(files, OwnedBy(u)) == Sum(files - {x}, OwnedBy(u)) {
      SumWithout(files, OwnedBy(u), x);
    }
  }
}

/** The move of a file into another bucket: copy without renaming, then delete the
    source, as one task that may be tried any number of times. */
module MovePlan {
  import opened Wrappers
  import opened Rows
  import opened Names
  import opened CopyPlan

  /** The file to move, and where it goes. */
  datatype Move = Move(file: nat, dstBucket: nat, folder: nat, name: string)

  predicate SourceLive(now: Store, srcBucket: nat, mv: Move) {
    mv.file in now.files && !now.files[mv.file].deleted && now.files[mv.file].bucket == srcBucket
  }

  /** A live file under the target name with exactly these bytes. */
  ghost predicate CopyLive(now: Store, mv: Move, bytes: seq<byte>) {
    exists y :: FileNamed(now.files, mv.dstBucket, mv.folder, mv.name, y) && y in now.objects && now.objects[y] == bytes
  }

  /** The bytes can still be had, from the source or under the target name. */
  ghost predicate NotLost(now: Store, j: Job, mv: Move, bytes: seq<byte>) {
    (SourceLive(now, j.srcBucket, mv) && mv.file in now.objects && now.objects[mv.file] == bytes) || CopyLive(now, mv, bytes)
  }

  /** A live source without an object, and nothing under the target name. */
  ghost predicate NothingToCopy(now: Store, j: Job, mv: Move) {
    SourceLive(now, j.srcBucket, mv) && mv.file !in now.objects && !NameTaken(now.folders, now.files, mv.dstBucket, mv.folder, mv.name)
  }

  /** The target name is free, or held by our copy. */
  ghost predicate NameIsOurs(now: Store, mv: Move, bytes: seq<byte>) {
    NameTaken(now.folders, now.files, mv.dstBucket, mv.folder, mv.name) ==> CopyLive(now, mv, bytes)
  }

  ghost function WithoutFile(now: Store, x: nat): Store
    requires x in now.files
  {
    now.(files := now.files[x := now.files[x].(deleted := true)])
  }

  /** The store after a completed task; `id` is the id of a copy made now. */
  ghost function Moved(now: Store, j: Job, mv: Move, id: nat): Store {
    if !SourceLive(now, j.srcBucket, mv) then now
    else if NameTaken(now.folders, now.files, mv.dstBucket, mv.folder, mv.name) then WithoutFile(now, mv.file)
    else if mv.file !in now.objects then now
    else WithoutFile(WithFile(now, id, FileCopy(now.files[mv.file].(name := mv.name), mv.folder, j), now.objects[mv.file]), mv.file)
  }

  lemma CopyMade(now: Store, j: Job, mv: Move, id: nat)
    requires SourceLive(now, j.srcBucket, mv) && mv.file in now.objects && id !in now.files && mv.dstBucket == j.dstBucket
    ensures CopyLive(WithFile(now, id, FileCopy(now.files[mv.file].(name := mv.name), mv.folder, j), now.objects[mv.file]), mv, now.objects[mv.file])
  {
    var after := WithFile(now, id, FileCopy(now.files[mv.file].(name := mv.name), mv.folder, j), now.objects[mv.file]);
    assert FileNamed(after.files, mv.dstBucket, mv.folder, mv.name, id);
  }

  /** A file moved by copying keeps size, rule and bytes: whoever might see it may see it in
      the new place, and nobody else. */
  lemma MovedFields(now: Store, j: Job, mv: Move, id: nat)
    requires SourceLive(now, j.srcBucket, mv) && mv.file in now.objects && id !in now.files && mv.file != id
    requires !NameTaken(now.folders, now.files, mv.dstBucket, mv.folder, mv.name)
    ensures var after := Moved(now, j, mv, id);
            && after.files.Keys == now.files.Keys + {id} && after.files[mv.file] == now.files[mv.file].(deleted := true)
            && var was, row := now.files[mv.file], after.files[id];
            && row.name == mv.name && row.size == was.size && row.rule == was.rule
            && row.bucket == j.dstBucket && row.folder == mv.folder && row.owner == j.user && !row.deleted
            && (forall op :: ItemVisible(row.rule, op) <==> ItemVisible(was.rule, op))
            && after.objects == now.objects[id := now.objects[mv.file]]
  {
  }

  lemma CopyTakesName(now: Store, mv: Move, bytes: seq<byte>)
    ensures CopyLive(now, mv, bytes) ==> NameTaken(now.folders, now.files, mv.dstBucket, mv.folder, mv.name)
  {
  }

  lemma CopySurvives(now: Store, mv: Move, bytes: seq<byte>)
    requires CopyLive(now, mv, bytes) && mv.file in now.files && now.files[mv.file].bucket != mv.dstBucket
    ensures CopyLive(WithoutFile(now, mv.file), mv, bytes)
  {
    var y :| FileNamed(now.files, mv.dstBucket, mv.folder, mv.name, y) && y in now.objects && now.objects[y] == bytes;
    assert FileNamed(WithoutFile(now, mv.file).files, mv.dstBucket, mv.folder, mv.name, y);
  }

  /** Exactly when a move of a live file keeps its bytes: the target name is free, or
      held by a live file with the same bytes. Anything else under that name makes the
      task take the copy for done and delete the only copy. */
  lemma MoveKeepsBytesExactly(now: Store, j: Job, mv: Move, id: nat)
    requires j.srcBucket != j.dstBucket && mv.dstBucket == j.dstBucket && id !in now.files
    requires SourceLive(now, j.srcBucket, mv) && mv.file in now.objects
    ensures NotLost(Moved(now, j, mv, id), j, mv, now.objects[mv.file]) <==> NameIsOurs(now, mv, now.objects[mv.file])
    ensures NotLost(now, j, mv, now.objects[mv.file]) && !SourceLive(Moved(now, j, mv, id), j.srcBucket, mv)
  {
    var after, bytes := Moved(now, j, mv, id), now.objects[mv.file];
    if NameTaken(now.folders, now.files, mv.dstBucket, mv.folder, mv.name) {
      if CopyLive(now, mv, bytes) {
        CopySurvives(now, mv, bytes);
      }
      if CopyLive(after, mv, bytes) {
        var y :| FileNamed(after.files, mv.dstBucket, mv.folder, mv.name, y) && y in after.objects && after.objects[y] == bytes;
        assert FileNamed(now.files, mv.dstBucket, mv.folder, mv.name, y);
      }
    } else {
      CopyMade(now, j, mv, id);
      CopySurvives(WithFile(now, id, FileCopy(now.files[mv.file].(name := mv.name), mv.folder, j), bytes), mv, bytes);
    }
  }

  /** Some other file under the target name is enough to lose the source. */
  lemma TakenNameLosesFile()
    ensures exists now: Store, j: Job, mv: Move ::
              && SourceLive(now, j.srcBucket, mv) && mv.file in now.objects
              && !NotLost(Moved(now, j, mv, 9), j, mv, now.objects[mv.file])
  {
    var row := FileRow(1, 0, "a", 1, 1, Unrestricted, false);
    var now := Store(map[], map[1 := row, 2 := row.(bucket := 2)], map[1 := [1 as byte], 2 := [2 as byte]]);
    var j := Job(1, 0, 2, 0, 1, NoOperator);
    var mv := Move(1, 2, 0, "a");
    assert FileNamed(now.files, 2, 0, "a", 2);
    assert forall y :: FileNamed(now.files, 2, 0, "a", y) ==> y == 2;
    MoveKeepsBytesExactly(now, j, mv, 9);
  }
}

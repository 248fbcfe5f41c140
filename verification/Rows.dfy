/** Rows of the folders and files tables and who may see them. */
module Rows {
  import opened Names

  datatype Isable = Unusable | Usable | Deleting

  /** The parsed `visible_to_groups` column: blank, unreadable, or a list of group ids. */
  datatype VisibilityRule = Unrestricted | Corrupt | Groups(ids: seq<nat>)

  /** The user an operation runs for: unknown (a task without operator snapshot) or a
      known user with group memberships. */
  datatype Operator = NoOperator | User(admin: bool, groups: set<nat>)

  datatype FolderRow = FolderRow(bucket: nat, parent: nat, name: string, owner: nat, rule: VisibilityRule, isable: Isable, deleted: bool)

  datatype FileRow = FileRow(bucket: nat, folder: nat, name: string, size: nat, owner: nat, rule: VisibilityRule, deleted: bool)

  datatype Tables = Tables(folders: map<nat, FolderRow>, files: map<nat, FileRow>)

  /** The item-level visibility rule; group id 0 never counts. */
  predicate ItemVisible(rule: VisibilityRule, op: Operator) {
    match rule
    case Unrestricted => true
    case Corrupt => false
    case Groups(ids) =>
      && (exists i :: 0 <= i < |ids| && ids[i] != 0)
      && op.User?
      && (op.admin || exists i :: 0 <= i < |ids| && ids[i] != 0 && ids[i] in op.groups)
  }

  /** The access check on the way through the tree; unlike the plain rule it lets an
      administrator past an unreadable group list. */
  predicate MayAccess(rule: VisibilityRule, op: Operator) {
    rule.Unrestricted? || (op.User? && op.admin) || ItemVisible(rule, op)
  }

  // ----- names in a folder -----

  /** The live folder `f` of the bucket lies in `parent` and has the name, ignoring case. */
  predicate FolderNamed(folders: map<nat, FolderRow>, bucket: nat, parent: nat, name: string, f: nat) {
    && f in folders && !folders[f].deleted && folders[f].bucket == bucket && folders[f].parent == parent
    && Lower(folders[f].name) == Lower(name)
  }

  predicate FileNamed(files: map<nat, FileRow>, bucket: nat, folder: nat, name: string, x: nat) {
    && x in files && !files[x].deleted && files[x].bucket == bucket && files[x].folder == folder
    && Lower(files[x].name) == Lower(name)
  }

  /** A live file or folder of that name is there. */
  ghost predicate NameTaken(folders: map<nat, FolderRow>, files: map<nat, FileRow>, bucket: nat, parent: nat, name: string) {
    (exists x :: FileNamed(files, bucket, parent, name, x)) || exists f :: FolderNamed(folders, bucket, parent, name, f)
  }

  /** A name is taken by any live file or folder there of that name, whatever its case. */
  lemma NameTakenExactly(folders: map<nat, FolderRow>, files: map<nat, FileRow>, bucket: nat, parent: nat, name: string)
    ensures NameTaken(folders, files, bucket, parent, name)
            <==> (exists x :: x in files && !files[x].deleted && files[x].bucket == bucket && files[x].folder == parent
                              && Lower(files[x].name) == Lower(name))
                 || exists f :: f in folders && !folders[f].deleted && folders[f].bucket == bucket && folders[f].parent == parent
                                && Lower(folders[f].name) == Lower(name)
  {
    forall x ensures FileNamed(files, bucket, parent, name, x)
                     <==> x in files && !files[x].deleted && files[x].bucket == bucket && files[x].folder == parent
                          && Lower(files[x].name) == Lower(name) {
    }
    forall f ensures FolderNamed(folders, bucket, parent, name, f)
                     <==> f in folders && !folders[f].deleted && folders[f].bucket == bucket && folders[f].parent == parent
                          && Lower(folders[f].name) == Lower(name) {
    }
  }

  /** Live names in one folder are unique ignoring case: the partial unique indexes. */
  ghost predicate UniqueFolderNames(folders: map<nat, FolderRow>) {
    forall bucket, parent, name, a, b | FolderNamed(folders, bucket, parent, name, a) && FolderNamed(folders, bucket, parent, name, b) :: a == b
  }

  ghost predicate UniqueFileNames(files: map<nat, FileRow>) {
    forall bucket, folder, name, a, b | FileNamed(files, bucket, folder, name, a) && FileNamed(files, bucket, folder, name, b) :: a == b
  }
}

/** Who may see an item: the group list of its row, read and compared in loops, and what
    the answer means in terms of the groups. */
module Visibility {
  import opened Rows

  /** The group ids of a list, each once and without 0. */
  method ParseVisibleGroups(ids: seq<nat>) returns (out: seq<nat>)
    ensures forall g :: g in out <==> g in ids && g != 0
    ensures forall i, j | 0 <= i < j < |out| :: out[i] != out[j]
  {
    var seen: set<nat> := {};
    out := [];
    for i := 0 to |ids|
      invariant forall g :: g in out <==> g in ids[..i] && g != 0
      invariant forall g :: g in seen <==> g in out
      invariant forall i, j | 0 <= i < j < |out| :: out[i] != out[j]
    {
      assert ids[..i + 1] == ids[..i] + [ids[i]];
      if ids[i] == 0 || ids[i] in seen {
        continue;
      }
      seen := seen + {ids[i]};
      out := out + [ids[i]];
    }
    assert ids[..|ids|] == ids;
  }

  /** The rule as the program applies it; `userGroups` are the memberships in any order. */
  method ItemVisibleRule(rule: VisibilityRule, op: Operator, userGroups: seq<nat>) returns (ok: bool)
    requires op.User? ==> forall g :: g in userGroups <==> g in op.groups
    ensures ok <==> ItemVisible(rule, op)
  {
    if rule.Unrestricted? {
      return true;
    }
    if rule.Corrupt? {
      return false;
    }
    var groupIds := ParseVisibleGroups(rule.ids);
    AmongSome(rule.ids, groupIds);
    if |groupIds| == 0 {
      return false;
    }
    assert groupIds[0] in groupIds;
    if op.NoOperator? {
      return false;
    }
    if op.admin {
      return true;
    }
    for i := 0 to |userGroups|
      invariant forall g | g in userGroups[..i] :: g !in groupIds
    {
      assert userGroups[..i + 1] == userGroups[..i] + [userGroups[i]];
      for k := 0 to |groupIds|
        invariant userGroups[i] !in groupIds[..k]
      {
        assert groupIds[..k + 1] == groupIds[..k] + [groupIds[k]];
        if userGroups[i] == groupIds[k] {
          assert userGroups[i] in groupIds;
          return true;
        }
      }
      assert groupIds[..|groupIds|] == groupIds;
    }
    assert userGroups[..|userGroups|] == userGroups;
    return false;
  }

  lemma AmongSome(ids: seq<nat>, groupIds: seq<nat>)
    requires forall g :: g in groupIds <==> g in ids && g != 0
    ensures forall i | 0 <= i < |ids| && ids[i] != 0 :: ids[i] in groupIds
    ensures forall g | g in groupIds :: exists i :: 0 <= i < |ids| && ids[i] == g != 0
  {
  }

  /** The check on the way through a tree: administrators are let through first. */
  method CheckItemAccessTree(rule: VisibilityRule, op: Operator, userGroups: seq<nat>) returns (ok: bool)
    requires op.User? ==> forall g :: g in userGroups <==> g in op.groups
    ensures ok <==> MayAccess(rule, op)
  {
    if rule.Unrestricted? {
      return true;
    }
    if op.User? && op.admin {
      return true;
    }
    ok := ItemVisibleRule(rule, op, userGroups);
  }

  /** Who sees a row restricted to groups, in terms of the set of its groups: a plain user
      exactly if one of the groups is the user's, an administrator exactly if there is one,
      an unknown operator never; a list that cannot be read nobody. */
  lemma VisibleExactly(ids: seq<nat>, mine: set<nat>)
    ensures var listed := set g | g in ids && g != 0;
            && (ItemVisible(Groups(ids), User(false, mine)) <==> listed * mine != {})
            && (ItemVisible(Groups(ids), User(true, mine)) <==> listed != {})
    ensures !ItemVisible(Groups(ids), NoOperator)
    ensures forall op :: !ItemVisible(Corrupt, op) && ItemVisible(Unrestricted, op)
  {
    var listed := set g | g in ids && g != 0;
    forall i | 0 <= i < |ids| && ids[i] != 0 ensures ids[i] in listed && (ids[i] in mine ==> ids[i] in listed * mine) {
    }
    if listed * mine != {} {
      var g :| g in listed * mine;
    }
    if listed != {} {
      var g :| g in listed;
    }
  }

  /** The same for the way through a tree: an administrator gets everywhere, everyone else
      where they see. */
  lemma AccessExactly(ids: seq<nat>, mine: set<nat>)
    ensures MayAccess(Groups(ids), User(false, mine)) <==> (set g | g in ids && g != 0) * mine != {}
    ensures forall rule :: MayAccess(rule, User(true, mine))
    ensures !MayAccess(Groups(ids), NoOperator)
    ensures forall op :: MayAccess(Unrestricted, op) && (MayAccess(Corrupt, op) <==> op.User? && op.admin)
  {
    VisibleExactly(ids, mine);
  }
}

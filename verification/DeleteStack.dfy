/** The explicit stack of the delete-directory task: frames that point at their parent
    frame, revisited until their children are done. */
module DeleteStack {
  import opened Rows
  import opened DeletePlan

  datatype Frame = Frame(id: nat, parent: int, pendingChildren: nat, residue: bool, fileCursor: nat, subCursor: nat)

  function NewFrame(id: nat, parent: int): Frame {
    Frame(id, parent, 0, false, 0, 0)
  }

  function NewFrames(ids: seq<nat>, parent: int): seq<Frame> {
    seq(|ids|, i requires 0 <= i < |ids| => NewFrame(ids[i], parent))
  }

  /** How many frames have frame `i` as their parent. */
  function ChildrenOf(stack: seq<Frame>, i: int): nat {
    if stack == [] then 0
    else ChildrenOf(stack[..|stack| - 1], i) + if stack[|stack| - 1].parent == i then 1 else 0
  }

  // ----- shape: how the frames lie on the stack -----

  /** The parent of frame `j` is the frame below it, or the parent of the frame below it. */
  ghost predicate Linked(stack: seq<Frame>, j: nat, expanded: set<nat>)
    requires 0 < j < |stack|
  {
    && 0 <= stack[j].parent < j
    && (stack[j].parent == j - 1 || stack[j].parent == stack[j - 1].parent)
    && stack[stack[j].parent].id in expanded
  }

  ghost predicate AllLinked(stack: seq<Frame>, expanded: set<nat>) {
    |stack| > 0 && stack[0].parent == -1 && forall j | 0 < j < |stack| :: Linked(stack, j, expanded)
  }

  /** A frame counts the frames that point at it. */
  ghost predicate Counted(stack: seq<Frame>, i: nat)
    requires i < |stack|
  {
    stack[i].pendingChildren == ChildrenOf(stack, i)
  }

  /** The current frame is the top or the parent of the top; the frames already
      expanded form a chain that ends in it. */
  ghost predicate Current(stack: seq<Frame>, idx: int, expanded: set<nat>) {
    && 0 <= idx < |stack|
    && (idx == |stack| - 1 || stack[|stack| - 1].parent == idx)
    && (forall j | 0 <= j < |stack| && stack[j].id in expanded :: j <= idx)
    && (forall i, j | 0 <= j < i < |stack| && stack[j].id in expanded && (i == idx || stack[i].id in expanded) ::
          j <= stack[i].parent)
  }

  ghost predicate Shape(stack: seq<Frame>, idx: int, expanded: set<nat>) {
    AllLinked(stack, expanded) && (forall i | 0 <= i < |stack| :: Counted(stack, i)) && Current(stack, idx, expanded)
  }

  lemma {:induction false} ChildCount(stack: seq<Frame>, i: int)
    ensures ChildrenOf(stack, i) == 0 <==> forall j | 0 <= j < |stack| :: stack[j].parent != i
  {
    if stack != [] {
      ChildCount(stack[..|stack| - 1], i);
    }
  }

  lemma {:induction false} CountAppend(stack: seq<Frame>, more: seq<Frame>, i: int)
    ensures ChildrenOf(stack + more, i) == ChildrenOf(stack, i) + ChildrenOf(more, i)
  {
    if more == [] {
      assert stack + more == stack;
    } else {
      assert (stack + more)[..|stack + more| - 1] == stack + more[..|more| - 1];
      CountAppend(stack, more[..|more| - 1], i);
    }
  }

  lemma {:induction false} CountSameParents(a: seq<Frame>, b: seq<Frame>, i: int)
    requires |a| == |b| && forall j | 0 <= j < |a| :: a[j].parent == b[j].parent
    ensures ChildrenOf(a, i) == ChildrenOf(b, i)
  {
    if a != [] {
      CountSameParents(a[..|a| - 1], b[..|b| - 1], i);
    }
  }

  lemma {:induction false} CountNew(ids: seq<nat>, parent: int, i: int)
    ensures ChildrenOf(NewFrames(ids, parent), i) == if i == parent then |ids| else 0
  {
    if ids != [] {
      assert NewFrames(ids, parent)[..|ids| - 1] == NewFrames(ids[..|ids| - 1], parent);
      CountNew(ids[..|ids| - 1], parent, i);
    }
  }

  /** The frame that has no pending children is the top of the stack. */
  lemma FinishedIsTop(stack: seq<Frame>, idx: int, expanded: set<nat>)
    requires Shape(stack, idx, expanded) && stack[idx].pendingChildren == 0
    ensures idx == |stack| - 1
  {
    assert Counted(stack, idx);
    ChildCount(stack, idx);
  }

  /** A frame met for the first time is the top of the stack and has no children. */
  lemma FreshIsTop(stack: seq<Frame>, idx: int, expanded: set<nat>)
    requires Shape(stack, idx, expanded) && stack[idx].id !in expanded
    ensures idx == |stack| - 1
  {
    if |stack| > 1 {
      assert Linked(stack, |stack| - 1, expanded);
    }
  }

  /** With children pending, the top is a frame not expanded yet, and is next. */
  lemma DescendShape(stack: seq<Frame>, idx: int, expanded: set<nat>)
    requires Shape(stack, idx, expanded) && stack[idx].id in expanded && stack[idx].pendingChildren > 0
    ensures Shape(stack, |stack| - 1, expanded) && stack[|stack| - 1].id !in expanded
  {
    assert Counted(stack, idx);
    ChildCount(stack, idx);
    var j :| 0 <= j < |stack| && stack[j].parent == idx;
    assert j > 0 ==> Linked(stack, j, expanded);
  }

  /** Visiting the current frame: cursors and residue move on, children are pushed. */
  function Visited(stack: seq<Frame>, idx: nat, fileCursor: nat, subCursor: nat, residue: bool, ids: seq<nat>): seq<Frame>
    requires idx < |stack|
  {
    stack[idx := stack[idx].(fileCursor := fileCursor, subCursor := subCursor, residue := residue,
                             pendingChildren := stack[idx].pendingChildren + |ids|)]
    + NewFrames(ids, idx)
  }

  lemma ExpandCounts(stack: seq<Frame>, fileCursor: nat, subCursor: nat, residue: bool, ids: seq<nat>, i: nat)
    requires |stack| > 0 && i < |stack| + |ids|
    requires forall j | 0 <= j < |stack| :: stack[j].parent < |stack|
    requires i < |stack| ==> Counted(stack, i)
    ensures Counted(Visited(stack, |stack| - 1, fileCursor, subCursor, residue, ids), i)
  {
    var top := |stack| - 1;
    var lower := stack[top := stack[top].(fileCursor := fileCursor, subCursor := subCursor, residue := residue,
                                          pendingChildren := stack[top].pendingChildren + |ids|)];
    CountAppend(lower, NewFrames(ids, top), i);
    CountSameParents(lower, stack, i);
    CountNew(ids, top, i);
    if i >= |stack| {
      ChildCount(stack, i);
    }
  }

  lemma VisitedFrames(stack: seq<Frame>, idx: nat, fileCursor: nat, subCursor: nat, residue: bool, ids: seq<nat>, j: nat)
    requires idx < |stack| && j < |stack| + |ids|
    ensures var after := Visited(stack, idx, fileCursor, subCursor, residue, ids);
            && |after| == |stack| + |ids|
            && after[j].id == (if j < |stack| then stack[j].id else ids[j - |stack|])
            && after[j].parent == (if j < |stack| then stack[j].parent else idx)
  {
  }

  lemma ParentsBelow(stack: seq<Frame>, expanded: set<nat>, j: nat)
    requires AllLinked(stack, expanded) && j < |stack|
    ensures -1 <= stack[j].parent < j
  {
    assert j > 0 ==> Linked(stack, j, expanded);
  }

  lemma ExpandLinked(stack: seq<Frame>, expanded: set<nat>, fileCursor: nat, subCursor: nat, residue: bool, ids: seq<nat>, j: nat)
    requires AllLinked(stack, expanded) && 0 < j < |stack| + |ids|
    ensures |Visited(stack, |stack| - 1, fileCursor, subCursor, residue, ids)| == |stack| + |ids|
    ensures Linked(Visited(stack, |stack| - 1, fileCursor, subCursor, residue, ids), j, expanded + {stack[|stack| - 1].id})
  {
    VisitedFrames(stack, |stack| - 1, fileCursor, subCursor, residue, ids, j);
    VisitedFrames(stack, |stack| - 1, fileCursor, subCursor, residue, ids, j - 1);
    if j < |stack| {
      assert Linked(stack, j, expanded);
      VisitedFrames(stack, |stack| - 1, fileCursor, subCursor, residue, ids, stack[j].parent);
    } else {
      VisitedFrames(stack, |stack| - 1, fileCursor, subCursor, residue, ids, |stack| - 1);
    }
  }

  lemma ExpandCurrent(stack: seq<Frame>, after: seq<Frame>, expanded: set<nat>, x: nat)
    requires |stack| > 0 && |after| >= |stack| && Current(stack, |stack| - 1, expanded)
    requires x == stack[|stack| - 1].id
    requires forall j | 0 <= j < |stack| :: after[j].id == stack[j].id && after[j].parent == stack[j].parent
    requires forall j | |stack| <= j < |after| :: after[j].parent == |stack| - 1 && after[j].id !in expanded + {x}
    requires forall j | 0 <= j < |stack| - 1 :: stack[j].id != x
    ensures Current(after, |stack| - 1, expanded + {x})
  {
    var n := |stack|;
    forall i, j | 0 <= j < i < n && stack[j].id in expanded && (i == n - 1 || stack[i].id in expanded)
      ensures j <= after[i].parent
    {
    }
    assert forall j | n <= j < |after| :: after[j].id !in expanded + {x};
  }

  lemma ExpandShape(stack: seq<Frame>, expanded: set<nat>, fileCursor: nat, subCursor: nat, residue: bool, ids: seq<nat>)
    requires Shape(stack, |stack| - 1, expanded) && stack[|stack| - 1].id !in expanded
    requires forall k | 0 <= k < |ids| :: ids[k] !in expanded && ids[k] != stack[|stack| - 1].id
    requires forall j | 0 <= j < |stack| - 1 :: stack[j].id != stack[|stack| - 1].id
    ensures Shape(Visited(stack, |stack| - 1, fileCursor, subCursor, residue, ids), |stack| - 1,
                  expanded + {stack[|stack| - 1].id})
  {
    var n := |stack|;
    var after := Visited(stack, n - 1, fileCursor, subCursor, residue, ids);
    forall j | 0 <= j < n ensures stack[j].parent < n {
      ParentsBelow(stack, expanded, j);
    }
    forall i | 0 <= i < |after| ensures Counted(after, i) {
      ExpandCounts(stack, fileCursor, subCursor, residue, ids, i);
    }
    var grown := expanded + {stack[n - 1].id};
    forall j | 0 < j < |after| ensures Linked(after, j, grown) {
      ExpandLinked(stack, expanded, fileCursor, subCursor, residue, ids, j);
    }
    ExpandCurrent(stack, after, expanded, stack[n - 1].id);
  }

  /** Popping the finished top frame: its parent is told. */
  function Popped(stack: seq<Frame>): seq<Frame>
    requires |stack| > 0 && -1 <= stack[|stack| - 1].parent < |stack| - 1
    requires stack[|stack| - 1].parent >= 0 ==> stack[stack[|stack| - 1].parent].pendingChildren > 0
  {
    var top := stack[|stack| - 1];
    var lower := stack[..|stack| - 1];
    if top.parent >= 0 then
      var p := lower[top.parent];
      lower[top.parent := p.(pendingChildren := p.pendingChildren - 1, residue := p.residue || top.residue)]
    else lower
  }

  lemma PopAllowed(stack: seq<Frame>, expanded: set<nat>)
    requires Shape(stack, |stack| - 1, expanded)
    ensures -1 <= stack[|stack| - 1].parent < |stack| - 1
    ensures stack[|stack| - 1].parent >= 0 ==> stack[stack[|stack| - 1].parent].pendingChildren > 0
    ensures stack[|stack| - 1].parent < 0 <==> |stack| == 1
    ensures |stack| > 1 ==> stack[stack[|stack| - 1].parent].id in expanded
  {
    if |stack| > 1 {
      assert Linked(stack, |stack| - 1, expanded);
      assert Counted(stack, stack[|stack| - 1].parent);
      ChildCount(stack, stack[|stack| - 1].parent);
    }
  }

  lemma PopCounts(stack: seq<Frame>, expanded: set<nat>, i: nat)
    requires Shape(stack, |stack| - 1, expanded) && i < |stack| - 1
    requires -1 <= stack[|stack| - 1].parent < |stack| - 1
    requires stack[|stack| - 1].parent >= 0 ==> stack[stack[|stack| - 1].parent].pendingChildren > 0
    ensures Counted(Popped(stack), i)
  {
    assert Counted(stack, i);
    CountSameParents(Popped(stack), stack[..|stack| - 1], i);
  }

  lemma PopCurrent(stack: seq<Frame>, after: seq<Frame>, expanded: set<nat>)
    requires |stack| > 1 && Current(stack, |stack| - 1, expanded) && stack[|stack| - 1].id in expanded
    requires |after| == |stack| - 1 && 0 <= stack[|stack| - 1].parent < |after|
    requires Linked(stack, |stack| - 1, expanded)
    requires forall j | 0 <= j < |after| :: after[j].id == stack[j].id && after[j].parent == stack[j].parent
    ensures Current(after, stack[|stack| - 1].parent, expanded)
  {
  }

  lemma PopShape(stack: seq<Frame>, expanded: set<nat>)
    requires Shape(stack, |stack| - 1, expanded) && |stack| > 1 && stack[|stack| - 1].id in expanded
    ensures 0 <= stack[|stack| - 1].parent < |stack| - 1
    ensures stack[stack[|stack| - 1].parent].pendingChildren > 0
    ensures Shape(Popped(stack), stack[|stack| - 1].parent, expanded)
    ensures stack[stack[|stack| - 1].parent].id in expanded
  {
    PopAllowed(stack, expanded);
    var n := |stack| - 1;
    var after := Popped(stack);
    assert Linked(stack, n, expanded);
    forall i | 0 <= i < n ensures Counted(after, i) {
      PopCounts(stack, expanded, i);
    }
    forall j | 0 <= j < n ensures after[j].id == stack[j].id && after[j].parent == stack[j].parent {
    }
    forall j | 0 < j < n ensures Linked(after, j, expanded) {
      assert Linked(stack, j, expanded);
    }
    PopCurrent(stack, after, expanded);
  }
}

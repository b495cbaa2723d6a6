/** The facts behind the iterator steps: climbing parent links and walking
    down to the leftmost or rightmost node land on the in-order neighbour. */
module Cursor {
  import opened Shapes

  /** The slot at position i of s, or Null outside it. */
  ghost function SlotAt(s: seq<nat>, i: int): int {
    if 0 <= i < |s| then s[i] else Null
  }

  /** The parent of a subtree is Null exactly at the root, and an arena slot
      below it. */
  lemma ParentSlot(t: Shape, path: seq<bool>, nodes: seq<Node>)
    requires Linked(t, Null, nodes) && ValidPath(t, path)
    ensures ParentAt(t, Null, path) == Null <==> path == []
    ensures ParentAt(t, Null, path) == Null || 0 <= ParentAt(t, Null, path) < |nodes|
  {
    if path != [] {
      var up := path[..|path| - 1];
      assert path == up + [path[|path| - 1]];
      Retract(t, up, path[|path| - 1]);
      Extend(t, up, path[|path| - 1], Null);
      LinkedAt(t, Null, up, nodes);
    }
  }

  /** In a tree without repeated slots, a node's two children differ. */
  lemma ChildrenDiffer(t: Shape, up: seq<bool>)
    requires Distinct(InOrder(t)) && ValidPath(t, up) && SubAt(t, up).Branch?
    requires SubAt(t, up).left.Branch? && SubAt(t, up).right.Branch?
    ensures SubAt(t, up).left.id != SubAt(t, up).right.id
  {
    var s := SubAt(t, up);
    SplitAt(t, up);
    var b := |Before(t, up)|;
    var x := b + |InOrder(s.left.left)|;
    var y := b + |InOrder(s.left)| + 1 + |InOrder(s.right.left)|;
    assert InOrder(t)[x] == s.left.id;
    assert InOrder(t)[y] == s.right.id;
    if s.left.id == s.right.id {
      DistinctIndex(InOrder(t), x, y);
    }
  }

  /** A node whose parent's right link points back at it is a right child. */
  lemma RightChildStep(t: Shape, up: seq<bool>, d: bool, nodes: seq<Node>)
    requires Distinct(InOrder(t)) && Linked(t, Null, nodes)
    requires ValidPath(t, up) && SubAt(t, up).Branch? && Child(SubAt(t, up), d).Branch?
    requires SubAt(t, up).id < |nodes| && nodes[SubAt(t, up).id].right == Child(SubAt(t, up), d).id
    ensures d
  {
    Extend(t, up, d, Null);
    LinkedAt(t, Null, up, nodes);
    if !d {
      ChildrenDiffer(t, up);
    }
  }

  /** A node whose parent's left link points back at it is a left child. */
  lemma LeftChildStep(t: Shape, up: seq<bool>, d: bool, nodes: seq<Node>)
    requires Distinct(InOrder(t)) && Linked(t, Null, nodes)
    requires ValidPath(t, up) && SubAt(t, up).Branch? && Child(SubAt(t, up), d).Branch?
    requires SubAt(t, up).id < |nodes| && nodes[SubAt(t, up).id].left == Child(SubAt(t, up), d).id
    ensures !d
  {
    Extend(t, up, d, Null);
    LinkedAt(t, Null, up, nodes);
    if d {
      ChildrenDiffer(t, up);
    }
  }

  /** ++ with a right subtree ends at that subtree's leftmost node: the node
      right after it in in-order. */
  lemma SuccessorBelow(t: Shape, top: seq<bool>, path: seq<bool>, i: nat)
    requires Distinct(InOrder(t))
    requires ValidPath(t, top) && SubAt(t, top).Branch?
    requires ValidPath(t, path) && SubAt(t, path).Branch? && SubAt(t, path).left == Nil
    requires |Before(t, path)| == |Before(t, top)| + |InOrder(SubAt(t, top).left)| + 1
    requires i < |InOrder(t)| && InOrder(t)[i] == SubAt(t, top).id
    ensures SubAt(t, path).id == SlotAt(InOrder(t), i + 1)
  {
    var io := InOrder(t);
    var s, q := SubAt(t, top), SubAt(t, path);
    RootIndex(t, top);
    RootIndex(t, path);
    DistinctIndex(io, i, |Before(t, top)| + |InOrder(s.left)|);
  }

  /** -- with a left subtree ends at that subtree's rightmost node: the node
      right before it in in-order. */
  lemma PredecessorBelow(t: Shape, top: seq<bool>, path: seq<bool>, i: nat)
    requires Distinct(InOrder(t))
    requires ValidPath(t, top) && SubAt(t, top).Branch?
    requires ValidPath(t, path) && SubAt(t, path).Branch? && SubAt(t, path).right == Nil
    requires |Before(t, path)| + |InOrder(SubAt(t, path))| == |Before(t, top)| + |InOrder(SubAt(t, top).left)|
    requires i < |InOrder(t)| && InOrder(t)[i] == SubAt(t, top).id
    ensures SubAt(t, path).id == SlotAt(InOrder(t), i - 1)
  {
    var io := InOrder(t);
    var s, q := SubAt(t, top), SubAt(t, path);
    RootIndex(t, top);
    RootIndex(t, path);
    DistinctIndex(io, i, |Before(t, top)| + |InOrder(s.left)|);
  }

  /** The node right after the last slot of a left subtree is the
      subtree's parent. */
  lemma AfterLeftSubtree(t: Shape, up: seq<bool>, i: nat)
    requires Distinct(InOrder(t)) && ValidPath(t, up) && SubAt(t, up).Branch? && SubAt(t, up).left.Branch?
    requires i < |InOrder(t)|
    requires InOrder(t)[i] == InOrder(SubAt(t, up).left)[|InOrder(SubAt(t, up).left)| - 1]
    ensures SubAt(t, up).id == SlotAt(InOrder(t), i + 1)
  {
    var u := SubAt(t, up);
    var b := |Before(t, up)| + |InOrder(u.left)|;
    RootIndex(t, up);
    assert InOrder(t)[b - 1] == InOrder(u.left)[|InOrder(u.left)| - 1] by {
      SplitAt(t, up);
      assert InOrder(u) == InOrder(u.left) + [u.id] + InOrder(u.right);
    }
    DistinctIndex(InOrder(t), i, b - 1);
  }

  /** The node right before the first slot of a right subtree is the
      subtree's parent. */
  lemma BeforeRightSubtree(t: Shape, up: seq<bool>, i: nat)
    requires Distinct(InOrder(t)) && ValidPath(t, up) && SubAt(t, up).Branch? && SubAt(t, up).right.Branch?
    requires i < |InOrder(t)| && InOrder(t)[i] == InOrder(SubAt(t, up).right)[0]
    ensures SubAt(t, up).id == SlotAt(InOrder(t), i - 1)
  {
    var u := SubAt(t, up);
    var b := |Before(t, up)| + |InOrder(u.left)|;
    RootIndex(t, up);
    assert b + 1 < |InOrder(t)| && InOrder(t)[b + 1] == InOrder(u.right)[0] by {
      SplitAt(t, up);
      assert InOrder(u) == InOrder(u.left) + [u.id] + InOrder(u.right);
    }
    DistinctIndex(InOrder(t), i, b + 1);
  }

  /** ++ without a right subtree climbs while it is a right child; the
      parent it then reaches (or Null from the root) is the successor of
      the last node of the subtree it climbed to. */
  lemma SuccessorAbove(t: Shape, it: int, path: seq<bool>, nodes: seq<Node>, i: nat)
    requires Distinct(InOrder(t)) && Linked(t, Null, nodes)
    requires ValidPath(t, path) && SubAt(t, path).Branch?
    requires InOrder(SubAt(t, path))[|InOrder(SubAt(t, path))| - 1] == it
    requires var p := ParentAt(t, Null, path); p == Null || (0 <= p < |nodes| && nodes[p].right != SubAt(t, path).id)
    requires i < |InOrder(t)| && InOrder(t)[i] == it
    ensures ParentAt(t, Null, path) == SlotAt(InOrder(t), i + 1)
  {
    ParentSlot(t, path, nodes);
    if path == [] {
      EndsIndex(t, path);
      DistinctIndex(InOrder(t), i, |InOrder(t)| - 1);
      assert SlotAt(InOrder(t), i + 1) == Null;
    } else {
      var up := path[..|path| - 1];
      var d := path[|path| - 1];
      assert path == up + [d];
      Retract(t, up, d);
      Extend(t, up, d, Null);
      LinkedAt(t, Null, up, nodes);
      assert !d;
      AfterLeftSubtree(t, up, i);
    }
  }

  /** -- without a left subtree climbs while it is a left child; the parent
      it then reaches (or Null from the root) is the predecessor of the
      first node of the subtree it climbed to. */
  lemma PredecessorAbove(t: Shape, it: int, path: seq<bool>, nodes: seq<Node>, i: nat)
    requires Distinct(InOrder(t)) && Linked(t, Null, nodes)
    requires ValidPath(t, path) && SubAt(t, path).Branch?
    requires InOrder(SubAt(t, path))[0] == it
    requires var p := ParentAt(t, Null, path); p == Null || (0 <= p < |nodes| && nodes[p].left != SubAt(t, path).id)
    requires i < |InOrder(t)| && InOrder(t)[i] == it
    ensures ParentAt(t, Null, path) == SlotAt(InOrder(t), i - 1)
  {
    ParentSlot(t, path, nodes);
    if path == [] {
      EndsIndex(t, path);
      DistinctIndex(InOrder(t), i, 0);
      assert SlotAt(InOrder(t), i - 1) == Null;
    } else {
      var up := path[..|path| - 1];
      var d := path[|path| - 1];
      assert path == up + [d];
      Retract(t, up, d);
      Extend(t, up, d, Null);
      LinkedAt(t, Null, up, nodes);
      assert d;
      BeforeRightSubtree(t, up, i);
    }
  }
}

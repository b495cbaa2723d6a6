/** BinarySearchTree<Key, Value> with Key = Value = int: an unbalanced binary
    search tree that keeps duplicate keys, over an arena of nodes whose
    pointers are slot indices. Iterators are slot indices too, Null being
    end(). */
module Bst {
  import opened Entries
  import opened Shapes
  import opened Cursor
  import opened Surgery
  import opened Pruning

  class BinarySearchTree {
    /** The node arena. A removed node's slot stays behind, unreachable. */
    var nodes: seq<Node>
    var root: int
    var size: nat
    /** How the reachable slots hang together. */
    ghost var shape: Shape

    ghost predicate Valid()
      reads this
    {
      && Tree(shape, nodes)
      && root == RootId(shape)
      && size == |InOrder(shape)|
    }

    /** The reachable slots in in-order: the order iterators visit. */
    ghost function Order(): seq<nat>
      reads this
    {
      InOrder(shape)
    }

    /** The stored pairs in in-order. */
    ghost function Contents(): seq<Entry>
      reads this
      requires Valid()
    {
      Pairs(InOrder(shape), nodes)
    }

    constructor ()
      ensures Valid() && Contents() == []
    {
      nodes, root, size := [], Null, 0;
      shape := Nil;
    }

    /** size(): the number of stored pairs. */
    function Size(): (n: nat)
      reads this
      requires Valid()
      ensures n == |Contents()|
    {
      size
    }

    /** The position of slot x in Order(). */
    ghost function IndexOf(x: int): (i: nat)
      reads this
      requires Valid() && x in Order()
      ensures i < |Order()| && Order()[i] == x
    {
      var i :| 0 <= i < |Order()| && Order()[i] == x;
      i
    }

    lemma OrderDistinct(i: nat, j: nat)
      requires Valid() && i < |Order()| && j < |Order()| && Order()[i] == Order()[j]
      ensures i == j
    {
      DistinctIndex(InOrder(shape), i, j);
    }

    /** Distinct positions of Order(), end() counting as the position past
        the last, hold distinct iterators. */
    lemma SlotDistinct(i: nat, j: nat)
      requires Valid() && i < j <= |Order()|
      ensures SlotAt(Order(), i) != SlotAt(Order(), j)
    {
      if j < |Order()| {
        TwoOccurrences(InOrder(shape), i, j);
      }
    }

    /** find(key): the node where the search path first meets key, or end(). */
    method Find(k: int) returns (it: int)
      requires Valid()
      ensures Stored(shape, nodes) && it == FindNode(shape, k, nodes)
      ensures it == Null <==> !HasKey(Contents(), k)
      ensures it != Null ==> it in Order() && nodes[it].key == k
    {
      FindNodeCorrect(shape, Null, k, nodes);
      var cur := root;
      ghost var path: seq<bool> := [];
      while cur != Null
        invariant ValidPath(shape, path) && cur == RootId(SubAt(shape, path))
        invariant Stored(SubAt(shape, path), nodes)
        invariant FindNode(SubAt(shape, path), k, nodes) == FindNode(shape, k, nodes)
        decreases |InOrder(SubAt(shape, path))|
      {
        LinkedAt(shape, Null, path, nodes);
        if nodes[cur].key > k {
          if nodes[cur].left == Null {
            return Null;
          }
          Extend(shape, path, false, Null);
          cur := nodes[cur].left;
          path := path + [false];
        } else if nodes[cur].key < k {
          if nodes[cur].right == Null {
            return Null;
          }
          Extend(shape, path, true, Null);
          cur := nodes[cur].right;
          path := path + [true];
        } else {
          break;
        }
      }
      it := cur;
    }

    /** begin(): the leftmost node. It dereferences the root, so the tree
        must not be empty. */
    method Begin() returns (it: int)
      requires Valid() && |Contents()| > 0
      ensures it == Order()[0]
    {
      var cur := root;
      ghost var path: seq<bool> := [];
      while nodes[cur].left != Null
        invariant ValidPath(shape, path) && SubAt(shape, path).Branch? && cur == SubAt(shape, path).id
        invariant Linked(SubAt(shape, path), ParentAt(shape, Null, path), nodes)
        invariant Before(shape, path) == []
        decreases |InOrder(SubAt(shape, path))|
      {
        Extend(shape, path, false, Null);
        cur := nodes[cur].left;
        path := path + [false];
      }
      LinkedAt(shape, Null, path, nodes);
      SplitAt(shape, path);
      it := cur;
    }

    /** end(): the iterator past the last node. */
    function End(): (it: int)
      reads this
      requires Valid()
      ensures it !in Order()
    {
      Null
    }

    /** Iterator::operator++: the in-order successor, end() after the last
        node, and end() stays end(). The iterator is at position i of
        Order(). */
    method Next(it: int, ghost i: nat) returns (r: int)
      requires Valid() && (it == Null || (i < |Order()| && Order()[i] == it))
      ensures it == Null ==> r == Null
      ensures it != Null ==> r == SlotAt(Order(), i + 1)
    {
      if it == Null {
        return it;
      }
      ghost var path := PathTo(shape, it);
      LinkedAt(shape, Null, path, nodes);
      if nodes[it].right != Null {
        ghost var mp;
        r, mp := Leftmost(it, path);
        SuccessorBelow(shape, path, mp, i);
      } else {
        r := ClimbToSuccessor(it, path, i);
      }
    }

    /** Iterator::operator--: the in-order predecessor, end() before the
        first node, and end() stays end(). */
    method Prev(it: int, ghost i: nat) returns (r: int)
      requires Valid() && (it == Null || (i < |Order()| && Order()[i] == it))
      ensures it == Null ==> r == Null
      ensures it != Null ==> r == SlotAt(Order(), i - 1)
    {
      if it == Null {
        return it;
      }
      ghost var path := PathTo(shape, it);
      LinkedAt(shape, Null, path, nodes);
      if nodes[it].left != Null {
        ghost var mp;
        r, mp := Rightmost(it, path);
        PredecessorBelow(shape, path, mp, i);
      } else {
        r := ClimbToPredecessor(it, path, i);
      }
    }

    /** The walk from a node's right child down left links to the leftmost
        node of the right subtree: the node's in-order successor. */
    method Leftmost(node: int, ghost path: seq<bool>) returns (minNode: int, ghost mp: seq<bool>)
      requires Valid() && ValidPath(shape, path) && SubAt(shape, path).Branch? && node == SubAt(shape, path).id
      requires SubAt(shape, path).right.Branch?
      ensures ValidPath(shape, mp) && SubAt(shape, mp).Branch? && minNode == SubAt(shape, mp).id
      ensures minNode < |nodes| && SubAt(shape, mp).left == Nil
      ensures Before(shape, mp) == Before(shape, path) + InOrder(SubAt(shape, path).left) + [node]
      ensures |InOrder(SubAt(shape, mp))| < |InOrder(SubAt(shape, path))|
    {
      ghost var t, u := shape, SubAt(shape, path);
      Extend(t, path, true, Null);
      LinkedAt(t, Null, path, nodes);
      minNode := nodes[node].right;
      mp := path + [true];
      LinkedAt(t, Null, mp, nodes);
      while nodes[minNode].left != Null
        invariant ValidPath(t, mp) && SubAt(t, mp).Branch? && minNode == SubAt(t, mp).id
        invariant Linked(SubAt(t, mp), ParentAt(t, Null, mp), nodes)
        invariant Before(t, mp) == Before(t, path) + InOrder(u.left) + [node]
        invariant |InOrder(SubAt(t, mp))| <= |InOrder(u.right)|
        decreases |InOrder(SubAt(t, mp))|
      {
        Extend(t, mp, false, Null);
        LinkedAt(t, Null, mp + [false], nodes);
        minNode := nodes[minNode].left;
        mp := mp + [false];
      }
    }

    /** The walk from a node's left child down right links to the rightmost
        node of the left subtree: the node's in-order predecessor. */
    method Rightmost(node: int, ghost path: seq<bool>) returns (maxNode: int, ghost mp: seq<bool>)
      requires Valid() && ValidPath(shape, path) && SubAt(shape, path).Branch? && node == SubAt(shape, path).id
      requires SubAt(shape, path).left.Branch?
      ensures ValidPath(shape, mp) && SubAt(shape, mp).Branch? && maxNode == SubAt(shape, mp).id
      ensures SubAt(shape, mp).right == Nil
      ensures |Before(shape, mp)| + |InOrder(SubAt(shape, mp))| == |Before(shape, path)| + |InOrder(SubAt(shape, path).left)|
    {
      ghost var t, u := shape, SubAt(shape, path);
      Extend(t, path, false, Null);
      LinkedAt(t, Null, path, nodes);
      maxNode := nodes[node].left;
      mp := path + [false];
      LinkedAt(t, Null, mp, nodes);
      while nodes[maxNode].right != Null
        invariant ValidPath(t, mp) && SubAt(t, mp).Branch? && maxNode == SubAt(t, mp).id
        invariant Linked(SubAt(t, mp), ParentAt(t, Null, mp), nodes)
        invariant |Before(t, mp)| + |InOrder(SubAt(t, mp))| == |Before(t, path)| + |InOrder(u.left)|
        invariant |InOrder(SubAt(t, mp))| <= |InOrder(u.left)|
        decreases |InOrder(SubAt(t, mp))|
      {
        Extend(t, mp, true, Null);
        LinkedAt(t, Null, mp + [true], nodes);
        maxNode := nodes[maxNode].right;
        mp := mp + [true];
      }
    }

    /** ++ from a node without a right child: climb while the node is its
        parent's right child, then step to the parent (Null above the
        root). */
    method ClimbToSuccessor(it: int, ghost path: seq<bool>, ghost i: nat) returns (r: int)
      requires Valid() && ValidPath(shape, path) && SubAt(shape, path).Branch? && it == SubAt(shape, path).id
      requires SubAt(shape, path).right == Nil
      requires i < |Order()| && Order()[i] == it
      ensures r == SlotAt(Order(), i + 1)
    {
      ghost var t := shape;
      ghost var p := path;
      LinkedAt(t, Null, p, nodes);
      ParentSlot(t, p, nodes);
      r := it;
      while nodes[r].parent != Null && nodes[nodes[r].parent].right == r
        invariant ValidPath(t, p) && SubAt(t, p).Branch? && r == SubAt(t, p).id
        invariant Linked(SubAt(t, p), ParentAt(t, Null, p), nodes)
        invariant InOrder(SubAt(t, p))[|InOrder(SubAt(t, p))| - 1] == it
        invariant ParentAt(t, Null, p) == Null <==> p == []
        invariant ParentAt(t, Null, p) == Null || 0 <= ParentAt(t, Null, p) < |nodes|
        decreases |p|
      {
        ghost var up := p[..|p| - 1];
        ghost var d := p[|p| - 1];
        assert p == up + [d];
        Retract(t, up, d);
        Extend(t, up, d, Null);
        RightChildStep(t, up, d, nodes);
        LinkedAt(t, Null, up, nodes);
        r := nodes[r].parent;
        p := up;
        ParentSlot(t, p, nodes);
      }
      SuccessorAbove(t, it, p, nodes, i);
      r := nodes[r].parent;
    }

    /** -- from a node without a left child: climb while the node is its
        parent's left child, then step to the parent (Null above the root). */
    method ClimbToPredecessor(it: int, ghost path: seq<bool>, ghost i: nat) returns (r: int)
      requires Valid() && ValidPath(shape, path) && SubAt(shape, path).Branch? && it == SubAt(shape, path).id
      requires SubAt(shape, path).left == Nil
      requires i < |Order()| && Order()[i] == it
      ensures r == SlotAt(Order(), i - 1)
    {
      ghost var t := shape;
      ghost var p := path;
      LinkedAt(t, Null, p, nodes);
      ParentSlot(t, p, nodes);
      r := it;
      while nodes[r].parent != Null && nodes[nodes[r].parent].left == r
        invariant ValidPath(t, p) && SubAt(t, p).Branch? && r == SubAt(t, p).id
        invariant Linked(SubAt(t, p), ParentAt(t, Null, p), nodes)
        invariant InOrder(SubAt(t, p))[0] == it
        invariant ParentAt(t, Null, p) == Null <==> p == []
        invariant ParentAt(t, Null, p) == Null || 0 <= ParentAt(t, Null, p) < |nodes|
        decreases |p|
      {
        ghost var up := p[..|p| - 1];
        ghost var d := p[|p| - 1];
        assert p == up + [d];
        Retract(t, up, d);
        Extend(t, up, d, Null);
        LeftChildStep(t, up, d, nodes);
        LinkedAt(t, Null, up, nodes);
        r := nodes[r].parent;
        p := up;
        ParentSlot(t, p, nodes);
      }
      PredecessorAbove(t, it, p, nodes, i);
      r := nodes[r].parent;
    }

    /** insert's walk: down from the root, left while the node's key is at
        least k and right otherwise, until the child to take is empty. That
        empty spot is the lower bound of k among the stored pairs. */
    method Locate(k: int) returns (cur: int, ghost path: seq<bool>, d: bool)
      requires Valid() && root != Null
      ensures ValidPath(shape, path) && SubAt(shape, path).Branch? && cur == SubAt(shape, path).id
      ensures cur < |nodes| && d == (nodes[cur].key < k) && Child(SubAt(shape, path), d) == Nil
      ensures ValidPath(shape, path + [d]) && SubAt(shape, path + [d]) == Nil
      ensures |Before(shape, path + [d])| == LowerBound(Contents(), k)
    {
      cur := root;
      var curKey := nodes[cur].key;
      path := [];
      while (curKey >= k && nodes[cur].left != Null) || (curKey < k && nodes[cur].right != Null)
        invariant Straddles(shape, nodes, path, k) && SubAt(shape, path).Branch? && cur == SubAt(shape, path).id
        invariant Linked(SubAt(shape, path), ParentAt(shape, Null, path), nodes)
        invariant curKey == nodes[cur].key
        decreases |InOrder(SubAt(shape, path))|
      {
        StraddleStep(shape, nodes, path, k);
        Extend(shape, path, curKey < k, Null);
        path := path + [curKey < k];
        if curKey >= k {
          cur := nodes[cur].left;
        } else {
          cur := nodes[cur].right;
        }
        curKey := nodes[cur].key;
      }
      d := curKey < k;
      StraddleStep(shape, nodes, path, k);
      Extend(shape, path, d, Null);
      StraddleBound(shape, nodes, path + [d], k);
    }

    /** insert(key, value): hang a new leaf at the spot Locate finds, or make
        it the root of an empty tree. Duplicates are kept: the new pair goes
        in front of every pair whose key is not below key. */
    method Insert(k: int, v: int)
      requires Valid()
      modifies this
      ensures Valid()
      ensures var j := LowerBound(old(Contents()), k);
              && Contents() == old(Contents())[..j] + [(k, v)] + old(Contents())[j..]
              && Order() == old(Order())[..j] + [old(|nodes|)] + old(Order())[j..]
      ensures |nodes| == old(|nodes|) + 1
      ensures nodes[old(|nodes|)].left == Null && nodes[old(|nodes|)].right == Null
      ensures old(root) == Null ==> root == old(|nodes|) && nodes[old(|nodes|)].parent == Null
      ensures old(root) != Null ==> root == old(root) && nodes[old(|nodes|)].parent in old(Order())
    {
      if root != Null {
        var cur, path, d := HangLeaf(k, v);
      } else {
        ghost var c := Contents();
        assert c == [] && LowerBound(c, k) == 0;
        var n := |nodes|;
        InsertRoot(nodes, k, v, nodes + [Node(k, v, Null, Null, Null)]);
        nodes := nodes + [Node(k, v, Null, Null, Null)];
        root := n;
        shape := Branch(n, Nil, Nil);
        size := 1;
      }
    }

    /** insert into a non-empty tree: the descent of Locate, then a new leaf
        on the side it ran out. */
    method HangLeaf(k: int, v: int) returns (cur: int, ghost path: seq<bool>, d: bool)
      requires Valid() && root != Null
      modifies this
      ensures Valid() && root == old(root)
      ensures var j := LowerBound(old(Contents()), k);
              && Contents() == old(Contents())[..j] + [(k, v)] + old(Contents())[j..]
              && Order() == old(Order())[..j] + [old(|nodes|)] + old(Order())[j..]
      ensures ValidPath(old(shape), path) && SubAt(old(shape), path).Branch? && cur == SubAt(old(shape), path).id
      ensures cur in old(Order()) && d == (old(nodes)[cur].key < k)
      ensures ValidPath(old(shape), path + [d]) && SubAt(old(shape), path + [d]) == Nil
      ensures shape == ReplaceAt(old(shape), path + [d], Branch(old(|nodes|), Nil, Nil))
      ensures nodes == old(nodes)[cur := if d then old(nodes)[cur].(right := old(|nodes|))
                                         else old(nodes)[cur].(left := old(|nodes|))]
                       + [Node(k, v, cur, Null, Null)]
    {
      ghost var j := LowerBound(Contents(), k);
      ghost var t, nodes0 := shape, nodes;
      var n := |nodes|;
      cur, path, d := Locate(k);
      assert cur in InOrder(t) by {
        RootIn(SubAt(t, path));
        SplitAt(t, path);
      }
      if !d {
        nodes := nodes[cur := nodes[cur].(left := n)] + [Node(k, v, cur, Null, Null)];
      } else {
        nodes := nodes[cur := nodes[cur].(right := n)] + [Node(k, v, cur, Null, Null)];
      }
      assert root == RootId(t) && size == |InOrder(t)|;
      shape := InsertLeaf(t, nodes0, path, d, k, v, nodes, j);
      size := size + 1;
    }

    /** remove's childless case: the parent forgets the node (its left
        link if that is the node, its right link otherwise). The parent is
        read without a check, so the node must not be the root. */
    method RemoveLeaf(node: int, ghost path: seq<bool>) returns (ghost ix: nat)
      requires Valid() && ValidPath(shape, path) && SubAt(shape, path).Branch? && node == SubAt(shape, path).id
      requires SubAt(shape, path).left == Nil && SubAt(shape, path).right == Nil && path != []
      modifies this
      ensures Valid() && root == old(root)
      ensures ix < |old(Order())| && old(Order())[ix] == node && Contents() == Drop(old(Contents()), ix)
      ensures shape == ReplaceAt(old(shape), path, Nil)
    {
      ghost var t, nodes0 := shape, nodes;
      ghost var up, d := path[..|path| - 1], path[|path| - 1];
      assert path == up + [d];
      Retract(t, up, d);
      Extend(t, up, d, Null);
      LinkedAt(t, Null, path, nodes);
      LinkedAt(t, Null, up, nodes);
      var p := nodes[node].parent;
      if nodes[p].left == node {
        LeftChildStep(t, up, d, nodes);
        nodes := nodes[p := nodes[p].(left := Null)];
      } else {
        nodes := nodes[p := nodes[p].(right := Null)];
      }
      ix := |Before(t, up + [d])|;
      shape := Unlink(t, nodes0, up, d, nodes, ix);
      size := size - 1;
    }
  
    /** remove's case of a node whose left child is null: it takes over its
        right child's pair and children and adopts them. */
    method RemoveLiftRight(node: int, ghost path: seq<bool>) returns (ghost ix: nat)
      requires Valid() && ValidPath(shape, path) && SubAt(shape, path).Branch? && node == SubAt(shape, path).id
      requires SubAt(shape, path).left == Nil && SubAt(shape, path).right.Branch?
      modifies this
      ensures Valid() && root == old(root)
      ensures ix < |old(Order())| && old(Order())[ix] == node && Contents() == Drop(old(Contents()), ix)
      ensures shape == ReplaceAt(old(shape), path, Branch(node, old(SubAt(shape, path)).right.left, old(SubAt(shape, path)).right.right))
    {
      ghost var t, nodes0 := shape, nodes;
      LinkedAt(t, Null, path, nodes);
      var right := nodes[node].right;
      var rn := nodes[right];
      nodes := nodes[node := Node(rn.key, rn.value, nodes[node].parent, rn.left, rn.right)];
      nodes := Adopt(nodes, rn.right, node);
      nodes := Adopt(nodes, rn.left, node);
      ix := |Before(t, path)|;
      shape := LiftRight(t, nodes0, path, nodes, ix);
      size := size - 1;
    }

    /** remove's case of a node whose right child is null: the mirror image
        of RemoveLiftRight. */
    method RemoveLiftLeft(node: int, ghost path: seq<bool>) returns (ghost ix: nat)
      requires Valid() && ValidPath(shape, path) && SubAt(shape, path).Branch? && node == SubAt(shape, path).id
      requires SubAt(shape, path).right == Nil && SubAt(shape, path).left.Branch?
      modifies this
      ensures Valid() && root == old(root)
      ensures ix < |old(Order())| && old(Order())[ix] == node && Contents() == Drop(old(Contents()), ix)
      ensures shape == ReplaceAt(old(shape), path, Branch(node, old(SubAt(shape, path)).left.left, old(SubAt(shape, path)).left.right))
    {
      ghost var t, nodes0 := shape, nodes;
      LinkedAt(t, Null, path, nodes);
      var left := nodes[node].left;
      var ln := nodes[left];
      nodes := nodes[node := Node(ln.key, ln.value, nodes[node].parent, ln.left, ln.right)];
      nodes := Adopt(nodes, ln.right, node);
      nodes := Adopt(nodes, ln.left, node);
      ix := |Before(t, path)| + |InOrder(SubAt(t, path).left)|;
      shape := LiftLeft(t, nodes0, path, nodes, ix);
      size := size - 1;
    }

    /** remove's case of a node with two children whose right child has no
        left child: the node takes over the right child's pair and right
        subtree. The new right child is given the node as parent, which the
        source omits (see SpliceAsWritten). */
    method RemoveSplice(node: int, ghost path: seq<bool>) returns (ghost ix: nat)
      requires Valid() && ValidPath(shape, path) && SubAt(shape, path).Branch? && node == SubAt(shape, path).id
      requires SubAt(shape, path).right.Branch? && SubAt(shape, path).right.left == Nil
      modifies this
      ensures Valid() && root == old(root)
      ensures ix < |old(Order())| && old(Order())[ix] == node && Contents() == Drop(old(Contents()), ix)
      ensures shape == ReplaceAt(old(shape), path, Branch(node, old(SubAt(shape, path)).left, old(SubAt(shape, path)).right.right))
    {
      ghost var t, nodes0 := shape, nodes;
      LinkedAt(t, Null, path, nodes);
      var right := nodes[node].right;
      var newNode := nodes[right].right;
      nodes := nodes[node := nodes[node].(key := nodes[right].key, value := nodes[right].value, right := newNode)];
      nodes := Adopt(nodes, newNode, node);
      ix := |Before(t, path)| + |InOrder(SubAt(t, path).left)|;
      shape := Splice(t, nodes0, path, nodes, ix);
      size := size - 1;
    }
  
    /** remove(key, node): descend from node as find does and unlink the
        first node carrying key (RemoveAt). Unlinking a childless node reads
        its parent, so the node found must not be a lone root. */
    method Remove(k: int, node: int, ghost path: seq<bool>) returns (ghost ix: int)
      requires Valid() && ValidPath(shape, path) && node == RootId(SubAt(shape, path))
      requires Stored(SubAt(shape, path), nodes)
      requires |Order()| > 1 || FindNode(SubAt(shape, path), k, nodes) == Null
      modifies this
      ensures Valid() && root == old(root)
      ensures var f := FindNode(SubAt(old(shape), path), k, old(nodes));
              && (f == Null ==> Contents() == old(Contents()))
              && (f != Null ==> 0 <= ix < |old(Order())| && old(Order())[ix] == f
                                && old(Contents())[ix].0 == k
                                && Contents() == Drop(old(Contents()), ix))
      decreases |InOrder(SubAt(shape, path))|, 2
    {
      ix := 0;
      if node == Null {
        return;
      }
      LinkedAt(shape, Null, path, nodes);
      if k > nodes[node].key {
        Extend(shape, path, true, Null);
        ix := Remove(k, nodes[node].right, path + [true]);
      } else if k < nodes[node].key {
        Extend(shape, path, false, Null);
        ix := Remove(k, nodes[node].left, path + [false]);
      } else {
        ix := RemoveAt(node, path);
      }
    }

    /** The body of remove once node carries the key: a childless node is cut
        from its parent, a node with one child takes over that child, and a
        node with two children takes over its in-order successor's pair. */
    method RemoveAt(node: int, ghost path: seq<bool>) returns (ghost ix: nat)
      requires Valid() && ValidPath(shape, path) && SubAt(shape, path).Branch? && node == SubAt(shape, path).id
      requires |Order()| > 1
      modifies this
      ensures Valid() && root == old(root)
      ensures ix < |old(Order())| && old(Order())[ix] == node && Contents() == Drop(old(Contents()), ix)
      decreases |InOrder(SubAt(shape, path))|, 1
    {
      ghost var t := shape;
      ghost var u := SubAt(t, path);
      LinkedAt(t, Null, path, nodes);
      if nodes[node].left == Null && nodes[node].right == Null {
        assert InOrder(u) == [node] && SubAt(t, []) == t;
        ix := RemoveLeaf(node, path);
      } else if nodes[node].left == Null {
        ix := RemoveLiftRight(node, path);
      } else if nodes[node].right == Null {
        ix := RemoveLiftLeft(node, path);
      } else {
        Extend(t, path, true, Null);
        LinkedAt(t, Null, path + [true], nodes);
        if nodes[nodes[node].right].left == Null {
          ix := RemoveSplice(node, path);
        } else {
          ix := RemoveSuccessor(node, path);
        }
      }
    }

    /** remove's general two-child case: copy the pair of the in-order
        successor (Leftmost) into the node, then remove the successor by a
        search for its key that starts at the successor itself. */
    method RemoveSuccessor(node: int, ghost path: seq<bool>) returns (ghost ix: nat)
      requires Valid() && ValidPath(shape, path) && SubAt(shape, path).Branch? && node == SubAt(shape, path).id
      requires SubAt(shape, path).left.Branch? && SubAt(shape, path).right.Branch?
      requires SubAt(shape, path).right.left.Branch?
      modifies this
      ensures Valid() && root == old(root)
      ensures ix < |old(Order())| && old(Order())[ix] == node && Contents() == Drop(old(Contents()), ix)
      decreases |InOrder(SubAt(shape, path))|, 0
    {
      ghost var t, nodes0, c := shape, nodes, Contents();
      ghost var u := SubAt(t, path);
      ix := |Before(t, path)| + |InOrder(u.left)|;
      var minNode, mp := Leftmost(node, path);
      LinkedAt(t, Null, path, nodes);
      assert Tree(t, nodes0);
      nodes := nodes[node := nodes[node].(key := nodes[minNode].key, value := nodes[minNode].value)];
      CopyLeftmost(t, nodes0, path, mp, ix, nodes);
      ghost var nodes1 := nodes;
      assert shape == t && |InOrder(t)| > 1;
      assert Valid();
      ghost var jx := Remove(nodes[minNode].key, minNode, mp);
      SuccessorDropped(t, nodes0, ix, nodes1, jx, Contents());
    }

    /** erase(key): while find(key) meets a node, remove(key) from the root.
        Every pair with key k goes and the rest stay in order. The last
        removal must not be of a lone root, so either k is absent or some
        pair has another key. */
    method Erase(k: int)
      requires Valid()
      requires HasKey(Contents(), k) ==> WithoutKey(Contents(), k) != []
      modifies this
      ensures Valid() && Contents() == WithoutKey(old(Contents()), k)
    {
      ghost var w := WithoutKey(Contents(), k);
      var it := Find(k);
      while it != Null
        invariant Valid() && WithoutKey(Contents(), k) == w
        invariant HasKey(Contents(), k) ==> w != []
        invariant Stored(shape, nodes) && it == FindNode(shape, k, nodes)
        invariant it == Null <==> !HasKey(Contents(), k)
        decreases |Contents()|
      {
        ghost var c := Contents();
        KeyAndOther(c, k);
        ghost var ix := Remove(k, root, []);
        WithoutKeyDelete(c, ix, k);
        it := Find(k);
      }
      WithoutKeyAbsent(Contents(), k);
    }

    /** equalRange(key): from the node find(key) meets, walk back while the
        key repeats (stopping at begin()) to the first pair with key k; the
        range ends just after the node found. Pairs with key k that come
        after the node found are outside the range. */
    method EqualRange(k: int) returns (start: int, stop: int, ghost f: nat)
      requires Valid()
      ensures !HasKey(Contents(), k) ==> start == Null && stop == Null
      ensures HasKey(Contents(), k) ==>
                && LowerBound(Contents(), k) <= f < |Contents()|
                && (forall i :: LowerBound(Contents(), k) <= i <= f ==> Contents()[i].0 == k)
                && Stored(shape, nodes) && Order()[f] == FindNode(shape, k, nodes)
                && start == Order()[LowerBound(Contents(), k)] && stop == SlotAt(Order(), f + 1)
    {
      ghost var t, ns, o, c := shape, nodes, Order(), Contents();
      ghost var lo := LowerBound(c, k);
      var it := Find(k);
      assert shape == t && nodes == ns;
      start, stop := it, it;
      f := 0;
      if start == Null {
        return;
      }
      f := IndexOf(it);
      assert Sorted(c) && c[f].0 == k;
      stop := Next(stop, f);
      assert shape == t && nodes == ns && stop == SlotAt(o, f + 1);
      var first := Begin();
      assert shape == t && nodes == ns;
      SortedBlock(c, k, f);
      if nodes[first].key == k {
        assert c[0].0 == k;
        return first, stop, f;
      }
      start := BlockFirst(k, start, first, f);
      assert shape == t && nodes == ns;
    }

    /** equalRange's walk back: from the node at position f, which holds key
        k, step back while the key is k, stopping at begin() (which does not
        hold k), then forward once: the first pair with key k. */
    method BlockFirst(k: int, it: int, first: int, ghost f: nat) returns (start: int)
      requires Valid() && f < |Order()| && it == Order()[f] && Contents()[f].0 == k
      requires first == Order()[0] && Contents()[0].0 != k
      ensures start == Order()[LowerBound(Contents(), k)]
    {
      ghost var o, c := Order(), Contents();
      ghost var lo := LowerBound(c, k);
      assert Sorted(c);
      start := it;
      ghost var j := f;
      while start != first && nodes[start].key == k
        invariant lo <= j + 1 && j <= f && start == o[j]
        decreases j
      {
        assert c[j].0 == k && j != 0;
        start := Prev(start, j);
        j := j - 1;
      }
      if start == first {
        assert j == 0 by {
          if j != 0 {
            OrderDistinct(j, 0);
          }
        }
      }
      BlockStart(c, k, j, f);
      start := Next(start, j);
    }

    /** min(key): over equalRange(key), the first pair whose value is
        strictly below every earlier one, i.e. the first pair of least
        value; end() when the key is absent. */
    method Min(k: int) returns (it: int, ghost mi: nat, ghost f: nat)
      requires Valid()
      ensures !HasKey(Contents(), k) ==> it == Null
      ensures HasKey(Contents(), k) ==>
                && LowerBound(Contents(), k) <= mi <= f < |Contents()| && Contents()[f].0 == k
                && Stored(shape, nodes) && Order()[f] == FindNode(shape, k, nodes)
                && it == Order()[mi]
                && (forall i :: LowerBound(Contents(), k) <= i <= f ==> Contents()[mi].1 <= Contents()[i].1)
                && (forall i :: LowerBound(Contents(), k) <= i < mi ==> Contents()[mi].1 < Contents()[i].1)
    {
      var start, stop;
      start, stop, f := EqualRange(k);
      it, mi := start, 0;
      if start != Null {
        it, mi := ScanMin(start, stop, LowerBound(Contents(), k), f);
      }
    }

    /** min's loop over [start, stop): the iterator holding the first least
        value. start sits at position lo and stop just after position f. */
    method ScanMin(start: int, stop: int, ghost lo: nat, ghost f: nat) returns (it: int, ghost mi: nat)
      requires Valid() && lo <= f < |Order()| && start == Order()[lo] && stop == SlotAt(Order(), f + 1)
      ensures lo <= mi <= f && it == Order()[mi]
      ensures forall i :: lo <= i <= f ==> Contents()[mi].1 <= Contents()[i].1
      ensures forall i :: lo <= i < mi ==> Contents()[mi].1 < Contents()[i].1
    {
      ghost var o, c := Order(), Contents();
      SlotDistinct(lo, f + 1);
      it, mi := start, lo;
      var cur := start;
      ghost var j := lo;
      while cur != stop
        invariant lo <= mi <= f && mi <= j <= f + 1 && cur == SlotAt(o, j) && it == o[mi]
        invariant j <= f ==> cur != stop
        invariant forall i :: lo <= i < j ==> c[mi].1 <= c[i].1
        invariant forall i :: lo <= i < mi ==> c[mi].1 < c[i].1
        decreases f + 1 - j
      {
        assert nodes[cur].value == c[j].1 && nodes[it].value == c[mi].1;
        if nodes[cur].value < nodes[it].value {
          it, mi := cur, j;
        }
        cur := Next(cur, j);
        j := j + 1;
        if j <= f {
          SlotDistinct(j, f + 1);
        }
      }
    }

    /** max(key): over equalRange(key), the first pair whose value is
        strictly above every earlier one, i.e. the first pair of greatest
        value; end() when the key is absent. */
    method Max(k: int) returns (it: int, ghost mi: nat, ghost f: nat)
      requires Valid()
      ensures !HasKey(Contents(), k) ==> it == Null
      ensures HasKey(Contents(), k) ==>
                && LowerBound(Contents(), k) <= mi <= f < |Contents()| && Contents()[f].0 == k
                && Stored(shape, nodes) && Order()[f] == FindNode(shape, k, nodes)
                && it == Order()[mi]
                && (forall i :: LowerBound(Contents(), k) <= i <= f ==> Contents()[mi].1 >= Contents()[i].1)
                && (forall i :: LowerBound(Contents(), k) <= i < mi ==> Contents()[mi].1 > Contents()[i].1)
    {
      var start, stop;
      start, stop, f := EqualRange(k);
      it, mi := start, 0;
      if start != Null {
        it, mi := ScanMax(start, stop, LowerBound(Contents(), k), f);
      }
    }

    /** max's loop over [start, stop): the iterator holding the first
        greatest value. */
    method ScanMax(start: int, stop: int, ghost lo: nat, ghost f: nat) returns (it: int, ghost mi: nat)
      requires Valid() && lo <= f < |Order()| && start == Order()[lo] && stop == SlotAt(Order(), f + 1)
      ensures lo <= mi <= f && it == Order()[mi]
      ensures forall i :: lo <= i <= f ==> Contents()[mi].1 >= Contents()[i].1
      ensures forall i :: lo <= i < mi ==> Contents()[mi].1 > Contents()[i].1
    {
      ghost var o, c := Order(), Contents();
      SlotDistinct(lo, f + 1);
      it, mi := start, lo;
      var cur := start;
      ghost var j := lo;
      while cur != stop
        invariant lo <= mi <= f && mi <= j <= f + 1 && cur == SlotAt(o, j) && it == o[mi]
        invariant j <= f ==> cur != stop
        invariant forall i :: lo <= i < j ==> c[mi].1 >= c[i].1
        invariant forall i :: lo <= i < mi ==> c[mi].1 > c[i].1
        decreases f + 1 - j
      {
        assert nodes[cur].value == c[j].1 && nodes[it].value == c[mi].1;
        if nodes[cur].value > nodes[it].value {
          it, mi := cur, j;
        }
        cur := Next(cur, j);
        j := j + 1;
        if j <= f {
          SlotDistinct(j, f + 1);
        }
      }
    }
  }
}

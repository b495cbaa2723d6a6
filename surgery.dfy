/** What insert and remove do to the arena and the shape, stated on values:
    each rebuilding step keeps the tree well formed and changes the stored
    pairs in exactly one place. */
module Surgery {
  import opened Entries
  import opened Shapes

  /** A well-formed tree over an arena: linked both ways, no slot twice, and
      in-order keys never decreasing. */
  ghost predicate Tree(t: Shape, nodes: seq<Node>) {
    && Linked(t, Null, nodes)
    && Distinct(InOrder(t))
    && InArena(InOrder(t), nodes)
    && Sorted(Pairs(InOrder(t), nodes))
  }

  /** Tree, read off a known in-order sequence. */
  lemma TreeFrom(t: Shape, nodes: seq<Node>, io: seq<nat>)
    requires InOrder(t) == io && Linked(t, Null, nodes)
    requires Distinct(io) && InArena(io, nodes) && Sorted(Pairs(io, nodes))
    ensures Tree(t, nodes)
  {
  }

  /** insert's descent so far: every pair before the subtree at path has a
      key below k, every pair after it a key of at least k. */
  ghost predicate Straddles(t: Shape, nodes: seq<Node>, path: seq<bool>, k: int) {
    && Tree(t, nodes)
    && ValidPath(t, path)
    && var c := Pairs(InOrder(t), nodes);
       var lo := |Before(t, path)|;
       var hi := lo + |InOrder(SubAt(t, path))|;
       && (forall i :: 0 <= i < lo && i < |c| ==> c[i].0 < k)
       && (forall i :: hi <= i < |c| ==> c[i].0 >= k)
  }

  /** The slot at position |Before| + |left| of the in-order sequence is the
      root of the subtree at path, and its pair is that slot's pair. */
  lemma RootPosition(t: Shape, nodes: seq<Node>, path: seq<bool>)
    requires InArena(InOrder(t), nodes) && ValidPath(t, path) && SubAt(t, path).Branch?
    ensures var u := SubAt(t, path); var px := |Before(t, path)| + |InOrder(u.left)|;
            && px < |InOrder(t)| && InOrder(t)[px] == u.id
            && Pairs(InOrder(t), nodes)[px] == (nodes[u.id].key, nodes[u.id].value)
  {
    RootIndex(t, path);
  }

  /** The leftmost node of a right subtree comes right after the subtree's
      parent in in-order: it is the in-order successor. */
  lemma SuccessorPosition(t: Shape, path: seq<bool>, mp: seq<bool>)
    requires ValidPath(t, path) && SubAt(t, path).Branch?
    requires ValidPath(t, mp) && SubAt(t, mp).Branch? && SubAt(t, mp).left == Nil
    requires Before(t, mp) == Before(t, path) + InOrder(SubAt(t, path).left) + [SubAt(t, path).id]
    ensures var ix := |Before(t, path)| + |InOrder(SubAt(t, path).left)|;
            && ix + 1 < |InOrder(t)|
            && InOrder(t)[ix] == SubAt(t, path).id && InOrder(t)[ix + 1] == SubAt(t, mp).id
  {
    SplitAt(t, mp);
    var m := SubAt(t, mp);
    assert InOrder(m) == [m.id] + InOrder(m.right);
  }

  /** One step of insert's descent (left when the key is at least k, right
      otherwise) keeps the straddling. */
  lemma StraddleStep(t: Shape, nodes: seq<Node>, path: seq<bool>, k: int)
    requires Straddles(t, nodes, path, k) && SubAt(t, path).Branch? && SubAt(t, path).id < |nodes|
    ensures ValidPath(t, path + [nodes[SubAt(t, path).id].key < k])
    ensures Straddles(t, nodes, path + [nodes[SubAt(t, path).id].key < k], k)
  {
    var u := SubAt(t, path);
    var d := nodes[u.id].key < k;
    Extend(t, path, d, Null);
    SplitAt(t, path);
    RootPosition(t, nodes, path);
    var c := Pairs(InOrder(t), nodes);
    var lo := |Before(t, path)|;
    var px := lo + |InOrder(u.left)|;
    var hi := lo + |InOrder(u)|;
    if d {
      forall i | lo <= i <= px ensures c[i].0 < k {
        assert c[i].0 <= c[px].0;
      }
    } else {
      forall i | px <= i < hi ensures c[i].0 >= k {
        assert c[px].0 <= c[i].0;
      }
    }
  }

  /** A leaf hung at an empty spot of the shape lands between the slots
      before and after that spot. */
  lemma LeafSlot(t: Shape, path: seq<bool>, n: nat)
    requires ValidPath(t, path) && SubAt(t, path) == Nil
    ensures var j := |Before(t, path)|;
            && j <= |InOrder(t)|
            && InOrder(ReplaceAt(t, path, Branch(n, Nil, Nil))) == InOrder(t)[..j] + [n] + InOrder(t)[j..]
  {
    SplitAt(t, path);
    ReplaceInOrder(t, path, Branch(n, Nil, Nil));
    var a, b := Before(t, path), After(t, path);
    assert InOrder(t) == a + b;
    assert InOrder(t)[..|a|] == a && InOrder(t)[|a|..] == b;
  }

  /** When the descent reaches an empty spot, the slots before it are exactly
      those whose keys are below k: the spot is the lower bound of k. */
  lemma StraddleBound(t: Shape, nodes: seq<Node>, path: seq<bool>, k: int)
    requires Straddles(t, nodes, path, k) && SubAt(t, path) == Nil
    ensures |Before(t, path)| == LowerBound(Pairs(InOrder(t), nodes), k)
  {
    SplitAt(t, path);
    LowerBoundUnique(Pairs(InOrder(t), nodes), k, |Before(t, path)|);
  }

  /** nodes' keeps every slot of nodes except x. */
  ghost predicate SameExcept(nodes: seq<Node>, nodes': seq<Node>, x: int) {
    |nodes| <= |nodes'| && forall y :: 0 <= y < |nodes| && y != x ==> nodes'[y] == nodes[y]
  }

  /** insert's fresh leaf is linked in: the tree stays linked both ways. */
  lemma LeafLinks(t: Shape, nodes: seq<Node>, path: seq<bool>, d: bool, w: Node, leaf: Node, nodes': seq<Node>)
    requires Linked(t, Null, nodes) && Distinct(InOrder(t))
    requires ValidPath(t, path) && SubAt(t, path).Branch? && Child(SubAt(t, path), d) == Nil
    requires var x := SubAt(t, path).id;
             && x < |nodes|
             && w == (if d then nodes[x].(right := |nodes|) else nodes[x].(left := |nodes|))
             && leaf == Node(leaf.key, leaf.value, x, Null, Null)
             && nodes' == nodes[x := w] + [leaf]
    ensures ValidPath(t, path + [d])
    ensures Linked(ReplaceAt(t, path + [d], Branch(|nodes|, Nil, Nil)), Null, nodes')
  {
    var u := SubAt(t, path);
    var x, n := u.id, |nodes|;
    var l := Branch(n, Nil, Nil);
    var s := if d then Branch(x, u.left, l) else Branch(x, l, u.right);
    ReplaceExtend(t, path, d, l);
    LinkedAt(t, Null, path, nodes);
    SubDistinct(t, path);
    assert SameExcept(nodes, nodes', x) && |nodes'| == n + 1 && nodes'[x] == w && nodes'[n] == leaf;
    LeafOutside(t, path, nodes, nodes');
    LeafSibling(u, ParentAt(t, Null, path), !d, nodes, nodes');
    assert Linked(s, ParentAt(t, Null, path), nodes') by {
      assert Linked(l, x, nodes');
    }
    LinkedReplace(t, Null, path, s, nodes, nodes');
  }

  /** The slots outside the subtree at path are not its root, so an arena
      changed only at the root keeps them. */
  lemma LeafOutside(t: Shape, path: seq<bool>, nodes: seq<Node>, nodes': seq<Node>)
    requires Linked(t, Null, nodes) && Distinct(InOrder(t))
    requires ValidPath(t, path) && SubAt(t, path).Branch?
    requires SameExcept(nodes, nodes', SubAt(t, path).id)
    ensures SameOn(Before(t, path) + After(t, path), nodes, nodes')
  {
    var x := SubAt(t, path).id;
    SplitAt(t, path);
    LinkedInArena(t, Null, nodes);
    var a, b := Before(t, path), After(t, path);
    DistinctParts(a, InOrder(SubAt(t, path)), b);
    forall y | y in a + b ensures 0 <= y < |nodes| && y != x {
      assert y in InOrder(t);
    }
  }

  /** The other child of a node changed only at its own slot stays linked
      under it. */
  lemma LeafSibling(u: Shape, p: int, right: bool, nodes: seq<Node>, nodes': seq<Node>)
    requires Linked(u, p, nodes) && u.Branch? && Distinct(InOrder(u))
    requires SameExcept(nodes, nodes', u.id)
    ensures Linked(Child(u, right), u.id, nodes')
  {
    var x, other := u.id, Child(u, right);
    assert InOrder(u) == InOrder(u.left) + [x] + InOrder(u.right);
    DistinctParts(InOrder(u.left), [x], InOrder(u.right));
    LinkedInArena(other, x, nodes);
    assert SameLinksOn(InOrder(other), nodes, nodes') by {
      forall y | y in InOrder(other) ensures 0 <= y < |nodes| && y != x {
        var i :| 0 <= i < |InOrder(other)| && InOrder(other)[i] == y;
        assert x in [x];
        assert y in InOrder(u.left) + InOrder(u.right);
      }
    }
    LinkedFrame(other, x, nodes, nodes');
  }

  /** insert's last step: a fresh leaf (k, v) hung where the descent ran out
      sits right at the lower bound of k, and the tree stays well formed. */
  lemma InsertLeaf(t: Shape, nodes: seq<Node>, path: seq<bool>, d: bool, k: int, v: int, nodes': seq<Node>, j: nat)
      returns (t': Shape)
    requires Tree(t, nodes) && ValidPath(t, path) && SubAt(t, path).Branch?
    requires ValidPath(t, path + [d]) && SubAt(t, path + [d]) == Nil
    requires j == |Before(t, path + [d])| == LowerBound(Pairs(InOrder(t), nodes), k)
    requires SubAt(t, path).id < |nodes| && Child(SubAt(t, path), d) == Nil
    requires nodes' == nodes[SubAt(t, path).id := if d then nodes[SubAt(t, path).id].(right := |nodes|)
                                                   else nodes[SubAt(t, path).id].(left := |nodes|)]
                       + [Node(k, v, SubAt(t, path).id, Null, Null)]
    ensures t' == ReplaceAt(t, path + [d], Branch(|nodes|, Nil, Nil))
    ensures Tree(t', nodes') && RootId(t') == RootId(t) && |InOrder(t')| == |InOrder(t)| + 1
    ensures InOrder(t') == InOrder(t)[..j] + [|nodes|] + InOrder(t)[j..]
    ensures Pairs(InOrder(t'), nodes') == Pairs(InOrder(t), nodes)[..j] + [(k, v)] + Pairs(InOrder(t), nodes)[j..]
  {
    var x, n := SubAt(t, path).id, |nodes|;
    var io := InOrder(t);
    var c := Pairs(io, nodes);
    t' := ReplaceAt(t, path + [d], Branch(n, Nil, Nil));
    LeafSlot(t, path + [d], n);
    var w := if d then nodes[x].(right := n) else nodes[x].(left := n);
    LeafLinks(t, nodes, path, d, w, Node(k, v, x, Null, Null), nodes');
    assert n !in io;
    DistinctInsertAt(io, j, n);
    PairsInsertAt(io, j, n, nodes, nodes');
    forall i | j <= i < |c| ensures k <= c[i].0 {
      SortedLowerBound(c, k, i);
    }
    SortedInsert(c, j, (k, v));
  }

  /** insert into an empty tree: the new node is the whole tree. */
  lemma InsertRoot(nodes: seq<Node>, k: int, v: int, nodes': seq<Node>)
    requires nodes' == nodes + [Node(k, v, Null, Null, Null)]
    ensures Tree(Branch(|nodes|, Nil, Nil), nodes')
    ensures InOrder(Branch(|nodes|, Nil, Nil)) == [|nodes|]
    ensures Pairs(InOrder(Branch(|nodes|, Nil, Nil)), nodes') == [(k, v)]
  {
    assert InOrder(Branch(|nodes|, Nil, Nil)) == [|nodes|];
    assert multiset([|nodes|])[|nodes|] == 1;
  }
}

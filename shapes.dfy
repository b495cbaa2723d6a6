/** The node arena of BinarySearchTree and the ghost shape that describes how
    its slots are linked into a tree. */
module Shapes {
  import opened Entries

  /** The null node index: nullptr in the arena, and the end iterator. */
  const Null: int := -1

  /** One arena slot: BinarySearchTree::Node, its pointers as slot indices. */
  datatype Node = Node(key: int, value: int, parent: int, left: int, right: int)

  /** The tree as it hangs together: each branch names the arena slot of its
      node. */
  datatype Shape = Nil | Branch(id: nat, left: Shape, right: Shape)

  function RootId(t: Shape): int {
    if t.Nil? then Null else t.id
  }

  /** Slots in in-order: left subtree, node, right subtree. */
  ghost function InOrder(t: Shape): seq<nat> {
    match t
    case Nil => []
    case Branch(i, l, r) => InOrder(l) + [i] + InOrder(r)
  }

  /** No slot occurs twice in a sequence of slots. */
  ghost predicate Distinct(s: seq<int>) {
    forall x :: multiset(s)[x] <= 1
  }

  /** Every slot of t is in the arena and its parent, left and right fields
      point at exactly the neighbours t gives it; p is the parent of t's root. */
  ghost predicate Linked(t: Shape, p: int, nodes: seq<Node>) {
    match t
    case Nil => true
    case Branch(i, l, r) =>
      && i < |nodes|
      && nodes[i].parent == p
      && nodes[i].left == RootId(l)
      && nodes[i].right == RootId(r)
      && Linked(l, i, nodes)
      && Linked(r, i, nodes)
  }

  ghost predicate InArena(s: seq<int>, nodes: seq<Node>) {
    forall i :: 0 <= i < |s| ==> 0 <= s[i] < |nodes|
  }

  ghost predicate SameLinks(a: Node, b: Node) {
    a.parent == b.parent && a.left == b.left && a.right == b.right
  }

  /** The slots in s have the same parent, left and right in both arenas. */
  ghost predicate SameLinksOn(s: seq<int>, nodes: seq<Node>, nodes': seq<Node>) {
    forall x :: x in s ==> 0 <= x < |nodes| && x < |nodes'| && SameLinks(nodes[x], nodes'[x])
  }

  /** The slots in s are the same in both arenas. */
  ghost predicate SameOn(s: seq<int>, nodes: seq<Node>, nodes': seq<Node>) {
    forall x :: x in s ==> 0 <= x < |nodes| && x < |nodes'| && nodes'[x] == nodes[x]
  }

  /** Every slot of nodes is still there in nodes' with the same key and
      value: only links changed. */
  ghost predicate SameEntries(nodes: seq<Node>, nodes': seq<Node>) {
    && |nodes| <= |nodes'|
    && forall y :: 0 <= y < |nodes| ==> nodes'[y].key == nodes[y].key && nodes'[y].value == nodes[y].value
  }

  /** The (key, value) pairs stored in the given slots, in that order. */
  ghost function Pairs(s: seq<int>, nodes: seq<Node>): seq<Entry>
    requires InArena(s, nodes)
  {
    seq(|s|, i requires 0 <= i < |s| => (nodes[s[i]].key, nodes[s[i]].value))
  }

  /** Every slot of t lies in the arena. */
  ghost predicate Stored(t: Shape, nodes: seq<Node>) {
    t.Branch? ==> t.id < |nodes| && Stored(t.left, nodes) && Stored(t.right, nodes)
  }

  /** The node find() stops at: the first node on the search path whose key
      equals k, or Null when the path runs out. */
  ghost function FindNode(t: Shape, k: int, nodes: seq<Node>): int
    requires Stored(t, nodes)
  {
    match t
    case Nil => Null
    case Branch(i, l, r) =>
      if nodes[i].key > k then FindNode(l, k, nodes)
      else if nodes[i].key < k then FindNode(r, k, nodes)
      else i
  }

  // ---------------------------------------------------------------------
  // Paths from the root: true steps to the right child, false to the left.

  ghost function Child(t: Shape, right: bool): Shape
    requires t.Branch?
  {
    if right then t.right else t.left
  }

  ghost predicate ValidPath(t: Shape, path: seq<bool>)
    decreases |path|
  {
    path == [] || (t.Branch? && ValidPath(Child(t, path[0]), path[1..]))
  }

  ghost function SubAt(t: Shape, path: seq<bool>): Shape
    requires ValidPath(t, path)
    decreases |path|
  {
    if path == [] then t else SubAt(Child(t, path[0]), path[1..])
  }

  /** t with the subtree at path replaced by s. */
  ghost function ReplaceAt(t: Shape, path: seq<bool>, s: Shape): Shape
    requires ValidPath(t, path)
    decreases |path|
  {
    if path == [] then s
    else if path[0] then Branch(t.id, t.left, ReplaceAt(t.right, path[1..], s))
    else Branch(t.id, ReplaceAt(t.left, path[1..], s), t.right)
  }

  /** The slots that come before the subtree at path, in in-order. */
  ghost function Before(t: Shape, path: seq<bool>): seq<nat>
    requires ValidPath(t, path)
    decreases |path|
  {
    if path == [] then []
    else if path[0] then InOrder(t.left) + [t.id] + Before(t.right, path[1..])
    else Before(t.left, path[1..])
  }

  /** The slots that come after the subtree at path, in in-order. */
  ghost function After(t: Shape, path: seq<bool>): seq<nat>
    requires ValidPath(t, path)
    decreases |path|
  {
    if path == [] then []
    else if path[0] then After(t.right, path[1..])
    else After(t.left, path[1..]) + [t.id] + InOrder(t.right)
  }

  /** The slot of the parent of the subtree at path (p at the root). */
  ghost function ParentAt(t: Shape, p: int, path: seq<bool>): int
    requires ValidPath(t, path)
    decreases |path|
  {
    if path == [] then p else ParentAt(Child(t, path[0]), t.id, path[1..])
  }

  /** The path from the root to the subtree whose root slot is x. */
  ghost function PathTo(t: Shape, x: int): (path: seq<bool>)
    requires x in InOrder(t)
    ensures ValidPath(t, path) && SubAt(t, path).Branch? && SubAt(t, path).id == x
  {
    if t.id == x then []
    else if x in InOrder(t.left) then [false] + PathTo(t.left, x)
    else [true] + PathTo(t.right, x)
  }

  // ---------------------------------------------------------------------
  // In-order decomposition along a path.

  /** Replacing the subtree at path changes only the middle of the in-order
      sequence: what comes before and after it stays. */
  lemma {:induction false} ReplaceInOrder(t: Shape, path: seq<bool>, s: Shape)
    requires ValidPath(t, path)
    ensures InOrder(ReplaceAt(t, path, s)) == Before(t, path) + InOrder(s) + After(t, path)
  {
    if path != [] {
      ReplaceInOrder(Child(t, path[0]), path[1..], s);
    }
  }

  /** The in-order sequence of t is the slots before the subtree at path, the
      subtree's own, and the slots after it. */
  lemma {:induction false} SplitAt(t: Shape, path: seq<bool>)
    requires ValidPath(t, path)
    ensures InOrder(t) == Before(t, path) + InOrder(SubAt(t, path)) + After(t, path)
  {
    if path != [] {
      SplitAt(Child(t, path[0]), path[1..]);
    }
  }

  /** The root of the subtree at path sits in in-order after the slots
      before the subtree and the subtree's left part. */
  lemma RootIndex(t: Shape, path: seq<bool>)
    requires ValidPath(t, path) && SubAt(t, path).Branch?
    ensures |Before(t, path)| + |InOrder(SubAt(t, path).left)| < |InOrder(t)|
    ensures InOrder(t)[|Before(t, path)| + |InOrder(SubAt(t, path).left)|] == SubAt(t, path).id
  {
    SplitAt(t, path);
    var u := SubAt(t, path);
    assert InOrder(u) == InOrder(u.left) + [u.id] + InOrder(u.right);
  }

  /** The first and last slots of the subtree at path, placed in the whole
      in-order sequence. */
  lemma EndsIndex(t: Shape, path: seq<bool>)
    requires ValidPath(t, path) && SubAt(t, path).Branch?
    ensures |Before(t, path)| + |InOrder(SubAt(t, path))| <= |InOrder(t)|
    ensures InOrder(t)[|Before(t, path)|] == InOrder(SubAt(t, path))[0]
    ensures InOrder(t)[|Before(t, path)| + |InOrder(SubAt(t, path))| - 1]
            == InOrder(SubAt(t, path))[|InOrder(SubAt(t, path))| - 1]
  {
    SplitAt(t, path);
  }

  /** One step further down a path, and what it does to the slots before and
      after. */
  lemma {:induction false} Extend(t: Shape, path: seq<bool>, right: bool, p: int)
    requires ValidPath(t, path) && SubAt(t, path).Branch?
    ensures ValidPath(t, path + [right])
    ensures SubAt(t, path + [right]) == Child(SubAt(t, path), right)
    ensures ParentAt(t, p, path + [right]) == SubAt(t, path).id
    ensures right ==> Before(t, path + [right]) == Before(t, path) + InOrder(SubAt(t, path).left) + [SubAt(t, path).id]
    ensures right ==> After(t, path + [right]) == After(t, path)
    ensures !right ==> Before(t, path + [right]) == Before(t, path)
    ensures !right ==> After(t, path + [right]) == [SubAt(t, path).id] + InOrder(SubAt(t, path).right) + After(t, path)
  {
    if path != [] {
      assert (path + [right])[1..] == path[1..] + [right];
      Extend(Child(t, path[0]), path[1..], right, t.id);
    }
  }

  /** A path that extends another one passes through a branch at its end. */
  lemma {:induction false} Retract(t: Shape, path: seq<bool>, right: bool)
    requires ValidPath(t, path + [right])
    ensures ValidPath(t, path) && SubAt(t, path).Branch?
  {
    if path != [] {
      assert (path + [right])[1..] == path[1..] + [right];
      Retract(Child(t, path[0]), path[1..], right);
    }
  }

  /** The subtree at a path is linked under the parent ParentAt names. */
  lemma {:induction false} LinkedAt(t: Shape, p: int, path: seq<bool>, nodes: seq<Node>)
    requires ValidPath(t, path) && Linked(t, p, nodes)
    ensures Linked(SubAt(t, path), ParentAt(t, p, path), nodes)
  {
    if path != [] {
      LinkedAt(Child(t, path[0]), t.id, path[1..], nodes);
    }
  }

  lemma {:induction false} LinkedInArena(t: Shape, p: int, nodes: seq<Node>)
    requires Linked(t, p, nodes)
    ensures InArena(InOrder(t), nodes)
  {
    if t.Branch? {
      LinkedInArena(t.left, t.id, nodes);
      LinkedInArena(t.right, t.id, nodes);
    }
  }

  /** Linkage depends only on the parent/left/right fields of t's own slots. */
  lemma {:induction false} LinkedFrame(t: Shape, p: int, nodes: seq<Node>, nodes': seq<Node>)
    requires Linked(t, p, nodes)
    requires SameLinksOn(InOrder(t), nodes, nodes')
    ensures Linked(t, p, nodes')
  {
    if t.Branch? {
      LinkedFrame(t.left, t.id, nodes, nodes');
      LinkedFrame(t.right, t.id, nodes, nodes');
    }
  }

  /** Replacing the subtree at path by one with the same root slot keeps the
      whole tree linked, provided the slots outside it are untouched and the
      new subtree is linked under the same parent. */
  lemma {:induction false} LinkedReplace(t: Shape, p: int, path: seq<bool>, s: Shape, nodes: seq<Node>, nodes': seq<Node>)
    requires ValidPath(t, path) && Linked(t, p, nodes)
    requires SubAt(t, path).Branch? && s.Branch? && s.id == SubAt(t, path).id
    requires SameOn(Before(t, path) + After(t, path), nodes, nodes')
    requires Linked(s, ParentAt(t, p, path), nodes')
    ensures Linked(ReplaceAt(t, path, s), p, nodes')
  {
    if path != [] {
      var c, rest := Child(t, path[0]), path[1..];
      SameOnStep(t, path, nodes, nodes');
      LinkedReplace(c, t.id, rest, s, nodes, nodes');
      assert RootId(ReplaceAt(c, rest, s)) == RootId(c) by {
        if rest != [] {
          assert c.Branch?;
        }
      }
      LinkedFrame(Child(t, !path[0]), t.id, nodes, nodes');
    }
  }

  /** The slots outside the subtree at path, seen one level down: the
      outside of the child's subtree, the root, and the other child. */
  lemma SameOnStep(t: Shape, path: seq<bool>, nodes: seq<Node>, nodes': seq<Node>)
    requires ValidPath(t, path) && path != []
    requires SameOn(Before(t, path) + After(t, path), nodes, nodes')
    ensures SameOn(Before(Child(t, path[0]), path[1..]) + After(Child(t, path[0]), path[1..]), nodes, nodes')
    ensures SameLinksOn(InOrder(Child(t, !path[0])), nodes, nodes')
    ensures t.id < |nodes| && t.id < |nodes'| && nodes'[t.id] == nodes[t.id]
  {
    var c := Child(t, path[0]);
    var inner := Before(c, path[1..]) + After(c, path[1..]);
    OutsideStep(t, path);
    if path[0] {
      SameOnParts(InOrder(t.left), [t.id], inner, nodes, nodes');
    } else {
      SameOnParts(inner, [t.id], InOrder(t.right), nodes, nodes');
    }
    assert t.id in [t.id];
  }

  /** The slots outside the subtree at path, one level down. */
  lemma OutsideStep(t: Shape, path: seq<bool>)
    requires ValidPath(t, path) && path != []
    ensures path[0] ==> Before(t, path) + After(t, path)
                        == InOrder(t.left) + [t.id] + (Before(t.right, path[1..]) + After(t.right, path[1..]))
    ensures !path[0] ==> Before(t, path) + After(t, path)
                         == Before(t.left, path[1..]) + After(t.left, path[1..]) + [t.id] + InOrder(t.right)
  {
  }

  lemma SameOnParts(a: seq<int>, m: seq<int>, b: seq<int>, nodes: seq<Node>, nodes': seq<Node>)
    requires SameOn(a + m + b, nodes, nodes')
    ensures SameOn(a, nodes, nodes') && SameOn(m, nodes, nodes') && SameOn(b, nodes, nodes')
    ensures SameLinksOn(a, nodes, nodes') && SameLinksOn(b, nodes, nodes')
  {
    forall x | x in a ensures x in a + m + b {}
    forall x | x in m ensures x in a + m + b {}
    forall x | x in b ensures x in a + m + b {}
  }

  /** A distinct sequence holds each slot at one index only. */
  lemma DistinctIndex(s: seq<int>, i: nat, j: nat)
    requires Distinct(s) && i < |s| && j < |s| && s[i] == s[j]
    ensures i == j
  {
    if i != j {
      var a, b := if i < j then i else j, if i < j then j else i;
      TwoOccurrences(s, a, b);
    }
  }

  lemma TwoOccurrences(s: seq<int>, a: nat, b: nat)
    requires a < b < |s|
    ensures multiset(s)[s[a]] >= if s[a] == s[b] then 2 else 1
  {
    assert s == s[..a] + [s[a]] + s[a + 1..b] + [s[b]] + s[b + 1..];
  }

  lemma PairsConcat(a: seq<int>, b: seq<int>, nodes: seq<Node>)
    requires InArena(a, nodes) && InArena(b, nodes)
    ensures InArena(a + b, nodes)
    ensures Pairs(a + b, nodes) == Pairs(a, nodes) + Pairs(b, nodes)
  {
  }

  lemma {:induction false} LinkedStored(t: Shape, p: int, nodes: seq<Node>)
    requires Linked(t, p, nodes)
    ensures Stored(t, nodes)
  {
    if t.Branch? {
      LinkedStored(t.left, t.id, nodes);
      LinkedStored(t.right, t.id, nodes);
    }
  }

  /** Under the weak ordering invariant, the search path finds the key exactly
      when some node carries it, and what it finds carries the key. */
  lemma {:induction false} FindNodeCorrect(t: Shape, p: int, k: int, nodes: seq<Node>)
    requires Linked(t, p, nodes)
    requires InArena(InOrder(t), nodes) && Sorted(Pairs(InOrder(t), nodes))
    ensures Stored(t, nodes)
    ensures FindNode(t, k, nodes) == Null <==> !HasKey(Pairs(InOrder(t), nodes), k)
    ensures FindNode(t, k, nodes) != Null ==>
              FindNode(t, k, nodes) in InOrder(t) && nodes[FindNode(t, k, nodes)].key == k
  {
    LinkedStored(t, p, nodes);
    if t.Branch? {
      var i, l, r := t.id, t.left, t.right;
      LinkedInArena(l, i, nodes);
      LinkedInArena(r, i, nodes);
      var pl, pr := Pairs(InOrder(l), nodes), Pairs(InOrder(r), nodes);
      var e := (nodes[i].key, nodes[i].value);
      PairsConcat(InOrder(l), [i], nodes);
      PairsConcat(InOrder(l) + [i], InOrder(r), nodes);
      assert Pairs(InOrder(t), nodes) == pl + [e] + pr;
      SortedSplit(pl, e, pr);
      FindNodeCorrect(l, i, k, nodes);
      FindNodeCorrect(r, i, k, nodes);
      HasKeyConcat(pl + [e], pr, k);
      HasKeyConcat(pl, [e], k);
      if nodes[i].key > k {
        assert !HasKey(pr, k);
      } else if nodes[i].key < k {
        assert !HasKey(pl, k);
      } else {
        assert ([e])[0].0 == k;
      }
    }
  }

  // ---------------------------------------------------------------------
  // Helpers for rebuilding the tree.

  /** Replacing the child d of the subtree at path is replacing that subtree
      by a copy with the new child. */
  lemma {:induction false} ReplaceExtend(t: Shape, path: seq<bool>, d: bool, s: Shape)
    requires ValidPath(t, path) && SubAt(t, path).Branch?
    ensures ValidPath(t, path + [d])
    ensures var u := SubAt(t, path);
            ReplaceAt(t, path + [d], s) == ReplaceAt(t, path, if d then Branch(u.id, u.left, s) else Branch(u.id, s, u.right))
  {
    Extend(t, path, d, Null);
    if path != [] {
      assert (path + [d])[1..] == path[1..] + [d];
      ReplaceExtend(Child(t, path[0]), path[1..], d, s);
    }
  }

  /** Replacing a proper subtree leaves the root where it was. */
  lemma ReplaceRoot(t: Shape, path: seq<bool>, s: Shape)
    requires ValidPath(t, path) && path != []
    ensures RootId(ReplaceAt(t, path, s)) == RootId(t)
  {
  }

  /** The three parts of a slot sequence without repeats share no slot. */
  lemma DistinctParts(a: seq<int>, b: seq<int>, c: seq<int>)
    requires Distinct(a + b + c)
    ensures Distinct(b) && Distinct(a + c)
    ensures forall x :: x in b ==> x !in a + c
  {
    var m, mb, mac := multiset(a + b + c), multiset(b), multiset(a + c);
    assert m == multiset(a) + mb + multiset(c);
    assert mac == multiset(a) + multiset(c);
    forall x ensures mb[x] <= 1 && mac[x] <= 1 && (x in mb ==> x !in mac) {
      assert m[x] == mb[x] + mac[x];
    }
    forall x | x in b ensures x !in a + c {
      assert x in mb;
    }
  }

  /** The slots of a subtree are as distinct as those of the whole tree. */
  lemma SubDistinct(t: Shape, path: seq<bool>)
    requires Distinct(InOrder(t)) && ValidPath(t, path)
    ensures Distinct(InOrder(SubAt(t, path)))
  {
    SplitAt(t, path);
    DistinctParts(Before(t, path), InOrder(SubAt(t, path)), After(t, path));
  }

  /** Joining slot sequences without repeats and without common slots gives
      one without repeats. */
  lemma DistinctJoin(a: seq<int>, b: seq<int>, c: seq<int>)
    requires Distinct(b) && Distinct(a + c)
    requires forall x :: x in b ==> x !in a + c
    ensures Distinct(a + b + c)
  {
    var m, mb, mac := multiset(a + b + c), multiset(b), multiset(a + c);
    assert m == multiset(a) + mb + multiset(c);
    assert mac == multiset(a) + multiset(c);
    forall x ensures m[x] <= 1 {
      assert m[x] == mb[x] + mac[x];
      if x in mb {
        assert x in b;
        assert x !in mac;
      }
    }
  }

  /** Slot n, fresh to s, can go anywhere in s without creating a repeat. */
  lemma DistinctInsertAt(s: seq<int>, j: nat, n: int)
    requires Distinct(s) && n !in s && j <= |s|
    ensures Distinct(s[..j] + [n] + s[j..])
  {
    assert s == s[..j] + s[j..];
    DistinctJoin(s[..j], [n], s[j..]);
  }

  /** Slot i of s taken out leaves no repeat. */
  lemma DistinctDeleteAt(s: seq<int>, i: nat)
    requires Distinct(s) && i < |s|
    ensures Distinct(s[..i] + s[i + 1..])
  {
    assert s == s[..i] + [s[i]] + s[i + 1..];
    DistinctParts(s[..i], [s[i]], s[i + 1..]);
  }

  /** The pairs after putting slot n at position j of s, where the other slots
      keep their key and value. */
  lemma PairsInsertAt(s: seq<int>, j: nat, n: nat, nodes: seq<Node>, nodes': seq<Node>)
    requires InArena(s, nodes) && j <= |s| && n < |nodes'|
    requires forall i :: 0 <= i < |s| ==> s[i] < |nodes'| && nodes'[s[i]].key == nodes[s[i]].key && nodes'[s[i]].value == nodes[s[i]].value
    ensures InArena(s[..j] + [n] + s[j..], nodes')
    ensures Pairs(s[..j] + [n] + s[j..], nodes') == Pairs(s, nodes)[..j] + [(nodes'[n].key, nodes'[n].value)] + Pairs(s, nodes)[j..]
  {
    var s' := s[..j] + [n] + s[j..];
    assert forall i :: 0 <= i < |s'| ==> s'[i] == if i < j then s[i] else if i == j then n else s[i - 1];
  }
}

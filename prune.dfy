/** What remove does to the arena and the shape in each of its cases, stated
    on values: each case keeps the tree well formed and takes exactly one
    pair out of the in-order sequence of pairs. */
module Pruning {
  import opened Entries
  import opened Shapes
  import opened Surgery

  /** c's parent becomes p, unless c is null: the source's guarded
      `c->_parent = p`. */
  function Adopt(nodes: seq<Node>, c: int, p: int): (r: seq<Node>)
    ensures |r| == |nodes|
    ensures forall y :: 0 <= y < |nodes| && y != c ==> r[y] == nodes[y]
    ensures 0 <= c < |nodes| ==> r[c] == nodes[c].(parent := p)
  {
    if 0 <= c < |nodes| then nodes[c := nodes[c].(parent := p)] else nodes
  }

  // ---------------------------------------------------------------------
  // Frames and renamings.

  /** Only the slots in changed differ between the two arenas. */
  ghost predicate ChangedOnly(nodes: seq<Node>, nodes': seq<Node>, changed: set<int>) {
    forall y :: 0 <= y < |nodes| && y !in changed ==> y < |nodes'| && nodes'[y] == nodes[y]
  }

  /** a and b share no slot. */
  ghost predicate Disjoint(a: seq<int>, b: seq<int>) {
    forall y :: y in a ==> y !in b
  }

  /** No slot of o is in changed. */
  ghost predicate Untouched(o: Shape, changed: set<int>) {
    forall y :: y in InOrder(o) ==> y !in changed
  }

  /** No slot of o below its root is in changed. */
  ghost predicate BelowRootUnchanged(o: Shape, changed: set<int>) {
    forall y :: y in InOrder(o) && y != RootId(o) ==> y !in changed
  }

  /** Every slot in changed other than Null is one of s. */
  ghost predicate Within(changed: set<int>, s: seq<int>) {
    forall y :: y in changed && y != Null ==> y in s
  }

  /** A subtree none of whose slots changed stays linked. */
  lemma FrameLinked(o: Shape, p: int, nodes: seq<Node>, nodes': seq<Node>, changed: set<int>)
    requires Linked(o, p, nodes)
    requires Untouched(o, changed)
    requires ChangedOnly(nodes, nodes', changed)
    ensures Linked(o, p, nodes')
  {
    LinkedInArena(o, p, nodes);
    forall y | y in InOrder(o) ensures 0 <= y < |nodes| && y < |nodes'| && SameLinks(nodes[y], nodes'[y]) {
      var j :| 0 <= j < |InOrder(o)| && InOrder(o)[j] == y;
    }
    LinkedFrame(o, p, nodes, nodes');
  }

  /** The slots outside the subtree at path are untouched when every changed
      slot lies inside it. */
  lemma SameOutside(t: Shape, path: seq<bool>, nodes: seq<Node>, nodes': seq<Node>, changed: set<int>)
    requires Linked(t, Null, nodes) && Distinct(InOrder(t)) && ValidPath(t, path)
    requires Within(changed, InOrder(SubAt(t, path)))
    requires ChangedOnly(nodes, nodes', changed)
    ensures SameOn(Before(t, path) + After(t, path), nodes, nodes')
  {
    SplitAt(t, path);
    LinkedInArena(t, Null, nodes);
    DistinctParts(Before(t, path), InOrder(SubAt(t, path)), After(t, path));
    forall y | y in Before(t, path) + After(t, path) ensures 0 <= y < |nodes| && y !in changed {
      assert y in InOrder(t);
    }
  }

  /** A sequence whose entries differ pairwise has no repeats. */
  lemma {:induction false} DistinctFromIndices(s: seq<int>)
    requires forall j, l :: 0 <= j < l < |s| ==> s[j] != s[l]
    ensures Distinct(s)
  {
    if s != [] {
      var rest := s[1..];
      DistinctFromIndices(rest);
      assert s == [s[0]] + rest;
      assert multiset(s) == multiset([s[0]]) + multiset(rest);
      assert s[0] !in rest by {
        forall l | 0 <= l < |rest| ensures rest[l] != s[0] {
          assert rest[l] == s[l + 1];
        }
      }
    }
  }

  /** Slot `from` of s renamed to `to`, a slot s does not hold, whose key and
      value are those `from` had: the pairs do not change and no slot
      repeats. */
  lemma PairsRenamed(s: seq<int>, s': seq<int>, from: int, to: int, nodes: seq<Node>, nodes': seq<Node>)
    requires InArena(s, nodes) && Distinct(s) && Renamed(s, s', from, to)
    requires to !in s && 0 <= to < |nodes'|
    requires forall j :: 0 <= j < |s| && s[j] == from ==> nodes'[to].key == nodes[from].key && nodes'[to].value == nodes[from].value
    requires forall j :: 0 <= j < |s| && s[j] != from ==>
               s[j] < |nodes'| && nodes'[s[j]].key == nodes[s[j]].key && nodes'[s[j]].value == nodes[s[j]].value
    ensures InArena(s', nodes') && Distinct(s')
    ensures Pairs(s', nodes') == Pairs(s, nodes)
  {
    forall j, l | 0 <= j < l < |s'| ensures s'[j] != s'[l] {
      if s[j] == s[l] {
        DistinctIndex(s, j, l);
      }
      assert s[j] != to && s[l] != to by {
        assert s[j] in s && s[l] in s;
      }
    }
    DistinctFromIndices(s');
  }

  /** The pairs after slot i of s is taken out. */
  lemma PairsDeleteAt(s: seq<int>, i: nat, nodes: seq<Node>, nodes': seq<Node>)
    requires InArena(s, nodes) && i < |s|
    requires forall j :: 0 <= j < |s| ==> s[j] < |nodes'| && nodes'[s[j]].key == nodes[s[j]].key && nodes'[s[j]].value == nodes[s[j]].value
    ensures InArena(s[..i] + s[i + 1..], nodes')
    ensures Pairs(s[..i] + s[i + 1..], nodes') == Pairs(s, nodes)[..i] + Pairs(s, nodes)[i + 1..]
  {
    var s' := s[..i] + s[i + 1..];
    assert forall j :: 0 <= j < |s'| ==> s'[j] == if j < i then s[j] else s[j + 1];
  }

  /** The slot dropped from a sequence without repeats is gone from it. */
  lemma DropMissing(s: seq<int>, i: nat)
    requires Distinct(s) && i < |s|
    ensures s[i] !in Drop(s, i)
  {
    var d := Drop(s, i);
    forall j | 0 <= j < |d| ensures d[j] != s[i] {
      var k := if j < i then j else j + 1;
      assert d[j] == s[k];
      if s[k] == s[i] {
        DistinctIndex(s, k, i);
      }
    }
  }

  /** Dropping the x between a and b. */
  lemma DropAt(m: seq<int>, a: seq<int>, x: int, b: seq<int>)
    requires m == a + [x] + b
    ensures |a| < |m| && m[|a|] == x
    ensures Drop(m, |a|) == a + b
    ensures a == [] ==> Drop(m, |a|) == b
    ensures b == [] ==> Drop(m, |a|) == a
  {
    assert m[..|a|] == a;
    assert m[|a| + 1..] == b;
  }

  /** Dropping an element of the middle part of a concatenation. */
  lemma DropMiddle(s: seq<int>, a: seq<int>, m: seq<int>, b: seq<int>, i: nat)
    requires s == a + m + b && i < |m|
    ensures |a| + i < |s| && s[|a| + i] == m[i]
    ensures Drop(s, |a| + i) == a + Drop(m, i) + b
  {
    assert s[..|a| + i] == a + m[..i];
    assert s[|a| + i + 1..] == m[i + 1..] + b;
  }

  /** s' is s with every `from` replaced by `to`. */
  ghost predicate Renamed(s: seq<int>, s': seq<int>, from: int, to: int) {
    && |s'| == |s|
    && forall j :: 0 <= j < |s| ==> s'[j] == if s[j] == from then to else s[j]
  }

  /** Renaming `from` to `to` in the middle part renames it in the whole,
      when the outer parts do not hold `from`. */
  lemma RenameConcat(s: seq<int>, s': seq<int>, a: seq<int>, m: seq<int>, m': seq<int>, b: seq<int>, from: int, to: int)
    requires s == a + m + b && s' == a + m' + b
    requires Renamed(m, m', from, to) && from !in a && from !in b
    ensures Renamed(s, s', from, to)
  {
    forall j | 0 <= j < |s| ensures s'[j] == if s[j] == from then to else s[j] {
      if j < |a| {
        assert s[j] == a[j] == s'[j];
      } else if j < |a| + |m| {
        assert s[j] == m[j - |a|] && s'[j] == m'[j - |a|];
      } else {
        assert s[j] == b[j - |a| - |m|] == s'[j];
      }
    }
  }

  /** One slot renamed between two parts that do not hold it. */
  lemma RenameOne(s: seq<int>, s': seq<int>, a: seq<int>, b: seq<int>, from: int, to: int)
    requires s == a + [from] + b && s' == a + [to] + b
    requires from !in a && from !in b
    ensures Renamed(s, s', from, to)
  {
    forall j | 0 <= j < |s| ensures s'[j] == if s[j] == from then to else s[j] {
      if j < |a| {
        assert s[j] == a[j] == s'[j];
      } else if j > |a| {
        assert s[j] == b[j - |a| - 1] == s'[j];
      }
    }
  }

  /** Only slot x changed its key or value. */
  ghost predicate SameEntriesBut(nodes: seq<Node>, nodes': seq<Node>, x: int) {
    && |nodes| <= |nodes'|
    && forall y :: 0 <= y < |nodes| && y != x ==> nodes'[y].key == nodes[y].key && nodes'[y].value == nodes[y].value
  }

  /** A subtree whose root is given a new parent, and none of whose other
      slots changed, is linked under the new parent. */
  lemma ReparentFrame(o: Shape, p: int, q: int, nodes: seq<Node>, nodes': seq<Node>, changed: set<int>)
    requires Linked(o, p, nodes) && Distinct(InOrder(o))
    requires o.Branch? ==> o.id < |nodes'| && nodes'[o.id] == nodes[o.id].(parent := q)
    requires BelowRootUnchanged(o, changed)
    requires ChangedOnly(nodes, nodes', changed)
    ensures Linked(o, q, nodes')
  {
    if o.Branch? {
      var l, r := InOrder(o.left), InOrder(o.right);
      assert InOrder(o) == l + [o.id] + r;
      DistinctParts(l, [o.id], r);
      assert o.id in [o.id];
      forall y | y in l ensures y !in changed {
        assert y in InOrder(o) && y != o.id;
      }
      forall y | y in r ensures y !in changed {
        assert y in InOrder(o) && y != o.id;
      }
      FrameLinked(o.left, o.id, nodes, nodes', changed);
      FrameLinked(o.right, o.id, nodes, nodes', changed);
    }
  }

  /** The links after the subtree at path is replaced by s', which keeps its
      root slot x and hangs subtrees a and b below it. */
  lemma HoistLinks(t: Shape, path: seq<bool>, s': Shape, nodes: seq<Node>, nodes': seq<Node>, changed: set<int>)
    requires Linked(t, Null, nodes) && Distinct(InOrder(t)) && ValidPath(t, path) && SubAt(t, path).Branch?
    requires s'.Branch? && s'.id == SubAt(t, path).id && s'.id < |nodes| && s'.id < |nodes'|
    requires nodes'[s'.id].parent == nodes[s'.id].parent
    requires nodes'[s'.id].left == RootId(s'.left) && nodes'[s'.id].right == RootId(s'.right)
    requires Linked(s'.left, s'.id, nodes') && Linked(s'.right, s'.id, nodes')
    requires Within(changed, InOrder(SubAt(t, path)))
    requires ChangedOnly(nodes, nodes', changed)
    ensures Linked(ReplaceAt(t, path, s'), Null, nodes')
  {
    LinkedAt(t, Null, path, nodes);
    SameOutside(t, path, nodes, nodes', changed);
    LinkedReplace(t, Null, path, s', nodes, nodes');
  }

  /** Slot x at index ix of io taken out and slot q renamed to x, x now
      holding q's pair: the pairs are the old ones without pair ix, still
      sorted, and no slot repeats. */
  lemma HoistPairs(io: seq<int>, io': seq<int>, ix: nat, x: int, q: int, nodes: seq<Node>, nodes': seq<Node>)
    requires Distinct(io) && InArena(io, nodes) && Sorted(Pairs(io, nodes)) && ix < |io| && io[ix] == x
    requires Renamed(Drop(io, ix), io', q, x)
    requires SameEntriesBut(nodes, nodes', x)
    requires 0 <= q < |nodes| && 0 <= x < |nodes'|
    requires nodes'[x].key == nodes[q].key && nodes'[x].value == nodes[q].value
    ensures Distinct(io') && InArena(io', nodes')
    ensures Pairs(io', nodes') == Drop(Pairs(io, nodes), ix)
    ensures Sorted(Pairs(io', nodes'))
  {
    var dropped := Drop(io, ix);
    DropSlot(io, ix, nodes, nodes);
    DropMissing(io, ix);
    assert Sorted(Pairs(dropped, nodes));
    PairsRenamed(dropped, io', q, x, nodes, nodes');
    assert Pairs(io', nodes') == Pairs(dropped, nodes);
  }

  /** Dropping the slot at index ixl of the subtree at path drops it at
      index |Before| + ixl of the whole in-order sequence. */
  lemma DropInside(t: Shape, path: seq<bool>, ixl: nat)
    requires ValidPath(t, path) && ixl < |InOrder(SubAt(t, path))|
    ensures var ix := |Before(t, path)| + ixl;
            && ix < |InOrder(t)| && InOrder(t)[ix] == InOrder(SubAt(t, path))[ixl]
            && Drop(InOrder(t), ix) == Before(t, path) + Drop(InOrder(SubAt(t, path)), ixl) + After(t, path)
  {
    SplitAt(t, path);
    DropMiddle(InOrder(t), Before(t, path), InOrder(SubAt(t, path)), After(t, path), ixl);
  }

  /** A slot of the subtree at path occurs nowhere outside it. */
  lemma InsideOnly(t: Shape, path: seq<bool>, q: int)
    requires Distinct(InOrder(t)) && ValidPath(t, path) && q in InOrder(SubAt(t, path))
    ensures q !in Before(t, path) && q !in After(t, path)
  {
    SplitAt(t, path);
    DistinctParts(Before(t, path), InOrder(SubAt(t, path)), After(t, path));
  }

  /** The common shape of the cases of remove that keep the node: the
      subtree at path, rooted at slot x, becomes s', still rooted at x;
      x takes over the pair of q, another slot of the subtree, and the
      in-order sequence of s' is the subtree's without x, with q renamed
      to x. Only slots of the subtree changed their links, and only x its
      pair. */
  ghost predicate Hoistable(t: Shape, nodes: seq<Node>, path: seq<bool>, s': Shape, ixl: nat, q: nat,
                           nodes': seq<Node>, changed: set<int>) {
    && ValidPath(t, path) && SubAt(t, path).Branch?
    && (var u := SubAt(t, path);
        var m := InOrder(u);
        && ixl < |m| && m[ixl] == u.id && q in m && q < |nodes|
        && s'.Branch? && s'.id == u.id
        && Renamed(Drop(m, ixl), InOrder(s'), q, u.id))
    && (var x := SubAt(t, path).id;
        && x < |nodes| && x < |nodes'|
        && nodes'[x].parent == nodes[x].parent
        && nodes'[x].left == RootId(s'.left) && nodes'[x].right == RootId(s'.right)
        && nodes'[x].key == nodes[q].key && nodes'[x].value == nodes[q].value
        && Linked(s'.left, x, nodes') && Linked(s'.right, x, nodes'))
    && Within(changed, InOrder(SubAt(t, path)))
    && ChangedOnly(nodes, nodes', changed)
    && SameEntriesBut(nodes, nodes', SubAt(t, path).id)
  }

  /** A hoist keeps the tree well formed and takes out exactly the pair x
      held. */
  lemma Hoist(t: Shape, nodes: seq<Node>, path: seq<bool>, s': Shape, ixl: nat, q: nat,
              nodes': seq<Node>, changed: set<int>, ix: nat) returns (t': Shape)
    requires Tree(t, nodes) && Hoistable(t, nodes, path, s', ixl, q, nodes', changed)
    requires ix == |Before(t, path)| + ixl
    ensures t' == ReplaceAt(t, path, s') && Tree(t', nodes') && RootId(t') == RootId(t)
    ensures ix < |InOrder(t)| && InOrder(t)[ix] == SubAt(t, path).id
    ensures Pairs(InOrder(t'), nodes') == Drop(Pairs(InOrder(t), nodes), ix)
  {
    var u := SubAt(t, path);
    var m, io := InOrder(u), InOrder(t);
    var a, b := Before(t, path), After(t, path);
    t' := ReplaceAt(t, path, s');
    DropInside(t, path, ixl);
    ReplaceInOrder(t, path, s');
    InsideOnly(t, path, q);
    var io' := InOrder(t');
    RenameConcat(Drop(io, ix), io', a, Drop(m, ixl), InOrder(s'), b, q, u.id);
    HoistPairs(io, io', ix, u.id, q, nodes, nodes');
    HoistLinks(t, path, s', nodes, nodes', changed);
    TreeFrom(t', nodes', io');
    if path != [] {
      ReplaceRoot(t, path, s');
    }
  }

  // ---------------------------------------------------------------------
  // The cases of remove.

  /** The links after a child of the subtree at up is cut off. */
  lemma UnlinkLinks(t: Shape, nodes: seq<Node>, up: seq<bool>, d: bool, nodes': seq<Node>)
    requires Linked(t, Null, nodes) && Distinct(InOrder(t)) && ValidPath(t, up) && SubAt(t, up).Branch?
    requires var p := SubAt(t, up).id;
             && p < |nodes|
             && nodes' == nodes[p := if d then nodes[p].(right := Null) else nodes[p].(left := Null)]
    ensures ValidPath(t, up + [d]) && Linked(ReplaceAt(t, up + [d], Nil), Null, nodes')
  {
    var u := SubAt(t, up);
    var p := u.id;
    var s := if d then Branch(p, u.left, Nil) else Branch(p, Nil, u.right);
    ReplaceExtend(t, up, d, Nil);
    SplitAt(t, up);
    assert InOrder(u) == InOrder(u.left) + [p] + InOrder(u.right);
    SameOutside(t, up, nodes, nodes', {p});
    LinkedAt(t, Null, up, nodes);
    DistinctParts(Before(t, up), InOrder(u), After(t, up));
    DistinctParts(InOrder(u.left), [p], InOrder(u.right));
    var other := Child(u, !d);
    assert forall y :: y in InOrder(other) ==> y in InOrder(u.left) + InOrder(u.right);
    assert p in [p];
    FrameLinked(other, p, nodes, nodes', {p});
    LinkedReplace(t, Null, up, s, nodes, nodes');
  }

  /** Cutting off a leaf takes its slot out of the in-order sequence. */
  lemma LeafOrder(t: Shape, path: seq<bool>)
    requires ValidPath(t, path) && SubAt(t, path).Branch?
    requires SubAt(t, path).left == Nil && SubAt(t, path).right == Nil
    ensures |Before(t, path)| < |InOrder(t)| && InOrder(t)[|Before(t, path)|] == SubAt(t, path).id
    ensures InOrder(ReplaceAt(t, path, Nil)) == Drop(InOrder(t), |Before(t, path)|)
  {
    SplitAt(t, path);
    ReplaceInOrder(t, path, Nil);
    assert InOrder(SubAt(t, path)) == [SubAt(t, path).id];
    assert InOrder(Nil) == [];
    DropAt(InOrder(t), Before(t, path), SubAt(t, path).id, After(t, path));
  }

  /** Taking slot i out of a well-formed in-order sequence, all key/value
      fields kept: what is left is still without repeats and sorted, and
      its pairs are the old ones minus pair i. */
  lemma DropSlot(io: seq<int>, i: nat, nodes: seq<Node>, nodes': seq<Node>)
    requires Distinct(io) && InArena(io, nodes) && Sorted(Pairs(io, nodes)) && i < |io|
    requires SameEntries(nodes, nodes')
    ensures var io' := Drop(io, i);
            && Distinct(io') && InArena(io', nodes')
            && Pairs(io', nodes') == Drop(Pairs(io, nodes), i)
            && Sorted(Pairs(io', nodes'))
  {
    DistinctDeleteAt(io, i);
    PairsDeleteAt(io, i, nodes, nodes');
    SortedDelete(Pairs(io, nodes), i);
  }

  /** remove of a childless node that is not the root: its parent forgets
      it (the left link if it is the left child, the right link otherwise). */
  lemma Unlink(t: Shape, nodes: seq<Node>, up: seq<bool>, d: bool, nodes': seq<Node>, i: nat) returns (t': Shape)
    requires Tree(t, nodes) && ValidPath(t, up) && SubAt(t, up).Branch?
    requires var c := Child(SubAt(t, up), d); c.Branch? && c.left == Nil && c.right == Nil
    requires var p := SubAt(t, up).id;
             && p < |nodes|
             && nodes' == nodes[p := if d then nodes[p].(right := Null) else nodes[p].(left := Null)]
    requires ValidPath(t, up + [d]) && i == |Before(t, up + [d])|
    ensures t' == ReplaceAt(t, up + [d], Nil)
    ensures Tree(t', nodes') && RootId(t') == RootId(t)
    ensures i < |InOrder(t)| && InOrder(t)[i] == Child(SubAt(t, up), d).id
    ensures InOrder(t') == Drop(InOrder(t), i)
    ensures Pairs(InOrder(t'), nodes') == Drop(Pairs(InOrder(t), nodes), i)
  {
    UnlinkLinks(t, nodes, up, d, nodes');
    Extend(t, up, d, Null);
    t' := ReplaceAt(t, up + [d], Nil);
    LeafOrder(t, up + [d]);
    assert SameEntries(nodes, nodes');
    DropSlot(InOrder(t), i, nodes, nodes');
    TreeFrom(t', nodes', Drop(InOrder(t), i));
    ReplaceRoot(t, up + [d], Nil);
  }

  /** In a subtree without repeats the root slot is in neither child, and
      no slot is in both children. */
  lemma BranchDistinct(u: Shape)
    requires Distinct(InOrder(u)) && u.Branch?
    ensures Distinct(InOrder(u.left)) && Distinct(InOrder(u.right))
    ensures u.id !in InOrder(u.left) && u.id !in InOrder(u.right)
    ensures Disjoint(InOrder(u.left), InOrder(u.right))
  {
    var l, r, i := InOrder(u.left), InOrder(u.right), u.id;
    var mu, ml, mr := multiset(InOrder(u)), multiset(l), multiset(r);
    assert InOrder(u) == l + [i] + r;
    assert mu == ml + multiset{i} + mr;
    forall y ensures ml[y] <= 1 && mr[y] <= 1 && (y in ml ==> y !in mr) {
      assert mu[y] == ml[y] + multiset{i}[y] + mr[y];
    }
    assert mu[i] == ml[i] + 1 + mr[i];
    forall y | y in l ensures y !in r {
      assert y in ml;
    }
  }

  /** The root slot of a nonempty subtree is one of its slots. */
  lemma RootIn(o: Shape)
    ensures o.Branch? ==> o.id in InOrder(o)
  {
    if o.Branch? {
      assert InOrder(o) == InOrder(o.left) + [o.id] + InOrder(o.right);
    }
  }

  /** Of two disjoint subtrees that do not hold x, only the roots are among
      x and the two roots. */
  lemma OnlyRootsChanged(A: Shape, B: Shape, x: int)
    requires Disjoint(InOrder(A), InOrder(B))
    requires x !in InOrder(A) && x !in InOrder(B)
    ensures BelowRootUnchanged(A, {x, RootId(A), RootId(B)})
    ensures BelowRootUnchanged(B, {x, RootId(A), RootId(B)})
  {
    RootIn(A);
    RootIn(B);
  }

  /** Slot x gets the new record n and then becomes the parent of a and
      of b (b first, as the source does), each unless it is null. */
  lemma AdoptArena(x: nat, n: Node, a: int, b: int, nodes: seq<Node>, nodes': seq<Node>)
    requires x < |nodes| && a != x && b != x && (a == b ==> a == Null)
    requires nodes' == Adopt(Adopt(nodes[x := n], b, x), a, x)
    ensures |nodes'| == |nodes| && nodes'[x] == n
    ensures ChangedOnly(nodes, nodes', {x, a, b}) && SameEntriesBut(nodes, nodes', x)
    ensures 0 <= a < |nodes| ==> nodes'[a] == nodes[a].(parent := x)
    ensures 0 <= b < |nodes| ==> nodes'[b] == nodes[b].(parent := x)
  {
    var n1 := nodes[x := n];
    var n2 := Adopt(n1, b, x);
    forall y | 0 <= y < |nodes| && y !in {x, a, b} ensures y < |nodes'| && nodes'[y] == nodes[y] {
      assert nodes'[y] == n2[y] == n1[y];
    }
    if 0 <= a < |nodes| {
      assert nodes'[a] == n2[a].(parent := x);
      assert n2[a] == n1[a] == nodes[a];
    }
    if 0 <= b < |nodes| {
      assert nodes'[b] == n2[b];
      assert n2[b] == n1[b].(parent := x);
    }
  }

  /** A and B, disjoint and without x, hang under x once their roots
      (and x) are the only slots that changed and the roots have x as
      parent. */
  lemma AdoptChildren(A: Shape, B: Shape, p: int, x: int, nodes: seq<Node>, nodes': seq<Node>)
    requires Linked(A, p, nodes) && Linked(B, p, nodes)
    requires Distinct(InOrder(A)) && Distinct(InOrder(B))
    requires Disjoint(InOrder(A), InOrder(B))
    requires x !in InOrder(A) && x !in InOrder(B)
    requires ChangedOnly(nodes, nodes', {x, RootId(A), RootId(B)})
    requires A.Branch? ==> A.id < |nodes| && A.id < |nodes'| && nodes'[A.id] == nodes[A.id].(parent := x)
    requires B.Branch? ==> B.id < |nodes| && B.id < |nodes'| && nodes'[B.id] == nodes[B.id].(parent := x)
    ensures Linked(A, x, nodes') && Linked(B, x, nodes')
  {
    OnlyRootsChanged(A, B, x);
    ReparentFrame(A, p, x, nodes, nodes', {x, RootId(A), RootId(B)});
    ReparentFrame(B, p, x, nodes, nodes', {x, RootId(A), RootId(B)});
  }

  /** The in-order sequence of a node whose left child is null and whose
      right child is not. */
  lemma RightSpine(u: Shape)
    requires u.Branch? && u.left == Nil && u.right.Branch?
    ensures var m, l1, l2 := InOrder(u), InOrder(u.right.left), InOrder(u.right.right);
            && m == [u.id] + (l1 + [u.right.id] + l2)
            && |m| > 0 && m[0] == u.id && u.right.id in m
            && Drop(m, 0) == l1 + [u.right.id] + l2
            && Within({u.id, RootId(u.right.left), RootId(u.right.right)}, m)
  {
    RootIn(u.right.left);
    RootIn(u.right.right);
    var m, l1, l2 := InOrder(u), InOrder(u.right.left), InOrder(u.right.right);
    var mr := InOrder(u.right);
    assert m == InOrder(Nil) + [u.id] + mr;
    DropAt(m, [], u.id, mr);
  }

  /** The hoist that remove performs on a node whose left child is null. */
  lemma LiftRightHoistable(t: Shape, nodes: seq<Node>, path: seq<bool>, nodes': seq<Node>, u: Shape, x: nat, r: nat)
    requires Linked(t, Null, nodes) && Distinct(InOrder(t)) && ValidPath(t, path) && u == SubAt(t, path)
    requires u.Branch? && u.left == Nil && u.right.Branch? && x == u.id && r == u.right.id
    requires x < |nodes| && r < |nodes|
    requires nodes' == Adopt(Adopt(nodes[x := Node(nodes[r].key, nodes[r].value, nodes[x].parent, nodes[r].left, nodes[r].right)],
                                   nodes[r].right, x), nodes[r].left, x)
    ensures Hoistable(t, nodes, path, Branch(x, u.right.left, u.right.right), 0, r, nodes',
                      {x, RootId(u.right.left), RootId(u.right.right)})
  {
    var rr := u.right;
    var RL, RR := rr.left, rr.right;
    var n := Node(nodes[r].key, nodes[r].value, nodes[x].parent, nodes[r].left, nodes[r].right);
    var m, mr := InOrder(u), InOrder(rr);
    var l1, l2 := InOrder(RL), InOrder(RR);
    RightSpine(u);
    assert Linked(RL, r, nodes) && Linked(RR, r, nodes)
        && nodes[r].left == RootId(RL) && nodes[r].right == RootId(RR) by {
      LinkedAt(t, Null, path, nodes);
      assert Linked(rr, x, nodes);
    }
    assert Distinct(l1) && Distinct(l2) && Disjoint(l1, l2)
        && x !in l1 && x !in l2 && r !in l1 && r !in l2 by {
      SubDistinct(t, path);
      BranchDistinct(u);
      BranchDistinct(rr);
    }
    RootIn(RL);
    RootIn(RR);
    AdoptArena(x, n, RootId(RL), RootId(RR), nodes, nodes');
    AdoptChildren(RL, RR, r, x, nodes, nodes');
    RenameOne(Drop(m, 0), InOrder(Branch(x, RL, RR)), l1, l2, r, x);
  }

  /** remove of a node whose left child is null: the node takes over the
      pair and both links of its right child and becomes the parent of the
      right child's children (the right child's slot is dropped). */
  lemma LiftRight(t: Shape, nodes: seq<Node>, path: seq<bool>, nodes': seq<Node>, ix: nat) returns (t': Shape)
    requires Tree(t, nodes) && ValidPath(t, path) && SubAt(t, path).Branch?
    requires SubAt(t, path).left == Nil && SubAt(t, path).right.Branch?
    requires var x, r := SubAt(t, path).id, SubAt(t, path).right.id;
             && x < |nodes| && r < |nodes|
             && nodes' == Adopt(Adopt(nodes[x := Node(nodes[r].key, nodes[r].value, nodes[x].parent, nodes[r].left, nodes[r].right)],
                                      nodes[r].right, x), nodes[r].left, x)
    requires ix == |Before(t, path)|
    ensures t' == ReplaceAt(t, path, Branch(SubAt(t, path).id, SubAt(t, path).right.left, SubAt(t, path).right.right))
    ensures Tree(t', nodes') && RootId(t') == RootId(t)
    ensures ix < |InOrder(t)| && InOrder(t)[ix] == SubAt(t, path).id
    ensures Pairs(InOrder(t'), nodes') == Drop(Pairs(InOrder(t), nodes), ix)
  {
    var u := SubAt(t, path);
    LiftRightHoistable(t, nodes, path, nodes', u, u.id, u.right.id);
    var RL, RR := u.right.left, u.right.right;
    t' := Hoist(t, nodes, path, Branch(u.id, RL, RR), 0, u.right.id, nodes', {u.id, RootId(RL), RootId(RR)}, ix);
  }

  /** The in-order sequence of a node whose right child is null and whose
      left child is not. */
  lemma LeftSpine(u: Shape)
    requires u.Branch? && u.right == Nil && u.left.Branch?
    ensures var m, ml, l1, l2 := InOrder(u), InOrder(u.left), InOrder(u.left.left), InOrder(u.left.right);
            && m == (l1 + [u.left.id] + l2) + [u.id]
            && |ml| < |m| && m[|ml|] == u.id && u.left.id in m
            && Drop(m, |ml|) == l1 + [u.left.id] + l2
            && Within({u.id, RootId(u.left.left), RootId(u.left.right)}, m)
  {
    RootIn(u.left.left);
    RootIn(u.left.right);
    var m, ml := InOrder(u), InOrder(u.left);
    assert m == ml + [u.id] + InOrder(Nil);
    DropAt(m, ml, u.id, []);
  }

  /** The hoist that remove performs on a node whose right child is null. */
  lemma LiftLeftHoistable(t: Shape, nodes: seq<Node>, path: seq<bool>, nodes': seq<Node>)
    requires Linked(t, Null, nodes) && Distinct(InOrder(t)) && ValidPath(t, path) && SubAt(t, path).Branch?
    requires SubAt(t, path).right == Nil && SubAt(t, path).left.Branch?
    requires var x, l := SubAt(t, path).id, SubAt(t, path).left.id;
             && x < |nodes| && l < |nodes|
             && nodes' == Adopt(Adopt(nodes[x := Node(nodes[l].key, nodes[l].value, nodes[x].parent, nodes[l].left, nodes[l].right)],
                                      nodes[l].right, x), nodes[l].left, x)
    ensures var u := SubAt(t, path);
            var LL, LR := u.left.left, u.left.right;
            Hoistable(t, nodes, path, Branch(u.id, LL, LR), |InOrder(u.left)|, u.left.id, nodes', {u.id, RootId(LL), RootId(LR)})
  {
    var u := SubAt(t, path);
    var x, ll := u.id, u.left;
    var l, LL, LR := ll.id, ll.left, ll.right;
    var n := Node(nodes[l].key, nodes[l].value, nodes[x].parent, nodes[l].left, nodes[l].right);
    var m, ml := InOrder(u), InOrder(ll);
    var l1, l2 := InOrder(LL), InOrder(LR);
    LeftSpine(u);
    assert Linked(LL, l, nodes) && Linked(LR, l, nodes)
        && nodes[l].left == RootId(LL) && nodes[l].right == RootId(LR) by {
      LinkedAt(t, Null, path, nodes);
      assert Linked(ll, x, nodes);
    }
    assert Distinct(l1) && Distinct(l2) && Disjoint(l1, l2)
        && x !in l1 && x !in l2 && l !in l1 && l !in l2 by {
      SubDistinct(t, path);
      BranchDistinct(u);
      BranchDistinct(ll);
    }
    RootIn(LL);
    RootIn(LR);
    AdoptArena(x, n, RootId(LL), RootId(LR), nodes, nodes');
    AdoptChildren(LL, LR, l, x, nodes, nodes');
    RenameOne(Drop(m, |ml|), InOrder(Branch(x, LL, LR)), l1, l2, l, x);
  }

  /** remove of a node whose right child is null (and whose left child is
      not): the mirror image of LiftRight. */
  lemma LiftLeft(t: Shape, nodes: seq<Node>, path: seq<bool>, nodes': seq<Node>, ix: nat) returns (t': Shape)
    requires Tree(t, nodes) && ValidPath(t, path) && SubAt(t, path).Branch?
    requires SubAt(t, path).right == Nil && SubAt(t, path).left.Branch?
    requires var x, l := SubAt(t, path).id, SubAt(t, path).left.id;
             && x < |nodes| && l < |nodes|
             && nodes' == Adopt(Adopt(nodes[x := Node(nodes[l].key, nodes[l].value, nodes[x].parent, nodes[l].left, nodes[l].right)],
                                      nodes[l].right, x), nodes[l].left, x)
    requires ix == |Before(t, path)| + |InOrder(SubAt(t, path).left)|
    ensures t' == ReplaceAt(t, path, Branch(SubAt(t, path).id, SubAt(t, path).left.left, SubAt(t, path).left.right))
    ensures Tree(t', nodes') && RootId(t') == RootId(t)
    ensures ix < |InOrder(t)| && InOrder(t)[ix] == SubAt(t, path).id
    ensures Pairs(InOrder(t'), nodes') == Drop(Pairs(InOrder(t), nodes), ix)
  {
    var u := SubAt(t, path);
    LiftLeftHoistable(t, nodes, path, nodes');
    var LL, LR := u.left.left, u.left.right;
    t' := Hoist(t, nodes, path, Branch(u.id, LL, LR), |InOrder(u.left)|, u.left.id, nodes', {u.id, RootId(LL), RootId(LR)}, ix);
  }

  /** Dropping x from a + [x] + ([r] + b). */
  lemma DropSecond(m: seq<int>, a: seq<int>, x: int, r: int, b: seq<int>)
    requires m == a + [x] + ([r] + b)
    ensures |a| < |m| && m[|a|] == x && r in m
    ensures Drop(m, |a|) == a + [r] + b
  {
    assert m[|a| + 1] == r;
    assert m[..|a|] == a;
    assert m[|a| + 1..] == [r] + b;
  }

  /** The in-order sequence of a node with two children whose right child
      has no left child. */
  lemma SpliceSpine(u: Shape)
    requires u.Branch? && u.right.Branch? && u.right.left == Nil
    ensures var m, ml, l2 := InOrder(u), InOrder(u.left), InOrder(u.right.right);
            && m == ml + [u.id] + ([u.right.id] + l2)
            && |ml| < |m| && m[|ml|] == u.id && u.right.id in m
            && Drop(m, |ml|) == ml + [u.right.id] + l2
            && Within({u.id, RootId(u.right.right)}, m)
  {
    RootIn(u.right.right);
    var m, ml, mr := InOrder(u), InOrder(u.left), InOrder(u.right);
    var r, l2 := u.right.id, InOrder(u.right.right);
    assert mr == InOrder(Nil) + [r] + l2;
    assert InOrder(Nil) + [r] == [r];
    DropSecond(m, ml, u.id, r, l2);
  }

  /** Slot x gets the new record n and then becomes the parent of b,
      unless b is null. */
  lemma AdoptOne(x: nat, n: Node, b: int, nodes: seq<Node>, nodes': seq<Node>)
    requires x < |nodes| && b != x
    requires nodes' == Adopt(nodes[x := n], b, x)
    ensures |nodes'| == |nodes| && nodes'[x] == n
    ensures ChangedOnly(nodes, nodes', {x, b}) && SameEntriesBut(nodes, nodes', x)
    ensures 0 <= b < |nodes| ==> nodes'[b] == nodes[b].(parent := x)
  {
    var n1 := nodes[x := n];
    forall y | 0 <= y < |nodes| && y !in {x, b} ensures y < |nodes'| && nodes'[y] == nodes[y] {
      assert nodes'[y] == n1[y];
    }
  }

  /** Neither x nor the root of B is a slot of A, and only the root of B is
      among them in B. */
  lemma SpliceFrames(A: Shape, B: Shape, x: int)
    requires Disjoint(InOrder(A), InOrder(B))
    requires x !in InOrder(A) && x !in InOrder(B)
    ensures Untouched(A, {x, RootId(B)}) && BelowRootUnchanged(B, {x, RootId(B)})
  {
    RootIn(B);
  }

  /** The record remove writes into a node with two children whose right
      child r has no left child: r's pair, and r's right child as its own. */
  function Spliced(nodes: seq<Node>, x: nat, r: nat): (n: Node)
    requires x < |nodes| && r < |nodes|
    ensures n.key == nodes[r].key && n.value == nodes[r].value && n.right == nodes[r].right
    ensures n.parent == nodes[x].parent && n.left == nodes[x].left
  {
    nodes[x].(key := nodes[r].key, value := nodes[r].value, right := nodes[r].right)
  }

  /** The hoist that remove performs on a node with two children whose
      right child has no left child, with the parent link of the right
      child's right child set to the node. */
  lemma SpliceHoistable(t: Shape, nodes: seq<Node>, path: seq<bool>, nodes': seq<Node>)
    requires Linked(t, Null, nodes) && Distinct(InOrder(t)) && ValidPath(t, path) && SubAt(t, path).Branch?
    requires SubAt(t, path).right.Branch? && SubAt(t, path).right.left == Nil
    requires var x, r := SubAt(t, path).id, SubAt(t, path).right.id;
             && x < |nodes| && r < |nodes|
             && nodes' == Adopt(nodes[x := Spliced(nodes, x, r)], nodes[r].right, x)
    ensures var u := SubAt(t, path);
            var L, RR := u.left, u.right.right;
            Hoistable(t, nodes, path, Branch(u.id, L, RR), |InOrder(L)|, u.right.id, nodes', {u.id, RootId(RR)})
  {
    var u := SubAt(t, path);
    var x, L, rr := u.id, u.left, u.right;
    var r, RR := rr.id, rr.right;
    var m, ml, l2 := InOrder(u), InOrder(L), InOrder(RR);
    SpliceSpine(u);
    assert Linked(L, x, nodes) && Linked(RR, r, nodes)
        && nodes[x].left == RootId(L) && nodes[r].right == RootId(RR) by {
      LinkedAt(t, Null, path, nodes);
      assert Linked(rr, x, nodes);
    }
    assert Distinct(ml) && Distinct(l2) && Disjoint(ml, l2)
        && x !in ml && x !in l2 && r !in ml && r !in l2 by {
      SubDistinct(t, path);
      BranchDistinct(u);
      BranchDistinct(rr);
      assert InOrder(rr) == [] + [r] + l2;
    }
    RootIn(RR);
    AdoptOne(x, Spliced(nodes, x, r), RootId(RR), nodes, nodes');
    SpliceFrames(L, RR, x);
    FrameLinked(L, x, nodes, nodes', {x, RootId(RR)});
    ReparentFrame(RR, r, x, nodes, nodes', {x, RootId(RR)});
    RenameOne(Drop(m, |ml|), InOrder(Branch(x, L, RR)), ml, l2, r, x);
  }

  /** remove of a node with two children whose right child has no left
      child: the node takes over the right child's pair and its right
      subtree. */
  lemma Splice(t: Shape, nodes: seq<Node>, path: seq<bool>, nodes': seq<Node>, ix: nat) returns (t': Shape)
    requires Tree(t, nodes) && ValidPath(t, path) && SubAt(t, path).Branch?
    requires SubAt(t, path).right.Branch? && SubAt(t, path).right.left == Nil
    requires var x, r := SubAt(t, path).id, SubAt(t, path).right.id;
             && x < |nodes| && r < |nodes|
             && nodes' == Adopt(nodes[x := Spliced(nodes, x, r)], nodes[r].right, x)
    requires ix == |Before(t, path)| + |InOrder(SubAt(t, path).left)|
    ensures t' == ReplaceAt(t, path, Branch(SubAt(t, path).id, SubAt(t, path).left, SubAt(t, path).right.right))
    ensures Tree(t', nodes') && RootId(t') == RootId(t)
    ensures ix < |InOrder(t)| && InOrder(t)[ix] == SubAt(t, path).id
    ensures Pairs(InOrder(t'), nodes') == Drop(Pairs(InOrder(t), nodes), ix)
  {
    var u := SubAt(t, path);
    SpliceHoistable(t, nodes, path, nodes');
    var L, RR := u.left, u.right.right;
    t' := Hoist(t, nodes, path, Branch(u.id, L, RR), |InOrder(L)|, u.right.id, nodes', {u.id, RootId(RR)}, ix);
  }

  /** The subtree at path of a tree whose subtree at path was replaced. */
  lemma {:induction false} SubReplace(t: Shape, path: seq<bool>, s: Shape)
    requires ValidPath(t, path)
    ensures ValidPath(ReplaceAt(t, path, s), path) && SubAt(ReplaceAt(t, path, s), path) == s
  {
    if path != [] {
      SubReplace(Child(t, path[0]), path[1..], s);
    }
  }

  /** The same case as the source writes it, without the parent update:
      whenever the right child's right child exists, its parent link still
      names the removed right child, so the arena no longer describes the
      tree that results. */
  lemma SpliceAsWritten(t: Shape, nodes: seq<Node>, path: seq<bool>)
    requires Tree(t, nodes) && ValidPath(t, path) && SubAt(t, path).Branch?
    requires SubAt(t, path).right.Branch? && SubAt(t, path).right.left == Nil
    requires SubAt(t, path).right.right.Branch?
    requires SubAt(t, path).id < |nodes| && SubAt(t, path).right.id < |nodes|
    ensures var u := SubAt(t, path);
            var x, r, c := u.id, u.right.id, u.right.right.id;
            var written := nodes[x := Spliced(nodes, x, r)];
            && c < |written| && written[c].parent == r && r != x
            && !Linked(ReplaceAt(t, path, Branch(x, u.left, u.right.right)), Null, written)
  {
    var u := SubAt(t, path);
    var x, rr := u.id, u.right;
    var r, RR := rr.id, rr.right;
    var c := RR.id;
    var written := nodes[x := Spliced(nodes, x, r)];
    var s' := Branch(x, u.left, RR);
    LinkedAt(t, Null, path, nodes);
    assert Linked(rr, x, nodes) && Linked(RR, r, nodes);
    SubDistinct(t, path);
    BranchDistinct(u);
    BranchDistinct(rr);
    RootIn(RR);
    assert InOrder(rr) == InOrder(Nil) + [r] + InOrder(RR);
    assert c != x && r != x;
    assert written[c] == nodes[c];
    var t' := ReplaceAt(t, path, s');
    if Linked(t', Null, written) {
      SubReplace(t, path, s');
      LinkedAt(t', Null, path, written);
      assert false;
    }
  }

  /** remove's general two-child case up to its recursive call: with the
      pair of the leftmost node y of the right subtree copied into the node
      x at path, the tree is still well formed, pair ix (x's) now repeats
      pair ix + 1 (y's), and a search for y's key from y stops at y. */
  lemma CopyLeftmost(t: Shape, nodes: seq<Node>, path: seq<bool>, mp: seq<bool>, ix: nat, nodes': seq<Node>)
    requires Tree(t, nodes) && ValidPath(t, path) && SubAt(t, path).Branch?
    requires ValidPath(t, mp) && SubAt(t, mp).Branch? && SubAt(t, mp).left == Nil
    requires Before(t, mp) == Before(t, path) + InOrder(SubAt(t, path).left) + [SubAt(t, path).id]
    requires ix == |Before(t, path)| + |InOrder(SubAt(t, path).left)|
    requires var x, y := SubAt(t, path).id, SubAt(t, mp).id;
             && x < |nodes| && y < |nodes|
             && nodes' == nodes[x := nodes[x].(key := nodes[y].key, value := nodes[y].value)]
    ensures ix + 1 < |InOrder(t)| && InOrder(t)[ix] == SubAt(t, path).id && InOrder(t)[ix + 1] == SubAt(t, mp).id
    ensures Tree(t, nodes')
    ensures Stored(SubAt(t, mp), nodes')
    ensures FindNode(SubAt(t, mp), nodes'[SubAt(t, mp).id].key, nodes') == SubAt(t, mp).id
  {
    SuccessorPosition(t, path, mp);
    CopySuccessor(t, nodes, ix, nodes');
    LinkedAt(t, Null, mp, nodes');
    LinkedStored(SubAt(t, mp), ParentAt(t, Null, mp), nodes');
  }

  /** After the successor's pair (slot y, at in-order index ix + 1) is
      copied over pair ix (slot x), taking out the one pair that slot y
      holds takes out pair ix of the original. */
  lemma SuccessorDropped(t: Shape, nodes: seq<Node>, ix: nat, nodes': seq<Node>, jx: int, c: seq<Entry>)
    requires Tree(t, nodes) && ix + 1 < |InOrder(t)|
    requires var x, y := InOrder(t)[ix], InOrder(t)[ix + 1];
             && x < |nodes| && y < |nodes|
             && nodes' == nodes[x := nodes[x].(key := nodes[y].key, value := nodes[y].value)]
    requires Tree(t, nodes') && 0 <= jx < |InOrder(t)| && InOrder(t)[jx] == InOrder(t)[ix + 1]
    requires c == Drop(Pairs(InOrder(t), nodes'), jx)
    ensures c == Drop(Pairs(InOrder(t), nodes), ix)
  {
    CopySuccessor(t, nodes, ix, nodes');
    DistinctIndex(InOrder(t), jx, ix + 1);
    DropCopied(Pairs(InOrder(t), nodes), ix);
  }

  /** The two-child case with a right child that has a left child: the
      node at in-order index ix takes over the pair of its in-order
      successor (which remove then takes out). The tree stays well formed,
      with pair ix overwritten by pair ix + 1. */
  lemma CopySuccessor(t: Shape, nodes: seq<Node>, ix: nat, nodes': seq<Node>)
    requires Tree(t, nodes) && ix + 1 < |InOrder(t)|
    requires var x, y := InOrder(t)[ix], InOrder(t)[ix + 1];
             && x < |nodes| && y < |nodes|
             && nodes' == nodes[x := nodes[x].(key := nodes[y].key, value := nodes[y].value)]
    ensures Tree(t, nodes')
    ensures var c := Pairs(InOrder(t), nodes);
            Pairs(InOrder(t), nodes') == c[ix := c[ix + 1]]
  {
    var io := InOrder(t);
    var x, y := io[ix], io[ix + 1];
    var c := Pairs(io, nodes);
    forall z | z in io ensures 0 <= z < |nodes| && z < |nodes'| && SameLinks(nodes[z], nodes'[z]) {
      var j :| 0 <= j < |io| && io[j] == z;
    }
    LinkedFrame(t, Null, nodes, nodes');
    assert InArena(io, nodes');
    forall j | 0 <= j < |io| ensures Pairs(io, nodes')[j] == c[ix := c[ix + 1]][j] {
      if j != ix {
        if io[j] == x {
          DistinctIndex(io, j, ix);
        }
      }
    }
    SortedCopySuccessor(c, ix);
    TreeFrom(t, nodes', io);
  }
}

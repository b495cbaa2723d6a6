/** Map<Key, Value> with Key = Value = int: a thin wrapper that owns a
    BinarySearchTree and keeps at most one pair per key. */
module Maps {
  import opened Entries
  import opened Shapes
  import opened Bst

  /** The pairs after the tree's insert(k, v): (k, v) placed at the lower
      bound of k. */
  ghost function Inserted(c: seq<Entry>, k: int, v: int): seq<Entry> {
    c[..LowerBound(c, k)] + [(k, v)] + c[LowerBound(c, k)..]
  }

  /** The pairs after Map::insert(k, v): a present key is erased and
      nothing is inserted; an absent key gets the pair (k, v). */
  ghost function Put(c: seq<Entry>, k: int, v: int): seq<Entry> {
    if HasKey(c, k) then WithoutKey(c, k) else Inserted(c, k, v)
  }

  /** The pairs after Map::operator[](k): an absent key gets (k, Value()),
      which is 0 for int; a present key changes nothing. */
  ghost function Indexed(c: seq<Entry>, k: int): seq<Entry> {
    if HasKey(c, k) then c else Inserted(c, k, 0)
  }

  /** The keys that occur in a sequence of pairs. */
  ghost function Keys(c: seq<Entry>): set<int> {
    set i | 0 <= i < |c| :: c[i].0
  }

  lemma KeysHasKey(c: seq<Entry>, k: int)
    ensures k in Keys(c) <==> HasKey(c, k)
  {
    if HasKey(c, k) {
      var i :| 0 <= i < |c| && c[i].0 == k;
      assert c[i].0 in Keys(c);
    }
  }

  /** The tree's insert adds the pair and nothing else. */
  lemma InsertedContents(c: seq<Entry>, k: int, v: int)
    ensures |Inserted(c, k, v)| == |c| + 1
    ensures multiset(Inserted(c, k, v)) == multiset(c) + multiset{(k, v)}
    ensures Keys(Inserted(c, k, v)) == Keys(c) + {k}
  {
    var j := LowerBound(c, k);
    var r := Inserted(c, k, v);
    assert c == c[..j] + c[j..];
    assert r[j] == (k, v);
    forall x | x in Keys(r) ensures x in Keys(c) + {k} {
      var i :| 0 <= i < |r| && r[i].0 == x;
      if i < j {
        assert r[i] == c[i];
      } else if i > j {
        assert r[i] == c[i - 1];
      }
    }
    forall x | x in Keys(c) ensures x in Keys(r) {
      var i :| 0 <= i < |c| && c[i].0 == x;
      if i < j {
        assert r[i] == c[i];
      } else {
        assert r[i + 1] == c[i];
      }
    }
  }

  /** Erasing k takes exactly k out of the keys. */
  lemma KeysWithoutKey(c: seq<Entry>, k: int)
    ensures Keys(WithoutKey(c, k)) == Keys(c) - {k}
  {
    var r := WithoutKey(c, k);
    forall x | x in Keys(r) ensures x in Keys(c) && x != k {
      var i :| 0 <= i < |r| && r[i].0 == x;
      assert r[i] in r;
      var m :| 0 <= m < |c| && c[m] == r[i];
    }
    forall x | x in Keys(c) && x != k ensures x in Keys(r) {
      var i :| 0 <= i < |c| && c[i].0 == x;
      assert c[i] in c;
      var m :| 0 <= m < |r| && r[m] == c[i];
    }
  }

  /** With unique keys a key is held by at most one pair. */
  lemma {:induction false} UniqueCount(s: seq<Entry>, k: int)
    requires UniqueKeys(s)
    ensures Count(s, k) == if HasKey(s, k) then 1 else 0
  {
    CountZero(s, k);
    if s != [] {
      assert UniqueKeys(s[1..]) by {
        forall a, b | 0 <= a < b < |s[1..]| ensures s[1..][a].0 != s[1..][b].0 {
          assert s[1..][a] == s[a + 1] && s[1..][b] == s[b + 1];
        }
      }
      UniqueCount(s[1..], k);
      if s[0].0 == k {
        assert !HasKey(s[1..], k) by {
          forall i | 0 <= i < |s[1..]| ensures s[1..][i].0 != k {
            assert s[1..][i] == s[i + 1];
          }
        }
      }
      if s[0].0 != k && HasKey(s, k) {
        var i :| 0 <= i < |s| && s[i].0 == k;
        assert s[1..][i - 1].0 == k;
      }
    }
  }

  /** With unique keys, erasing a present key takes out exactly one pair. */
  lemma UniqueErase(c: seq<Entry>, k: int)
    requires UniqueKeys(c) && HasKey(c, k)
    ensures |WithoutKey(c, k)| == |c| - 1
  {
    UniqueCount(c, k);
    WithoutKeyCount(c, k);
  }

  /** Map::insert toggles the key: present afterwards exactly when absent
      before, and the keys otherwise stay. */
  lemma PutKeys(c: seq<Entry>, k: int, v: int)
    ensures Keys(Put(c, k, v)) == if HasKey(c, k) then Keys(c) - {k} else Keys(c) + {k}
  {
    if HasKey(c, k) {
      KeysWithoutKey(c, k);
    } else {
      InsertedContents(c, k, v);
    }
  }

  /** Map::insert keeps keys unique; of an absent key it adds one pair, and
      that pair is the only one with the key; of a present key it takes
      one pair out. */
  lemma PutUnique(c: seq<Entry>, k: int, v: int)
    requires UniqueKeys(c)
    ensures UniqueKeys(Put(c, k, v))
    ensures HasKey(c, k) ==> |Put(c, k, v)| == |c| - 1
    ensures !HasKey(c, k) ==> |Put(c, k, v)| == |c| + 1
    ensures !HasKey(c, k) ==> forall i :: 0 <= i < |Put(c, k, v)| ==> (Put(c, k, v)[i].0 == k <==> Put(c, k, v)[i] == (k, v))
  {
    if HasKey(c, k) {
      UniqueWithoutKey(c, k);
      UniqueErase(c, k);
    } else {
      UniqueInsert(c, LowerBound(c, k), (k, v));
      InsertedContents(c, k, v);
      var r := Inserted(c, k, v);
      forall i | 0 <= i < |r| ensures r[i].0 == k <==> r[i] == (k, v) {
        var j := LowerBound(c, k);
        if i < j {
          assert r[i] == c[i];
        } else if i > j {
          assert r[i] == c[i - 1];
        }
      }
    }
  }

  /** operator[] keeps keys unique, leaves the key present, and grows the
      map by one exactly when the key was absent. */
  lemma IndexedUnique(c: seq<Entry>, k: int)
    requires UniqueKeys(c)
    ensures UniqueKeys(Indexed(c, k)) && HasKey(Indexed(c, k), k)
    ensures |Indexed(c, k)| == if HasKey(c, k) then |c| else |c| + 1
    ensures Keys(Indexed(c, k)) == Keys(c) + {k}
  {
    if !HasKey(c, k) {
      UniqueInsert(c, LowerBound(c, k), (k, 0));
      InsertedContents(c, k, 0);
    }
    KeysHasKey(c, k);
    KeysHasKey(Indexed(c, k), k);
  }

  /** Map: the tree it owns, holding at most one pair per key. */
  class Map {
    const tree: BinarySearchTree

    ghost predicate Valid()
      reads this, tree
    {
      tree.Valid() && UniqueKeys(tree.Contents())
    }

    ghost function Contents(): seq<Entry>
      reads this, tree
      requires Valid()
    {
      tree.Contents()
    }

    constructor ()
      ensures Valid() && Contents() == [] && fresh(tree)
    {
      tree := new BinarySearchTree();
    }

    /** insert(key, value): erase a present key, otherwise insert the pair.
        Erasing reaches the tree's erase, so a present key must not be the
        only pair. */
    method Insert(k: int, v: int)
      requires Valid() && (HasKey(Contents(), k) ==> |Contents()| > 1)
      modifies tree
      ensures Valid() && Contents() == Put(old(Contents()), k, v)
    {
      ghost var c := Contents();
      var it := tree.Find(k);
      if it != tree.End() {
        UniqueErase(c, k);
        tree.Erase(k);
        UniqueWithoutKey(c, k);
      } else {
        tree.Insert(k, v);
        UniqueInsert(c, LowerBound(c, k), (k, v));
      }
    }

    /** erase(key): every pair with the key goes, the rest stay in order. */
    method Erase(k: int)
      requires Valid() && (HasKey(Contents(), k) ==> |Contents()| > 1)
      modifies tree
      ensures Valid() && Contents() == WithoutKey(old(Contents()), k)
    {
      ghost var c := Contents();
      if HasKey(c, k) {
        UniqueErase(c, k);
      }
      tree.Erase(k);
      UniqueWithoutKey(c, k);
    }

    /** find(key): the node holding the key, or end(); the node's value is
        the one the map stores for the key. */
    method Find(k: int) returns (it: int)
      requires Valid()
      ensures it == Null <==> k !in Keys(Contents())
      ensures it != Null ==> it in tree.Order() && tree.nodes[it].key == k && (k, tree.nodes[it].value) in Contents()
    {
      it := tree.Find(k);
      KeysHasKey(Contents(), k);
      if it != Null {
        ghost var i := tree.IndexOf(it);
        assert Contents()[i] == (k, tree.nodes[it].value);
      }
    }

    /** operator[](key): insert (key, Value()) when the key is absent, then
        return the node holding the key, through which the value is read
        or written. */
    method Index(k: int) returns (it: int)
      requires Valid()
      modifies tree
      ensures Valid() && Contents() == Indexed(old(Contents()), k)
      ensures it in tree.Order() && tree.nodes[it].key == k && (k, tree.nodes[it].value) in Contents()
    {
      ghost var c := Contents();
      var found := Find(k);
      KeysHasKey(c, k);
      if found == Null {
        tree.Insert(k, 0);
        UniqueInsert(c, LowerBound(c, k), (k, 0));
      }
      IndexedUnique(c, k);
      KeysHasKey(Contents(), k);
      it := Find(k);
    }

    /** begin(): the node of the least key; the map must not be empty. */
    method Begin() returns (it: int)
      requires Valid() && |Contents()| > 0
      ensures it == tree.Order()[0] && tree.nodes[it].key in Keys(Contents())
    {
      it := tree.Begin();
      assert Contents()[0].0 == tree.nodes[it].key;
    }

    /** end(): past the last node. */
    function End(): (it: int)
      reads this, tree
      requires Valid()
      ensures it !in tree.Order()
    {
      tree.End()
    }

    /** size(): the tree's size, one per key. */
    function Size(): (n: nat)
      reads this, tree
      requires Valid()
      ensures n == |Contents()| == |Keys(Contents())|
    {
      UniqueKeysCount(Contents());
      tree.Size()
    }
  }

  /** With unique keys there are as many pairs as keys. */
  lemma {:induction false} UniqueKeysCount(c: seq<Entry>)
    requires UniqueKeys(c)
    ensures |Keys(c)| == |c|
  {
    if c != [] {
      var r := c[1..];
      assert UniqueKeys(r) by {
        forall a, b | 0 <= a < b < |r| ensures r[a].0 != r[b].0 {
          assert r[a] == c[a + 1] && r[b] == c[b + 1];
        }
      }
      UniqueKeysCount(r);
      assert Keys(c) == Keys(r) + {c[0].0} by {
        forall x | x in Keys(c) ensures x in Keys(r) + {c[0].0} {
          var i :| 0 <= i < |c| && c[i].0 == x;
          if i > 0 {
            assert r[i - 1] == c[i];
          }
        }
        forall x | x in Keys(r) ensures x in Keys(c) {
          var i :| 0 <= i < |r| && r[i].0 == x;
          assert c[i + 1] == r[i];
        }
      }
      forall x | x in Keys(r) ensures x != c[0].0 {
        var i :| 0 <= i < |r| && r[i].0 == x;
        assert r[i] == c[i + 1];
      }
    }
  }
}

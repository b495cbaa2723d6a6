/** Set<Value> with Value = int: a Map whose pairs are (value, value). */
module Sets {
  import opened Entries
  import opened Shapes
  import opened Maps

  /** Every pair stores its key as its value: what Set keeps. */
  ghost predicate Diagonal(c: seq<Entry>) {
    forall i :: 0 <= i < |c| ==> c[i].0 == c[i].1
  }

  /** Set::insert and Set::erase keep every stored value equal to its key. */
  lemma DiagonalPut(c: seq<Entry>, v: int)
    requires Diagonal(c)
    ensures Diagonal(Put(c, v, v)) && Diagonal(WithoutKey(c, v))
  {
    forall e | e in WithoutKey(c, v) ensures e.0 == e.1 {
      var i :| 0 <= i < |c| && c[i] == e;
    }
    if !HasKey(c, v) {
      var j := LowerBound(c, v);
      var r := Inserted(c, v, v);
      forall i | 0 <= i < |r| ensures r[i].0 == r[i].1 {
        if i < j {
          assert r[i] == c[i];
        } else if i > j {
          assert r[i] == c[i - 1];
        }
      }
    }
  }

  /** Set: the Map it owns, every pair stored as (value, value). */
  class Set {
    const mapping: Map

    ghost predicate Valid()
      reads this, mapping, mapping.tree
    {
      mapping.Valid() && Diagonal(mapping.Contents())
    }

    /** The stored values. */
    ghost function Elements(): set<int>
      reads this, mapping, mapping.tree
      requires Valid()
    {
      Keys(mapping.Contents())
    }

    constructor ()
      ensures Valid() && Elements() == {} && fresh(mapping) && fresh(mapping.tree)
    {
      mapping := new Map();
    }

    /** insert(value): the pair (value, value) through Map::insert, so an
        element already present is removed instead. */
    method Insert(v: int)
      requires Valid() && (v in Elements() ==> |Elements()| > 1)
      modifies mapping.tree
      ensures Valid() && mapping.Contents() == Put(old(mapping.Contents()), v, v)
      ensures Elements() == if v in old(Elements()) then old(Elements()) - {v} else old(Elements()) + {v}
    {
      ghost var c := mapping.Contents();
      KeysHasKey(c, v);
      UniqueKeysCount(c);
      mapping.Insert(v, v);
      DiagonalPut(c, v);
      PutKeys(c, v, v);
    }

    /** erase(value): the element goes, the others stay. */
    method Erase(v: int)
      requires Valid() && (v in Elements() ==> |Elements()| > 1)
      modifies mapping.tree
      ensures Valid() && mapping.Contents() == WithoutKey(old(mapping.Contents()), v)
      ensures Elements() == old(Elements()) - {v}
    {
      ghost var c := mapping.Contents();
      KeysHasKey(c, v);
      UniqueKeysCount(c);
      mapping.Erase(v);
      DiagonalPut(c, v);
      KeysWithoutKey(c, v);
    }

    /** find(value): the node holding the element, or end(). */
    method Find(v: int) returns (it: int)
      requires Valid()
      ensures it == Null <==> v !in Elements()
      ensures it != Null ==> it in mapping.tree.Order() && mapping.tree.nodes[it].key == v && mapping.tree.nodes[it].value == v
    {
      it := mapping.Find(v);
      if it != Null {
        ghost var i :| 0 <= i < |mapping.Contents()| && mapping.Contents()[i] == (v, mapping.tree.nodes[it].value);
      }
    }

    /** contains(value): find did not return end(). */
    method Contains(v: int) returns (b: bool)
      requires Valid()
      ensures b <==> v in Elements()
    {
      var it := Find(v);
      b := it != Null;
    }
  }
}

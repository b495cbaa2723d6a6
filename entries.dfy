/** Sequences of stored (key, value) pairs, in in-order order: the abstract
    contents of the tree, and the facts about them that the tree, the map and
    the set rely on. */
module Entries {

  /** std::pair<Key, Value> with Key and Value instantiated to int. */
  type Entry = (int, int)

  /** The ordering invariant the tree keeps: in-order keys never decrease. */
  ghost predicate Sorted(s: seq<Entry>) {
    forall i, j :: 0 <= i < j < |s| ==> s[i].0 <= s[j].0
  }

  ghost predicate HasKey(s: seq<Entry>, k: int) {
    exists i :: 0 <= i < |s| && s[i].0 == k
  }

  /** Every key occurs at most once: what Map promises on top of the tree. */
  ghost predicate UniqueKeys(s: seq<Entry>) {
    forall i, j :: 0 <= i < j < |s| ==> s[i].0 != s[j].0
  }

  /** Index of the first pair whose key is not below k. */
  function LowerBound(s: seq<Entry>, k: int): (j: nat)
    ensures j <= |s|
    ensures forall i :: 0 <= i < j ==> s[i].0 < k
    ensures j < |s| ==> s[j].0 >= k
  {
    if s == [] || s[0].0 >= k then 0 else 1 + LowerBound(s[1..], k)
  }

  /** s with every pair whose key is k taken out, the rest in order. */
  function WithoutKey(s: seq<Entry>, k: int): (r: seq<Entry>)
    ensures forall e :: e in r <==> e in s && e.0 != k
  {
    if s == [] then []
    else (if s[0].0 == k then [] else [s[0]]) + WithoutKey(s[1..], k)
  }

  /** s without its element at index i. */
  function Drop<T>(s: seq<T>, i: nat): seq<T>
    requires i < |s|
  {
    s[..i] + s[i + 1..]
  }

  /** Number of pairs whose key is k. */
  function Count(s: seq<Entry>, k: int): nat
  {
    if s == [] then 0 else (if s[0].0 == k then 1 else 0) + Count(s[1..], k)
  }

  /** In a sorted sequence, every pair from the lower bound on has key >= k,
      so the lower bound splits the sequence by key. */
  lemma {:induction false} SortedLowerBound(s: seq<Entry>, k: int, i: int)
    requires Sorted(s)
    requires LowerBound(s, k) <= i < |s|
    ensures s[i].0 >= k
  {
    var j := LowerBound(s, k);
    assert s[j].0 >= k && s[j].0 <= s[i].0;
  }

  /** Walking back from a pair with key k in a sorted sequence, the first
      pair met whose key is not k sits just before the lower bound of k. */
  lemma BlockStart(s: seq<Entry>, k: int, j: int, f: nat)
    requires Sorted(s) && f < |s| && s[f].0 == k
    requires LowerBound(s, k) <= j + 1 && 0 <= j <= f && s[j].0 != k
    ensures j + 1 == LowerBound(s, k)
  {
    if j >= LowerBound(s, k) {
      SortedLowerBound(s, k, j);
    }
  }

  /** In sorted pairs, every pair from the lower bound of k up to a pair
      with key k has key k. */
  lemma SortedBlock(s: seq<Entry>, k: int, f: nat)
    requires Sorted(s) && f < |s| && s[f].0 == k
    ensures forall i :: LowerBound(s, k) <= i <= f ==> s[i].0 == k
  {
  }

  /** The lower bound is the only split point between keys below k and keys
      at or above k. */
  lemma LowerBoundUnique(s: seq<Entry>, k: int, j: nat)
    requires j <= |s|
    requires forall i :: 0 <= i < j ==> s[i].0 < k
    requires forall i :: j <= i < |s| ==> s[i].0 >= k
    ensures j == LowerBound(s, k)
  {
    var lb := LowerBound(s, k);
    if j < |s| {
      assert s[j].0 >= k;
    }
    if lb < |s| {
      assert s[lb].0 >= k;
    }
  }

  /** Taking one pair out of a sorted sequence leaves it sorted. */
  lemma SortedDelete(s: seq<Entry>, i: nat)
    requires Sorted(s) && i < |s|
    ensures Sorted(s[..i] + s[i + 1..])
  {
    var r := s[..i] + s[i + 1..];
    forall a, b | 0 <= a < b < |r| ensures r[a].0 <= r[b].0 {
      var a' := if a < i then a else a + 1;
      var b' := if b < i then b else b + 1;
      assert r[a] == s[a'] && r[b] == s[b'];
    }
  }

  /** Putting e between the pairs with smaller keys and those with larger or
      equal keys keeps the sequence sorted. */
  lemma SortedInsert(s: seq<Entry>, j: nat, e: Entry)
    requires Sorted(s) && j <= |s|
    requires forall i :: 0 <= i < j ==> s[i].0 <= e.0
    requires forall i :: j <= i < |s| ==> e.0 <= s[i].0
    ensures Sorted(s[..j] + [e] + s[j..])
  {
    var r := s[..j] + [e] + s[j..];
    forall a, b | 0 <= a < b < |r| ensures r[a].0 <= r[b].0 {
      if a < j && b > j {
        assert r[a] == s[a] && r[b] == s[b - 1];
      } else if a > j {
        assert r[a] == s[a - 1] && r[b] == s[b - 1];
      } else if b < j {
        assert r[a] == s[a] && r[b] == s[b];
      }
    }
  }

  /** Overwriting pair i of a sorted sequence with its successor keeps it
      sorted (the two-child removal copies the in-order successor upward). */
  lemma SortedCopySuccessor(s: seq<Entry>, i: nat)
    requires Sorted(s) && i + 1 < |s|
    ensures Sorted(s[i := s[i + 1]])
  {
  }

  /** Copying the successor's pair over pair i and then dropping the
      successor is the same as dropping pair i. */
  lemma DropCopied<T>(s: seq<T>, i: nat)
    requires i + 1 < |s|
    ensures Drop(s[i := s[i + 1]], i + 1) == Drop(s, i)
  {
    var c := s[i := s[i + 1]];
    assert c[..i + 1] == s[..i] + [s[i + 1]];
    assert c[i + 2..] == s[i + 2..];
    assert s[i + 1..] == [s[i + 1]] + s[i + 2..];
  }

  lemma {:induction false} WithoutKeyConcat(a: seq<Entry>, b: seq<Entry>, k: int)
    ensures WithoutKey(a + b, k) == WithoutKey(a, k) + WithoutKey(b, k)
  {
    if a == [] {
      assert a + b == b;
    } else {
      assert (a + b)[1..] == a[1..] + b;
      WithoutKeyConcat(a[1..], b, k);
    }
  }

  /** Removing one pair with key k does not change what is left once every
      pair with key k is gone: this is the invariant of erase's loop. */
  lemma WithoutKeyDelete(s: seq<Entry>, i: nat, k: int)
    requires i < |s| && s[i].0 == k
    ensures WithoutKey(s[..i] + s[i + 1..], k) == WithoutKey(s, k)
  {
    var a, b := s[..i], s[i + 1..];
    assert s == a + ([s[i]] + b);
    assert WithoutKey([s[i]], k) == [] by {
      assert [s[i]][1..] == [];
    }
    calc {
      WithoutKey(s, k);
      { WithoutKeyConcat(a, [s[i]] + b, k); }
      WithoutKey(a, k) + WithoutKey([s[i]] + b, k);
      { WithoutKeyConcat([s[i]], b, k); }
      WithoutKey(a, k) + (WithoutKey([s[i]], k) + WithoutKey(b, k));
      { assert WithoutKey([s[i]], k) + WithoutKey(b, k) == WithoutKey(b, k); }
      WithoutKey(a, k) + WithoutKey(b, k);
      { WithoutKeyConcat(a, b, k); }
      WithoutKey(a + b, k);
    }
  }

  lemma {:induction false} WithoutKeyAbsent(s: seq<Entry>, k: int)
    requires !HasKey(s, k)
    ensures WithoutKey(s, k) == s
  {
    if s != [] {
      assert !HasKey(s[1..], k) by {
        forall i | 0 <= i < |s[1..]| ensures s[1..][i].0 != k {
          assert s[1..][i] == s[i + 1];
        }
      }
      WithoutKeyAbsent(s[1..], k);
      assert s[0].0 != k;
      assert s == [s[0]] + s[1..];
    }
  }

  /** A sequence holding a pair with key k and a pair with another key
      holds at least two pairs. */
  lemma KeyAndOther(s: seq<Entry>, k: int)
    requires HasKey(s, k) && WithoutKey(s, k) != []
    ensures |s| > 1
  {
    var e := WithoutKey(s, k)[0];
    assert e in WithoutKey(s, k);
    var i :| 0 <= i < |s| && s[i].0 == k;
    var j :| 0 <= j < |s| && s[j] == e;
    assert i != j;
  }

  /** erase's size accounting: what remains plus what had key k is everything. */
  lemma {:induction false} WithoutKeyCount(s: seq<Entry>, k: int)
    ensures |WithoutKey(s, k)| + Count(s, k) == |s|
  {
    if s != [] {
      WithoutKeyCount(s[1..], k);
    }
  }

  /** Count is zero exactly when no pair carries the key. */
  lemma {:induction false} CountZero(s: seq<Entry>, k: int)
    ensures Count(s, k) == 0 <==> !HasKey(s, k)
  {
    if s != [] {
      CountZero(s[1..], k);
      if HasKey(s[1..], k) {
        var i :| 0 <= i < |s[1..]| && s[1..][i].0 == k;
        assert s[i + 1].0 == k;
      }
      if HasKey(s, k) && s[0].0 != k {
        var i :| 0 <= i < |s| && s[i].0 == k;
        assert s[1..][i - 1].0 == k;
      }
    }
  }

  /** Dropping pairs never creates a duplicate key. */
  lemma {:induction false} UniqueWithoutKey(s: seq<Entry>, k: int)
    requires UniqueKeys(s)
    ensures UniqueKeys(WithoutKey(s, k))
  {
    if s != [] {
      assert UniqueKeys(s[1..]) by {
        forall a, b | 0 <= a < b < |s[1..]| ensures s[1..][a].0 != s[1..][b].0 {
          assert s[1..][a] == s[a + 1] && s[1..][b] == s[b + 1];
        }
      }
      UniqueWithoutKey(s[1..], k);
      var rest := WithoutKey(s[1..], k);
      if s[0].0 != k {
        var r := [s[0]] + rest;
        forall a, b | 0 <= a < b < |r| ensures r[a].0 != r[b].0 {
          if a == 0 {
            assert r[b] in rest;
            assert r[b] in s[1..];
            var m :| 0 <= m < |s[1..]| && s[1..][m] == r[b];
            assert s[m + 1] == r[b];
          } else {
            assert r[a] == rest[a - 1] && r[b] == rest[b - 1];
          }
        }
      }
    }
  }

  /** Inserting a pair whose key is absent keeps keys unique. */
  lemma UniqueInsert(s: seq<Entry>, j: nat, e: Entry)
    requires UniqueKeys(s) && j <= |s| && !HasKey(s, e.0)
    ensures UniqueKeys(s[..j] + [e] + s[j..])
  {
    var r := s[..j] + [e] + s[j..];
    forall a, b | 0 <= a < b < |r| ensures r[a].0 != r[b].0 {
      if a == j {
        assert r[b] == s[b - 1];
      } else if b == j {
        assert r[a] == s[a];
      } else {
        var a' := if a < j then a else a - 1;
        var b' := if b < j then b else b - 1;
        assert r[a] == s[a'] && r[b] == s[b'];
      }
    }
  }

  lemma HasKeyConcat(a: seq<Entry>, b: seq<Entry>, k: int)
    ensures HasKey(a + b, k) <==> HasKey(a, k) || HasKey(b, k)
  {
    if HasKey(a + b, k) {
      var i :| 0 <= i < |a + b| && (a + b)[i].0 == k;
      if i >= |a| {
        assert b[i - |a|].0 == k;
      }
    }
    if HasKey(b, k) {
      var i :| 0 <= i < |b| && b[i].0 == k;
      assert (a + b)[i + |a|].0 == k;
    }
    if HasKey(a, k) {
      var i :| 0 <= i < |a| && a[i].0 == k;
      assert (a + b)[i].0 == k;
    }
  }

  /** A sorted sequence split around one pair: both sides are sorted, the
      left side's keys are at most the pair's key and the right side's at
      least. */
  lemma SortedSplit(a: seq<Entry>, e: Entry, b: seq<Entry>)
    requires Sorted(a + [e] + b)
    ensures Sorted(a) && Sorted(b)
    ensures forall i :: 0 <= i < |a| ==> a[i].0 <= e.0
    ensures forall i :: 0 <= i < |b| ==> e.0 <= b[i].0
  {
    var s := a + [e] + b;
    assert forall i :: 0 <= i < |a| ==> s[i] == a[i];
    assert forall i :: 0 <= i < |b| ==> s[|a| + 1 + i] == b[i];
    assert s[|a|] == e;
  }
}

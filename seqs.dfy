/** Sequence helpers for Python lists used as ordered collections. */
module Seqs {

  /** No element occurs twice. */
  predicate NoDups<T(==)>(s: seq<T>) {
    forall i, j :: 0 <= i < j < |s| ==> s[i] != s[j]
  }

  /** No element of `a` occurs in `b`. */
  predicate Disjoint<T(==)>(a: seq<T>, b: seq<T>) {
    forall x :: x in a ==> x !in b
  }

  /** The position of the first occurrence of `x` in `s`. */
  function FirstIndex<T(==)>(s: seq<T>, x: T): (i: nat)
    requires x in s
    ensures i < |s| && s[i] == x && x !in s[..i]
  {
    if s[0] == x then 0
    else
      var j := FirstIndex(s[1..], x);
      assert s[..j + 1] == [s[0]] + s[1..][..j];
      j + 1
  }

  /** Python's `list.remove(x)`: drops the first occurrence of `x` and keeps
      the order of the other elements. Python raises `ValueError` for an
      absent `x`; the backend only calls it after checking `x in s`, so that
      case is never reached, and the model leaves the list as it is. */
  function RemoveFirst<T(==)>(s: seq<T>, x: T): (r: seq<T>)
    ensures x in s ==>
              var i := FirstIndex(s, x);
              |r| == |s| - 1 && r[..i] == s[..i] && r[i..] == s[i + 1..]
    ensures x !in s ==> r == s
  {
    if x in s then
      var i := FirstIndex(s, x);
      s[..i] + s[i + 1..]
    else s
  }

  /** Removal keeps every other element and adds none. */
  lemma RemoveFirstMembers<T>(s: seq<T>, x: T)
    ensures forall y :: y in RemoveFirst(s, x) ==> y in s
    ensures forall y :: y in s && y != x ==> y in RemoveFirst(s, x)
  {
    if x in s {
      var i := FirstIndex(s, x);
      var r := RemoveFirst(s, x);
      assert r == s[..i] + s[i + 1..];
      forall y | y in s && y != x
        ensures y in r
      {
        var k :| 0 <= k < |s| && s[k] == y;
        if k < i {
          assert s[..i][k] == y;
        } else {
          assert s[i + 1..][k - i - 1] == y;
        }
      }
    }
  }

  /** A duplicate-free list stays duplicate-free and loses the element
      entirely. */
  lemma RemoveFirstNoDups<T>(s: seq<T>, x: T)
    requires NoDups(s)
    ensures NoDups(RemoveFirst(s, x)) && x !in RemoveFirst(s, x)
  {
    if x in s {
      var i := FirstIndex(s, x);
      var r := RemoveFirst(s, x);
      assert forall k :: 0 <= k < |r| ==> r[k] == s[if k < i then k else k + 1];
    }
  }

  /** A duplicate-free sequence has as many elements as the set of its elements. */
  lemma {:induction false} DistinctCard<T>(s: seq<T>)
    requires NoDups(s)
    ensures |set x | x in s| == |s|
  {
    if s != [] {
      DistinctCard(s[1..]);
      assert (set x | x in s) == {s[0]} + (set x | x in s[1..]);
      assert s[0] !in (set x | x in s[1..]);
    }
  }

  /** The values of `m` at `keys`, in the order of `keys` (Python's
      `list(d.values())` when `keys` is the dictionary's insertion order). */
  function ValuesAt<K, V>(m: map<K, V>, keys: seq<K>): (r: seq<V>)
    requires forall k :: k in keys ==> k in m
    ensures |r| == |keys|
    ensures forall i :: 0 <= i < |keys| ==> r[i] == m[keys[i]]
  {
    if keys == [] then [] else [m[keys[0]]] + ValuesAt(m, keys[1..])
  }

  /** When `keys` lists every key of `m` once, the values at `keys` are
      exactly one value per key, and every value of `m` appears. */
  lemma ValuesAtCoversMap<K, V>(m: map<K, V>, keys: seq<K>)
    requires NoDups(keys)
    requires forall k :: k in keys <==> k in m
    ensures |ValuesAt(m, keys)| == |m|
    ensures forall k :: k in m ==> m[k] in ValuesAt(m, keys)
  {
    DistinctCard(keys);
    assert (set k | k in keys) == m.Keys;
    var r := ValuesAt(m, keys);
    forall k | k in m
      ensures m[k] in r
    {
      var i :| 0 <= i < |keys| && keys[i] == k;
      assert r[i] == m[k];
    }
  }
}

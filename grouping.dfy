/**
  `groupBy(arr, fn)`: a `reduce` that pushes every item onto the array stored
  under its key in an accumulator object. Keys that contain no array index
  keep their insertion order in `Object.values`, so the groups are visited in
  the order in which their keys first appear.
 */
module Grouping {

  /** The keys of `items`, each once, in order of first appearance. */
  function DistinctKeys<T>(items: seq<T>, key: T -> string): seq<string>
  {
    if items == [] then []
    else
      var prev := DistinctKeys(items[..|items| - 1], key);
      var k := key(items[|items| - 1]);
      if k in prev then prev else prev + [k]
  }

  /** The items whose key is `k`, in input order. */
  function Members<T>(items: seq<T>, key: T -> string, k: string): seq<T>
  {
    if items == [] then []
    else
      var last := items[|items| - 1];
      Members(items[..|items| - 1], key, k) + (if key(last) == k then [last] else [])
  }

  predicate NoDuplicates<T(==)>(s: seq<T>) {
    forall i, j :: 0 <= i < j < |s| ==> s[i] != s[j]
  }

  /** Some item carries key `k`. */
  predicate HasKey<T>(items: seq<T>, key: T -> string, k: string) {
    exists i :: 0 <= i < |items| && key(items[i]) == k
  }

  /** The distinct keys are exactly the keys of the items, with no repeats. */
  lemma {:induction false} DistinctKeysExact<T>(items: seq<T>, key: T -> string)
    ensures NoDuplicates(DistinctKeys(items, key))
    ensures forall k :: k in DistinctKeys(items, key) <==> HasKey(items, key, k)
  {
    if items != [] {
      var prefix := items[..|items| - 1];
      DistinctKeysExact(prefix, key);
      forall k ensures HasKey(items, key, k) <==> (k == key(items[|items| - 1]) || HasKey(prefix, key, k))
      {
        if exists i :: 0 <= i < |items| && key(items[i]) == k {
          var i :| 0 <= i < |items| && key(items[i]) == k;
          if i < |prefix| {
            assert key(prefix[i]) == k;
          }
        }
        if exists i :: 0 <= i < |prefix| && key(prefix[i]) == k {
          var i :| 0 <= i < |prefix| && key(prefix[i]) == k;
          assert key(items[i]) == k;
        }
      }
    }
  }

  /** A group holds exactly the items with its key. */
  lemma {:induction false} MembersExact<T>(items: seq<T>, key: T -> string, k: string)
    ensures forall x :: x in Members(items, key, k) ==> x in items && key(x) == k
    ensures forall x :: x in items && key(x) == k ==> x in Members(items, key, k)
  {
    if items != [] {
      var prefix, last := items[..|items| - 1], items[|items| - 1];
      MembersExact(prefix, key, k);
      assert items == prefix + [last];
    }
  }

  /** A key that no item carries has an empty group. */
  lemma {:induction false} MembersOfAbsentKey<T>(items: seq<T>, key: T -> string, k: string)
    requires !HasKey(items, key, k)
    ensures Members(items, key, k) == []
  {
    if items != [] {
      var prefix := items[..|items| - 1];
      forall i | 0 <= i < |prefix| ensures key(prefix[i]) != k {
        assert prefix[i] == items[i];
      }
      MembersOfAbsentKey(prefix, key, k);
    }
  }

  /** Every item lands in the group of its own key and in no other group. */
  lemma EachItemInExactlyOneGroup<T>(items: seq<T>, key: T -> string, x: T)
    requires x in items
    ensures key(x) in DistinctKeys(items, key)
    ensures forall k :: x in Members(items, key, k) <==> k == key(x)
  {
    DistinctKeysExact(items, key);
    var i :| 0 <= i < |items| && items[i] == x;
    assert HasKey(items, key, key(x)) by { assert key(items[i]) == key(x); }
    forall k ensures x in Members(items, key, k) <==> k == key(x) {
      MembersExact(items, key, k);
    }
  }

  /** A group keeps the input order of its items. */
  lemma {:induction false} MembersKeepOrder<T>(items: seq<T>, key: T -> string, a: int, b: int)
    requires 0 <= a < b < |items| && key(items[a]) == key(items[b])
    ensures exists i, j :: 0 <= i < j < |Members(items, key, key(items[a]))| &&
              Members(items, key, key(items[a]))[i] == items[a] && Members(items, key, key(items[a]))[j] == items[b]
  {
    var k := key(items[a]);
    var prefix, last := items[..|items| - 1], items[|items| - 1];
    var m, mp := Members(items, key, k), Members(prefix, key, k);
    assert m == mp + [last] || m == mp;
    if b == |items| - 1 {
      MembersExact(prefix, key, k);
      assert items[a] == prefix[a];
      var i :| 0 <= i < |mp| && mp[i] == items[a];
      assert m[i] == items[a] && m[|mp|] == items[b];
    } else {
      assert prefix[a] == items[a] && prefix[b] == items[b];
      MembersKeepOrder(prefix, key, a, b);
      var i, j :| 0 <= i < j < |mp| && mp[i] == items[a] && mp[j] == items[b];
      assert m[i] == items[a] && m[j] == items[b];
    }
  }

  /** Every member of a group sits at some input position. */
  lemma MemberIndex<T>(items: seq<T>, key: T -> string, k: string, i: int) returns (a: int)
    requires 0 <= i < |Members(items, key, k)|
    ensures 0 <= a < |items| && items[a] == Members(items, key, k)[i] && key(items[a]) == k
  {
    var x := Members(items, key, k)[i];
    MembersExact(items, key, k);
    assert x in Members(items, key, k);
    a :| 0 <= a < |items| && items[a] == x;
  }

  /** Two members of a group come from two input positions in the same
      order, both carrying the group's key. */
  lemma {:induction false} MembersPositions<T>(items: seq<T>, key: T -> string, k: string, i: int, j: int)
    returns (a: int, b: int)
    requires 0 <= i < j < |Members(items, key, k)|
    ensures 0 <= a < b < |items|
    ensures items[a] == Members(items, key, k)[i] && items[b] == Members(items, key, k)[j]
    ensures key(items[a]) == k && key(items[b]) == k
  {
    var prefix, last := items[..|items| - 1], items[|items| - 1];
    var m, mp := Members(items, key, k), Members(prefix, key, k);
    assert m == mp + (if key(last) == k then [last] else []);
    if j < |mp| {
      assert m[i] == mp[i] && m[j] == mp[j];
      a, b := MembersPositions(prefix, key, k, i, j);
      assert prefix[a] == items[a] && prefix[b] == items[b];
    } else {
      assert key(last) == k && m[j] == last && i < |mp| && m[i] == mp[i];
      a := MemberIndex(prefix, key, k, i);
      assert items[a] == prefix[a];
      b := |items| - 1;
    }
  }

  /** A group of an input without repeats has no repeats. */
  lemma {:induction false} MembersNoDuplicates<T>(items: seq<T>, key: T -> string, k: string)
    requires NoDuplicates(items)
    ensures NoDuplicates(Members(items, key, k))
  {
    if items != [] {
      var prefix, last := items[..|items| - 1], items[|items| - 1];
      assert NoDuplicates(prefix);
      MembersNoDuplicates(prefix, key, k);
      MembersExact(prefix, key, k);
      assert last !in prefix;
    }
  }

  /** The reduce of `groupBy`: `keys` lists the groups in `Object.values`
      order and `groups` maps every key to its items in input order. */
  method GroupBy<T>(items: seq<T>, key: T -> string) returns (keys: seq<string>, groups: map<string, seq<T>>)
    ensures keys == DistinctKeys(items, key)
    ensures forall k :: k in groups <==> k in keys
    ensures forall k :: k in groups ==> groups[k] == Members(items, key, k)
  {
    keys, groups := [], map[];
    for n := 0 to |items|
      invariant keys == DistinctKeys(items[..n], key)
      invariant forall k :: k in groups <==> k in keys
      invariant forall k :: k in groups ==> groups[k] == Members(items[..n], key, k)
    {
      var item := items[n];
      var k := key(item);
      assert items[..n + 1][..n] == items[..n];
      if k !in groups {
        DistinctKeysExact(items[..n], key);
        MembersOfAbsentKey(items[..n], key, k);
        groups := groups[k := []];
        keys := keys + [k];
      }
      groups := groups[k := groups[k] + [item]];
    }
    assert items[..|items|] == items;
  }
}

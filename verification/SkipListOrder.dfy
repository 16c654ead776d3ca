// The sequence a skip list stands for: keys in the order of a comparison
// function, a new key placed before its equals.

module SkipListOrder {
  import opened Seqs

  datatype Option<+T> = None | Some(value: T)

  ghost predicate Chains<K>(cmp: (K, K) -> int, x: K, y: K, z: K) {
    cmp(x, y) <= 0 && cmp(y, z) <= 0 ==> cmp(x, z) <= 0
  }

  // What include/ds/spg_skiplist.h asks of a compare function.
  ghost predicate TotalPreorder<K(!new)>(cmp: (K, K) -> int) {
    && (forall x :: cmp(x, x) == 0)
    && (forall x, y :: cmp(x, y) > 0 <==> cmp(y, x) < 0)
    && (forall x, y, z :: Chains(cmp, x, y, z))
  }

  ghost predicate Sorted<K>(cmp: (K, K) -> int, ks: seq<K>) {
    forall i, j :: 0 <= i < j < |ks| ==> cmp(ks[i], ks[j]) <= 0
  }

  // A linear scan for the first key that is not smaller than the argument.
  function FirstGE<K>(cmp: (K, K) -> int, ks: seq<K>, key: K): (j: nat)
    ensures j <= |ks|
    ensures forall r :: 0 <= r < j ==> cmp(key, ks[r]) > 0
    ensures j < |ks| ==> cmp(key, ks[j]) <= 0
  {
    if ks == [] || cmp(key, ks[0]) <= 0 then 0 else 1 + FirstGE(cmp, ks[1..], key)
  }

  // The scan's answer is the only index with these two properties.
  lemma FirstGEUnique<K(!new)>(cmp: (K, K) -> int, ks: seq<K>, key: K, j: nat)
    requires TotalPreorder(cmp) && Sorted(cmp, ks)
    requires j <= |ks|
    requires j > 0 ==> cmp(key, ks[j - 1]) > 0
    requires j < |ks| ==> cmp(key, ks[j]) <= 0
    ensures FirstGE(cmp, ks, key) == j
  {
    var f := FirstGE(cmp, ks, key);
    assert f < j ==> Chains(cmp, key, ks[f], ks[j - 1]);
  }

  function Inserted<K>(cmp: (K, K) -> int, ks: seq<K>, key: K): seq<K> {
    var j := FirstGE(cmp, ks, key);
    ks[..j] + [key] + ks[j..]
  }

  predicate Holds<K>(cmp: (K, K) -> int, ks: seq<K>, key: K) {
    var j := FirstGE(cmp, ks, key);
    j < |ks| && cmp(key, ks[j]) == 0
  }

  lemma HoldsIsMembership<K(!new)>(cmp: (K, K) -> int, ks: seq<K>, key: K)
    requires TotalPreorder(cmp) && Sorted(cmp, ks)
    ensures Holds(cmp, ks, key) <==> exists j :: 0 <= j < |ks| && cmp(key, ks[j]) == 0
  {
    var f := FirstGE(cmp, ks, key);
    forall j | 0 <= j < |ks| && cmp(key, ks[j]) == 0
      ensures f < |ks| && cmp(key, ks[f]) == 0
    {
      assert f <= j;
      assert Chains(cmp, ks[f], ks[j], key);
      assert f == j || cmp(ks[f], ks[j]) <= 0;
    }
  }

  lemma InsertedSorted<K(!new)>(cmp: (K, K) -> int, ks: seq<K>, key: K)
    requires TotalPreorder(cmp) && Sorted(cmp, ks)
    ensures Sorted(cmp, Inserted(cmp, ks, key))
  {
    var j := FirstGE(cmp, ks, key);
    var out := Inserted(cmp, ks, key);
    assert forall b :: j <= b < |ks| ==> Chains(cmp, key, ks[j], ks[b]);
    forall a, b | 0 <= a < b < |out| ensures cmp(out[a], out[b]) <= 0 {
      if b == j {
        assert cmp(key, ks[a]) > 0;
      } else if a == j {
        assert cmp(key, ks[b - 1]) <= 0;
      }
    }
  }

  // Taking a key right after putting it in restores the list.
  lemma TakeUndoesPut<K(!new)>(cmp: (K, K) -> int, ks: seq<K>, key: K)
    requires TotalPreorder(cmp) && Sorted(cmp, ks)
    ensures var out := Inserted(cmp, ks, key);
      var j := FirstGE(cmp, out, key);
      Holds(cmp, out, key) && out[j] == key && Without(out, j) == ks
  {
    hide TotalPreorder, Sorted, FirstGE;
    var j := FirstGE(cmp, ks, key);
    var out := Inserted(cmp, ks, key);
    assert out[j] == key && (j > 0 ==> out[j - 1] == ks[j - 1]);
    EqualToItself(cmp, key);
    InsertedSorted(cmp, ks, key);
    FirstGEUnique(cmp, out, key, j);
    assert Without(out, j) == ks;
  }

  lemma EqualToItself<K(!new)>(cmp: (K, K) -> int, key: K)
    requires TotalPreorder(cmp)
    ensures cmp(key, key) == 0
  {
  }
}

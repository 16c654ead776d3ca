// Whole runs: the skip list answers every history of calls the way an unsorted
// stack does that is scanned from the most recent entry.

module SkipListRuns {
  import opened Counters
  import opened Seqs
  import opened SkipListOrder
  import opened SkipLists

  datatype Op<K> =
    | Put(key: K, height: int, allocOk: bool)
    | Take(key: K)
    | Ask(key: K)
    | Flush

  datatype Answer<K> = Added(ok: bool) | Taken(key: Option<K>) | Present(yes: bool) | Flushed

  ghost predicate Legal<K>(ops: seq<Op<K>>) {
    forall i :: 0 <= i < |ops| && ops[i].Put? ==> 1 <= ops[i].height <= LEVEL_MAX
  }

  // The first entry equal to the key, |s| when there is none.
  function FirstEqual<K>(cmp: (K, K) -> int, s: seq<K>, key: K): (j: nat)
    ensures j <= |s|
    ensures forall r :: 0 <= r < j ==> cmp(key, s[r]) != 0
    ensures j < |s| ==> cmp(key, s[j]) == 0
  {
    if s == [] || cmp(key, s[0]) == 0 then 0 else 1 + FirstEqual(cmp, s[1..], key)
  }

  // One call on the reference stack: the newest entry is first.
  function StackStep<K>(cmp: (K, K) -> int, st: seq<K>, op: Op<K>): (seq<K>, Answer<K>) {
    match op
    case Put(key, _, ok) => (if ok then [key] + st else st, Added(ok))
    case Take(key) =>
      var j := FirstEqual(cmp, st, key);
      if j < |st| then (Without(st, j), Taken(Some(st[j]))) else (st, Taken(None))
    case Ask(key) => (st, Present(FirstEqual(cmp, st, key) < |st|))
    case Flush => (if U32(|st|) == 0 then st else [], Flushed)
  }

  function StackRun<K>(cmp: (K, K) -> int, ops: seq<Op<K>>): (seq<K>, seq<Answer<K>>) {
    if ops == [] then ([], [])
    else
      var (st, out) := StackRun(cmp, ops[..|ops| - 1]);
      var (st', a) := StackStep(cmp, st, ops[|ops| - 1]);
      (st', out + [a])
  }

  function EqualTo<K>(cmp: (K, K) -> int, s: seq<K>, key: K): seq<K> {
    if s == [] then [] else (if cmp(key, s[0]) == 0 then [s[0]] else []) + EqualTo(cmp, s[1..], key)
  }

  // The sorted list and the stack hold the same keys, and equal keys in the
  // same order.
  ghost predicate SameHistory<K(!new)>(cmp: (K, K) -> int, ks: seq<K>, st: seq<K>) {
    && |ks| == |st| && multiset(ks) == multiset(st)
    && forall key :: EqualTo(cmp, ks, key) == EqualTo(cmp, st, key)
  }

  lemma EqualToCons<K>(cmp: (K, K) -> int, x: K, s: seq<K>, key: K)
    ensures EqualTo(cmp, [x] + s, key) == (if cmp(key, x) == 0 then [x] else []) + EqualTo(cmp, s, key)
  {
    assert ([x] + s)[1..] == s;
  }

  lemma {:induction false} EqualToConcat<K>(cmp: (K, K) -> int, a: seq<K>, b: seq<K>, key: K)
    ensures EqualTo(cmp, a + b, key) == EqualTo(cmp, a, key) + EqualTo(cmp, b, key)
  {
    if a == [] {
      assert a + b == b;
    } else {
      hide EqualTo;
      EqualToConcat(cmp, a[1..], b, key);
      EqualToCons(cmp, a[0], a[1..], key);
      EqualToCons(cmp, a[0], a[1..] + b, key);
      assert a == [a[0]] + a[1..] && a + b == [a[0]] + (a[1..] + b);
    }
  }

  lemma {:induction false} NoneEqual<K>(cmp: (K, K) -> int, s: seq<K>, key: K)
    requires forall r :: 0 <= r < |s| ==> cmp(key, s[r]) != 0
    ensures EqualTo(cmp, s, key) == []
  {
    if s != [] { NoneEqual(cmp, s[1..], key); }
  }

  lemma EqualToFirst<K(!new)>(cmp: (K, K) -> int, s: seq<K>, key: K)
    ensures var j := FirstEqual(cmp, s, key);
      if j < |s| then EqualTo(cmp, s, key) != [] && EqualTo(cmp, s, key)[0] == s[j]
      else EqualTo(cmp, s, key) == []
  {
    hide FirstEqual, EqualTo;
    var j := FirstEqual(cmp, s, key);
    NoneEqual(cmp, s[..j], key);
    if j < |s| {
      assert s == s[..j] + ([s[j]] + s[j + 1..]);
      EqualToConcat(cmp, s[..j], [s[j]] + s[j + 1..], key);
      EqualToCons(cmp, s[j], s[j + 1..], key);
    } else {
      assert s == s[..j];
    }
  }

  // When nothing before position j is equal to the key.
  lemma EqualToAround<K>(cmp: (K, K) -> int, s: seq<K>, x: K, t: seq<K>, key: K)
    requires cmp(key, x) == 0 ==> forall r :: 0 <= r < |s| ==> cmp(key, s[r]) != 0
    ensures EqualTo(cmp, s + [x] + t, key) == EqualTo(cmp, [x] + (s + t), key)
  {
    hide EqualTo;
    EqualToConcat(cmp, s, [x] + t, key);
    EqualToConcat(cmp, s, t, key);
    EqualToCons(cmp, x, t, key);
    EqualToCons(cmp, x, s + t, key);
    assert s + [x] + t == s + ([x] + t);
    if cmp(key, x) == 0 { NoneEqual(cmp, s, key); }
  }

  // Taking the first entry equal to the key takes the head of its class.
  lemma EqualToWithout<K(!new)>(cmp: (K, K) -> int, s: seq<K>, key: K, other: K)
    requires TotalPreorder(cmp) && FirstEqual(cmp, s, key) < |s|
    ensures var j := FirstEqual(cmp, s, key);
      EqualTo(cmp, s, other) == EqualTo(cmp, [s[j]] + Without(s, j), other)
  {
    hide TotalPreorder, EqualTo, FirstEqual;
    var j := FirstEqual(cmp, s, key);
    var front := s[..j];
    if cmp(other, s[j]) == 0 {
      forall r | 0 <= r < |front| ensures cmp(other, front[r]) != 0 {
        SameClass(cmp, key, s[j], other, s[r]);
      }
    }
    hide Without;
    assert front + s[j + 1..] == Without(s, j) by { WithoutParts(s, j); }
    assert s == s[..j] + [s[j]] + s[j + 1..];
    EqualToAround(cmp, s[..j], s[j], s[j + 1..], other);
  }

  lemma WithoutParts<K>(s: seq<K>, j: nat)
    requires j < |s|
    ensures Without(s, j) == s[..j] + s[j + 1..]
  {
  }

  lemma SameClass<K(!new)>(cmp: (K, K) -> int, key: K, x: K, other: K, y: K)
    requires TotalPreorder(cmp) && cmp(key, x) == 0 && cmp(other, x) == 0
    ensures cmp(key, y) == 0 <==> cmp(other, y) == 0
  {
    assert Chains(cmp, key, x, other) && Chains(cmp, other, x, key);
    assert Chains(cmp, key, other, y) && Chains(cmp, y, other, key);
    assert Chains(cmp, other, key, y) && Chains(cmp, y, key, other);
  }

  lemma EqualToInserted<K(!new)>(cmp: (K, K) -> int, ks: seq<K>, key: K, other: K)
    requires TotalPreorder(cmp)
    ensures EqualTo(cmp, Inserted(cmp, ks, key), other) == EqualTo(cmp, [key] + ks, other)
  {
    hide TotalPreorder, EqualTo;
    var j := FirstGE(cmp, ks, key);
    if cmp(other, key) == 0 {
      forall r | 0 <= r < j ensures cmp(other, ks[r]) != 0 {
        NotBelow(cmp, other, key, ks[r]);
      }
    }
    assert ks == ks[..j] + ks[j..];
    EqualToAround(cmp, ks[..j], key, ks[j..], other);
  }

  lemma NotBelow<K(!new)>(cmp: (K, K) -> int, other: K, key: K, y: K)
    requires TotalPreorder(cmp) && cmp(other, key) == 0 && cmp(key, y) > 0
    ensures cmp(other, y) != 0
  {
    assert Chains(cmp, key, other, y);
  }

  // In a sorted list the first equal key is the first key not smaller.
  lemma FirstEqualSorted<K(!new)>(cmp: (K, K) -> int, ks: seq<K>, key: K)
    requires TotalPreorder(cmp) && Sorted(cmp, ks)
    ensures Holds(cmp, ks, key) <==> FirstEqual(cmp, ks, key) < |ks|
    ensures Holds(cmp, ks, key) ==> FirstGE(cmp, ks, key) == FirstEqual(cmp, ks, key)
  {
    HoldsIsMembership(cmp, ks, key);
  }

  lemma StackPut<K(!new)>(cmp: (K, K) -> int, ks: seq<K>, st: seq<K>, key: K)
    requires TotalPreorder(cmp) && SameHistory(cmp, ks, st)
    ensures SameHistory(cmp, Inserted(cmp, ks, key), [key] + st)
  {
    hide TotalPreorder, EqualTo, FirstGE;
    var j := FirstGE(cmp, ks, key);
    assert ks == ks[..j] + ks[j..];
    assert multiset(Inserted(cmp, ks, key)) == multiset([key] + st);
    forall other ensures EqualTo(cmp, Inserted(cmp, ks, key), other) == EqualTo(cmp, [key] + st, other) {
      EqualToInserted(cmp, ks, key, other);
      EqualToCons(cmp, key, ks, other);
      EqualToCons(cmp, key, st, other);
    }
  }

  lemma StackTake<K(!new)>(cmp: (K, K) -> int, ks: seq<K>, st: seq<K>, key: K)
    requires TotalPreorder(cmp) && Sorted(cmp, ks) && SameHistory(cmp, ks, st)
    ensures var i, j := FirstGE(cmp, ks, key), FirstEqual(cmp, st, key);
      && (Holds(cmp, ks, key) <==> j < |st|)
      && (Holds(cmp, ks, key) ==> ks[i] == st[j] && SameHistory(cmp, Without(ks, i), Without(st, j)))
  {
    hide TotalPreorder, Sorted, EqualTo;
    var i, j := FirstGE(cmp, ks, key), FirstEqual(cmp, st, key);
    FirstEqualSorted(cmp, ks, key);
    EqualToFirst(cmp, ks, key);
    EqualToFirst(cmp, st, key);
    if Holds(cmp, ks, key) {
      TakeBoth(cmp, ks, st, key);
    }
  }

  lemma TakeBoth<K(!new)>(cmp: (K, K) -> int, ks: seq<K>, st: seq<K>, key: K)
    requires TotalPreorder(cmp) && SameHistory(cmp, ks, st)
    requires FirstEqual(cmp, ks, key) < |ks| && FirstEqual(cmp, st, key) < |st|
    requires ks[FirstEqual(cmp, ks, key)] == st[FirstEqual(cmp, st, key)]
    ensures SameHistory(cmp, Without(ks, FirstEqual(cmp, ks, key)), Without(st, FirstEqual(cmp, st, key)))
  {
    hide TotalPreorder, EqualTo, FirstEqual;
    var i, j := FirstEqual(cmp, ks, key), FirstEqual(cmp, st, key);
    MultisetWithout(ks, i);
    MultisetWithout(st, j);
    forall other ensures EqualTo(cmp, Without(ks, i), other) == EqualTo(cmp, Without(st, j), other) {
      EqualToWithout(cmp, ks, key, other);
      EqualToWithout(cmp, st, key, other);
      EqualToCons(cmp, ks[i], Without(ks, i), other);
      EqualToCons(cmp, st[j], Without(st, j), other);
      var x := if cmp(other, ks[i]) == 0 then [ks[i]] else [];
      assert EqualTo(cmp, ks, other)[|x|..] == EqualTo(cmp, Without(ks, i), other);
      assert EqualTo(cmp, st, other)[|x|..] == EqualTo(cmp, Without(st, j), other);
    }
  }

  lemma MultisetWithout<K>(s: seq<K>, j: nat)
    requires j < |s|
    ensures multiset(Without(s, j)) == multiset(s) - multiset{s[j]}
  {
    assert s == s[..j] + [s[j]] + s[j + 1..];
  }

  // Every run of calls on a new skip list, whatever heights are drawn and
  // whichever allocations fail.
  method Execute<K(!new)>(cmp: (K, K) -> int, ops: seq<Op<K>>) returns (sl: SkipList<K>, out: seq<Answer<K>>)
    requires TotalPreorder(cmp) && Legal(ops)
    ensures sl.Valid() && sl.cmp == cmp
    ensures out == StackRun(cmp, ops).1
    ensures SameHistory(cmp, sl.Keys(), StackRun(cmp, ops).0)
  {
    sl := new SkipList(cmp);
    out := [];
    for i := 0 to |ops|
      invariant sl.Valid() && sl.cmp == cmp && fresh(sl) && (forall p :: 0 <= p < |sl.chain| ==> fresh(sl.chain[p]))
      invariant out == StackRun(cmp, ops[..i]).1
      invariant SameHistory(cmp, sl.Keys(), StackRun(cmp, ops[..i]).0)
    {
      hide TotalPreorder, SameHistory, Links, Backs, IsTop, Sorted;
      ghost var st := StackRun(cmp, ops[..i]).0;
      assert ops[..i + 1][..i] == ops[..i];
      var a := Perform(sl, ops[i], st);
      out := out + [a];
    }
    assert ops[..|ops|] == ops;
  }

  method Perform<K(!new)>(sl: SkipList<K>, op: Op<K>, ghost st: seq<K>) returns (a: Answer<K>)
    requires sl.Valid() && SameHistory(sl.cmp, sl.Keys(), st)
    requires op.Put? ==> 1 <= op.height <= LEVEL_MAX
    modifies sl, sl.chain
    ensures sl.Valid() && (forall i :: 0 <= i < |sl.chain| ==> sl.chain[i] in old(sl.chain) || fresh(sl.chain[i]))
    ensures a == StackStep(sl.cmp, st, op).1
    ensures SameHistory(sl.cmp, sl.Keys(), StackStep(sl.cmp, st, op).0)
  {
    hide Links, Backs, IsTop, Sorted, TotalPreorder, SameHistory, EqualTo, U32, FirstEqual, FirstGE;
    ghost var ks := sl.Keys();
    match op
    case Put(key, height, allocOk) =>
      StackPut(sl.cmp, ks, st, key);
      ghost var pos, c := sl.Pos(key), sl.chain;
      var ok, node := sl.Insert(key, height, allocOk);
      if ok { SplicedMembers(c, node, pos); }
      a := Added(ok);
    case Take(key) =>
      StackTake(sl.cmp, ks, st, key);
      var r := sl.FindGet(key);
      a := Taken(r);
    case Ask(key) =>
      StackTake(sl.cmp, ks, st, key);
      HoldsIsMembership(sl.cmp, ks, key);
      var yes := sl.Contain(key);
      a := Present(yes);
    case Flush =>
      FlushedHistory(sl.cmp, ks, st);
      var _ := sl.FlushAll();
      a := Flushed;
  }

  lemma FlushedHistory<K(!new)>(cmp: (K, K) -> int, ks: seq<K>, st: seq<K>)
    requires SameHistory(cmp, ks, st)
    ensures |ks| == |st| && SameHistory(cmp, [], [])
  {
  }
}

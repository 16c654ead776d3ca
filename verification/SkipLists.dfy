// The multi-level list of src/spg_skiplist.c on the heap.

module SkipLists {
  import opened Counters
  import opened Seqs
  import opened SkipListOrder
  import opened SkipListShape

  const LEVEL_MAX: int := 16

  // `lvl` is the flexible array at the end of the C struct: it is part of the
  // node, not an object of its own.
  class Node<K> {
    const key: Option<K>
    const lvlNum: int
    var backward: Node?<K>
    var lvl: seq<Node?<K>>

    constructor (key: Option<K>, lvlNum: nat)
      ensures this.key == key && this.lvlNum == lvlNum
      ensures backward == null && lvl == seq(lvlNum, _ => null)
    {
      this.key, this.lvlNum := key, lvlNum;
      backward, lvl := null, seq(lvlNum, _ => null);
    }
  }

  ghost function Hs<K>(chain: seq<Node<K>>): (hs: Heights)
    ensures |hs| == |chain| && forall p :: 0 <= p < |hs| ==> hs[p] == chain[p].lvlNum
  {
    seq(|chain|, p requires 0 <= p < |chain| => chain[p].lvlNum)
  }

  ghost function At<K>(chain: seq<Node<K>>, q: nat): Node?<K> {
    if q < |chain| then chain[q] else null
  }

  ghost predicate Towers<K>(chain: seq<Node<K>>) {
    && |chain| > 0 && chain[0].lvlNum == LEVEL_MAX
    && (forall p :: 0 < p < |chain| ==> 1 <= chain[p].lvlNum <= LEVEL_MAX && chain[p].key.Some?)
    && (forall p, q :: 0 <= p < q < |chain| ==> chain[p] != chain[q])
  }

  ghost function HigherThan<K>(c: seq<Node<K>>, i: nat): seq<Node<K>> {
    if c == [] then [] else (if c[0].lvlNum > i then [c[0]] else []) + HigherThan(c[1..], i)
  }

  // Every level-i link goes to the next node of the bottom chain that is
  // higher than i: level i is exactly that subsequence of the bottom chain.
  ghost predicate Links<K>(chain: seq<Node<K>>)
    reads chain`lvl
  {
    && (forall p :: 0 <= p < |chain| ==> |chain[p].lvl| == chain[p].lvlNum)
    && (forall p, i :: 0 <= p < |chain| && 0 <= i < chain[p].lvlNum ==>
          chain[p].lvl[i] == At(chain, Succ(Hs(chain), p, i)))
  }

  ghost predicate Backs<K>(chain: seq<Node<K>>)
    reads chain`backward
  {
    && (|chain| > 0 ==> chain[0].backward == null)
    && (forall p :: 0 < p < |chain| ==> chain[p].backward == chain[p - 1])
  }

  // `level` is the greatest height among the data nodes, 0 when there is none.
  ghost predicate IsTop<K>(chain: seq<Node<K>>, level: int) {
    && (forall p :: 0 < p < |chain| ==> chain[p].lvlNum <= level)
    && (level != 0 ==> exists p :: 0 < p < |chain| && chain[p].lvlNum == level)
  }

  ghost function KeysOf<K>(chain: seq<Node<K>>): (ks: seq<K>)
    requires Towers(chain)
    ensures |ks| == |chain| - 1 && forall p :: 0 <= p < |ks| ==> Some(ks[p]) == chain[p + 1].key
  {
    seq(|chain| - 1, p requires 0 <= p < |chain| - 1 => chain[p + 1].key.value)
  }

  ghost function Spliced<K>(chain: seq<Node<K>>, n: Node<K>, pos: nat): seq<Node<K>>
    requires pos <= |chain|
  {
    chain[..pos] + [n] + chain[pos..]
  }

  // Where a level-i link of `chain` points while the tower `n` hangs in at `pos`
  // on the levels lo..hi only.
  ghost function WovenLink<K>(chain: seq<Node<K>>, n: Node<K>, pos: nat, lo: int, hi: int, p: nat, i: int): Node?<K>
    requires Towers(chain) && 0 < pos <= |chain| && p < |chain| && hi <= LEVEL_MAX
  {
    if lo <= i < hi && p == Pred(Hs(chain), pos, i) then n else At(chain, Succ(Hs(chain), p, i))
  }

  // Insertion raises hi from 0, deletion raises lo to hi.
  ghost predicate Woven<K>(chain: seq<Node<K>>, n: Node<K>, pos: nat, lo: int, hi: int)
    requires Towers(chain) && 0 < pos <= |chain| && 0 <= lo <= hi <= n.lvlNum <= LEVEL_MAX
    reads chain`lvl, n`lvl
  {
    && (forall p :: 0 <= p < |chain| ==> |chain[p].lvl| == chain[p].lvlNum)
    && |n.lvl| == n.lvlNum
    && (forall p, i :: 0 <= p < |chain| && 0 <= i < chain[p].lvlNum ==>
          chain[p].lvl[i] == WovenLink(chain, n, pos, lo, hi, p, i))
    && (forall i :: 0 <= i < hi ==> n.lvl[i] == At(chain, Succ(Hs(chain), pos - 1, i)))
  }

  // One more or one less level changes one link.
  lemma WovenStep<K>(chain: seq<Node<K>>, n: Node<K>, pos: nat, idx: int, p: nat, i: int)
    requires Towers(chain) && 0 < pos <= |chain| && 0 <= idx < n.lvlNum <= LEVEL_MAX && p < |chain|
    ensures var here := i == idx && p == Pred(Hs(chain), pos, idx);
      && WovenLink(chain, n, pos, 0, idx + 1, p, i) == (if here then n else WovenLink(chain, n, pos, 0, idx, p, i))
      && WovenLink(chain, n, pos, idx + 1, n.lvlNum, p, i) ==
          (if here then At(chain, Succ(Hs(chain), pos - 1, i)) else WovenLink(chain, n, pos, idx, n.lvlNum, p, i))
  {
    SuccOfPred(Hs(chain), pos, idx);
  }

  lemma PredReaches<K>(chain: seq<Node<K>>, n: Node<K>, pos: nat, idx: int)
    requires Towers(chain) && 0 < pos <= |chain| && 0 <= idx < LEVEL_MAX
    ensures var p := Pred(Hs(chain), pos, idx);
      && chain[p].lvlNum > idx && (forall q :: 0 <= q < |chain| && q != p ==> chain[q] != chain[p])
      && WovenLink(chain, n, pos, 0, idx, p, idx) == At(chain, Succ(Hs(chain), pos - 1, idx))
  {
    SuccOfPred(Hs(chain), pos, idx);
  }

  lemma SplicedAt<K>(chain: seq<Node<K>>, n: Node<K>, pos: nat, q: nat)
    requires pos <= |chain|
    ensures At(Spliced(chain, n, pos), q) ==
            if q < pos then At(chain, q) else if q == pos then n else At(chain, q - 1)
  {
  }

  // Where a level-i link of the longer chain points, told in the shorter one.
  lemma SplicedLink<K>(chain: seq<Node<K>>, n: Node<K>, pos: nat, p: nat, i: nat)
    requires Towers(chain) && 0 < pos <= |chain| && 1 <= n.lvlNum <= LEVEL_MAX
    requires p <= |chain| && i < Spliced(chain, n, pos)[p].lvlNum
    ensures var c := Spliced(chain, n, pos);
      At(c, Succ(Hs(c), p, i)) ==
        if p < pos then WovenLink(chain, n, pos, 0, n.lvlNum, p, i) else At(chain, Succ(Hs(chain), p - 1, i))
  {
    hide Succ, Pred, At;
    var hs, c := Hs(chain), Spliced(chain, n, pos);
    assert Hs(c) == With(hs, pos, n.lvlNum);
    SuccWith(hs, pos, n.lvlNum, p, i);
    SplicedAt(chain, n, pos, Succ(Hs(c), p, i));
    if p < pos {
      assert c[p] == chain[p];
      assert Succ(hs, p, i) >= pos <==> p == Pred(hs, pos, i);
    }
  }

  lemma SplicedMembers<K>(c: seq<Node<K>>, n: Node<K>, pos: nat)
    requires pos <= |c|
    ensures forall i :: 0 <= i <= |c| ==> Spliced(c, n, pos)[i] in c || Spliced(c, n, pos)[i] == n
  {
  }

  lemma SplicedTowers<K>(chain: seq<Node<K>>, n: Node<K>, pos: nat)
    requires Towers(chain) && 0 < pos <= |chain| && 1 <= n.lvlNum <= LEVEL_MAX && n.key.Some? && n !in chain
    ensures Towers(Spliced(chain, n, pos))
    ensures Woven(chain, n, pos, 0, n.lvlNum) ==> |n.lvl| > 0 && n.lvl[0] == At(chain, pos)
  {
    assert Succ(Hs(chain), pos - 1, 0) == pos;
  }

  // A tower hanging in on all its levels: the same as the longer chain linked.
  lemma WovenIsLinked<K>(chain: seq<Node<K>>, n: Node<K>, pos: nat)
    requires Towers(chain) && 0 < pos <= |chain| && 1 <= n.lvlNum <= LEVEL_MAX && n !in chain
    requires Woven(chain, n, pos, 0, n.lvlNum)
    ensures Links(Spliced(chain, n, pos))
  {
    var c := Spliced(chain, n, pos);
    forall p, i | 0 <= p < |c| && 0 <= i < c[p].lvlNum
      ensures |c[p].lvl| == c[p].lvlNum && c[p].lvl[i] == At(c, Succ(Hs(c), p, i))
    {
      hide Towers, Succ, Pred, At, WovenLink;
      SplicedLink(chain, n, pos, p, i);
      if pos < p { PastTheTower(chain, n, pos, p, i); }
    }
  }

  lemma LinkedIsWoven<K>(chain: seq<Node<K>>, n: Node<K>, pos: nat)
    requires Towers(chain) && 0 < pos <= |chain| && 1 <= n.lvlNum <= LEVEL_MAX && n !in chain
    requires Links(Spliced(chain, n, pos))
    ensures Woven(chain, n, pos, 0, n.lvlNum)
  {
    var c := Spliced(chain, n, pos);
    assert c[pos] == n && |c[pos].lvl| == n.lvlNum;
    hide Links, Towers, Succ, Pred, At, WovenLink, Hs;
    forall p, i | 0 <= p < |chain| && 0 <= i < chain[p].lvlNum
      ensures |chain[p].lvl| == chain[p].lvlNum && chain[p].lvl[i] == WovenLink(chain, n, pos, 0, n.lvlNum, p, i)
    {
      LinkedLink(chain, n, pos, p, i);
    }
    forall p | 0 <= p < |chain| ensures |chain[p].lvl| == chain[p].lvlNum {
      LinkedSize(chain, n, pos, p);
    }
    forall i | 0 <= i < n.lvlNum ensures n.lvl[i] == At(chain, Succ(Hs(chain), pos - 1, i)) {
      SplicedLink(chain, n, pos, pos, i);
      LinkAt(c, pos, i);
    }
  }

  lemma LinkAt<K>(c: seq<Node<K>>, p: nat, i: nat)
    requires Links(c) && p < |c| && i < c[p].lvlNum
    ensures |c[p].lvl| == c[p].lvlNum && c[p].lvl[i] == At(c, Succ(Hs(c), p, i))
  {
  }

  lemma LinkedSize<K>(chain: seq<Node<K>>, n: Node<K>, pos: nat, p: nat)
    requires pos <= |chain| && p < |chain| && Links(Spliced(chain, n, pos))
    ensures |chain[p].lvl| == chain[p].lvlNum
  {
    assert chain[p] == Spliced(chain, n, pos)[if p < pos then p else p + 1];
  }

  lemma LinkedLink<K>(chain: seq<Node<K>>, n: Node<K>, pos: nat, p: nat, i: nat)
    requires Towers(chain) && 0 < pos <= |chain| && 1 <= n.lvlNum <= LEVEL_MAX
    requires Links(Spliced(chain, n, pos)) && p < |chain| && i < chain[p].lvlNum
    ensures |chain[p].lvl| == chain[p].lvlNum && chain[p].lvl[i] == WovenLink(chain, n, pos, 0, n.lvlNum, p, i)
  {
    hide Links, Towers, Succ, Pred, At, WovenLink, Hs;
    var c := Spliced(chain, n, pos);
    var q := if p < pos then p else p + 1;
    assert c[q] == chain[p];
    LinkAt(c, q, i);
    SplicedLink(chain, n, pos, q, i);
    if pos < q { PastTheTower(chain, n, pos, q, i); }
  }

  // A tower at `pos` changes no link that starts at or after `pos`.
  lemma PastTheTower<K>(chain: seq<Node<K>>, n: Node<K>, pos: nat, p: nat, i: nat)
    requires Towers(chain) && 0 < pos < p <= |chain| && n.lvlNum <= LEVEL_MAX
    ensures WovenLink(chain, n, pos, 0, n.lvlNum, p - 1, i) == At(chain, Succ(Hs(chain), p - 1, i))
  {
    hide Pred;
  }

  // A tower hanging in on no level: the same as the shorter chain linked.
  lemma UnwovenIsLinked<K>(chain: seq<Node<K>>, n: Node<K>, pos: nat)
    requires Towers(chain) && 0 < pos <= |chain| && 0 <= n.lvlNum <= LEVEL_MAX && |n.lvl| == n.lvlNum
    ensures Links(chain) ==> Woven(chain, n, pos, 0, 0)
    ensures Woven(chain, n, pos, n.lvlNum, n.lvlNum) ==> Links(chain)
  {
    hide Succ, Pred, Hs;
  }

  lemma SplicedTop<K>(chain: seq<Node<K>>, n: Node<K>, pos: nat, level: int)
    requires 0 < pos <= |chain| && IsTop(chain, level) && 1 <= n.lvlNum && 0 <= level
    ensures IsTop(Spliced(chain, n, pos), if n.lvlNum > level then n.lvlNum else level)
  {
    var c := Spliced(chain, n, pos);
    assert c[pos] == n;
    assert forall p :: 0 < p < |chain| ==> chain[p] == c[if p < pos then p else p + 1];
  }

  lemma SplicedKeys<K>(chain: seq<Node<K>>, n: Node<K>, pos: nat)
    requires 0 < pos <= |chain| && n.key.Some? && Towers(chain) && Towers(Spliced(chain, n, pos))
    ensures var ks := KeysOf(chain);
      KeysOf(Spliced(chain, n, pos)) == ks[..pos - 1] + [n.key.value] + ks[pos - 1..]
  {
  }

  lemma WithoutSpliced<K>(chain: seq<Node<K>>, pos: nat)
    requires Towers(chain) && 0 < pos < |chain|
    ensures var rest, node := Without(chain, pos), chain[pos];
      && Towers(rest) && node !in rest && chain == Spliced(rest, node, pos)
      && 1 <= node.lvlNum <= LEVEL_MAX && rest[0] == chain[0]
      && (Woven(rest, node, pos, 0, node.lvlNum) ==>
           |node.lvl| == node.lvlNum && node.lvl[0] == At(rest, pos))
  {
    hide Links;
    var rest := Without(chain, pos);
    assert Succ(Hs(rest), pos - 1, 0) == pos;
  }

  lemma RestIsLower<K>(chain: seq<Node<K>>, pos: nat, level: int)
    requires Towers(chain) && 0 < pos < |chain| && IsTop(chain, level)
    ensures 0 < level
    ensures forall p :: 0 < p < |chain| - 1 ==> Without(chain, pos)[p].lvlNum <= level
  {
    assert chain[pos].lvlNum <= level;
  }

  datatype InsertResult = Stored | NoMemory | NullDereference

  class SkipList<K(!new)> {
    const cmp: (K, K) -> int
    const head: Node<K>
    var tail: Node<K>
    var level: int
    var length: int
    ghost var chain: seq<Node<K>>

    ghost predicate Shape()
      reads this`chain, this`tail, chain
    {
      && Towers(chain) && chain[0] == head && tail == chain[|chain| - 1]
      && Links(chain) && Backs(chain)
    }

    ghost predicate Valid()
      reads this, chain
    {
      && Shape()
      && IsTop(chain, level)
      && length == U32(|chain| - 1)
      && TotalPreorder(cmp) && Sorted(cmp, Keys())
    }

    ghost function Keys(): seq<K>
      reads this
      requires Towers(chain)
    {
      KeysOf(chain)
    }

    constructor (cmp: (K, K) -> int)
      requires TotalPreorder(cmp)
      ensures this.cmp == cmp && Valid() && Keys() == [] && fresh(head) && chain == [head] && |head.lvl| == 16
    {
      this.cmp := cmp;
      var h := new Node<K>(None, LEVEL_MAX);
      head, tail, level, length, chain := h, h, 0, 0, [h];
    }

    // The position of the first node that is not smaller than the key.
    ghost function Pos(key: K): (pos: nat)
      reads this
      requires Towers(chain)
      ensures 0 < pos <= |chain|
    {
      FirstGE(cmp, Keys(), key) + 1
    }

    method GetBigEqual(key: K, prev: array?<Node?<K>>) returns (node: Node?<K>)
      requires Valid() && (prev != null ==> prev.Length == LEVEL_MAX)
      modifies prev
      ensures node == At(chain, Pos(key))
      ensures prev != null ==> forall i :: 0 <= i < LEVEL_MAX ==>
        prev[i] == if i < level || i == 0 then chain[Pred(Hs(chain), Pos(key), i)] else old(prev[i])
    {
      hide *;
      ghost var b: nat := 0;
      var base := head;
      var lvl := if level == 0 then 0 else level - 1;
      Bounds();
      while true
        invariant Valid() && Towers(chain)
        invariant 0 <= lvl < LEVEL_MAX && (lvl < level || lvl == 0)
        invariant b < Pos(key) && base == chain[b] && lvl < base.lvlNum
        invariant prev != null ==> forall i :: 0 <= i < LEVEL_MAX ==>
          prev[i] == if lvl < i < level then chain[Pred(Hs(chain), Pos(key), i)] else old(prev[i])
        decreases lvl, |chain| - b
      {
        ghost var s := Look(key, b, lvl);
        node := base.lvl[lvl];
        if node != null && cmp(key, node.key.value) > 0 {
          base, b := node, s;
        } else {
          if prev != null {
            prev[lvl] := base;
          }
          if lvl == 0 {
            return;
          }
          lvl := lvl - 1;
        }
      }
    }

    // Publishing one level of the new tower.
    method ThreadLevel(n: Node<K>, prev: Node<K>, idx: int, ghost pos: nat)
      requires Towers(chain) && n !in chain && 0 < pos <= |chain|
      requires 0 <= idx < n.lvlNum <= LEVEL_MAX
      requires prev == chain[Pred(Hs(chain), pos, idx)] && Woven(chain, n, pos, 0, idx)
      modifies n`lvl, prev`lvl
      ensures Woven(chain, n, pos, 0, idx + 1)
    {
      hide Succ, Pred, At, Hs, WovenLink, Towers;
      PredReaches(chain, n, pos, idx);
      n.lvl := n.lvl[idx := prev.lvl[idx]];
      prev.lvl := prev.lvl[idx := n];
      forall p, i | 0 <= p < |chain| && 0 <= i < chain[p].lvlNum
        ensures chain[p].lvl[i] == WovenLink(chain, n, pos, 0, idx + 1, p, i)
      {
        WovenStep(chain, n, pos, idx, p, i);
      }
    }

    // The level loop of skl_insert: the bottom level is published first.
    method Thread(n: Node<K>, prev: array<Node?<K>>, ghost pos: nat)
      requires Towers(chain) && Links(chain) && n !in chain && |n.lvl| == n.lvlNum
      requires 1 <= n.lvlNum <= LEVEL_MAX == prev.Length && 0 < pos <= |chain|
      requires forall i :: 0 <= i < n.lvlNum ==> prev[i] == chain[Pred(Hs(chain), pos, i)]
      modifies chain`lvl, n`lvl
      ensures Woven(chain, n, pos, 0, n.lvlNum)
    {
      hide Towers, Links, Woven, At, Hs, Succ;
      UnwovenIsLinked(chain, n, pos);
      for idx := 0 to n.lvlNum
        invariant Woven(chain, n, pos, 0, idx)
      {
        ThreadLevel(n, prev[idx], idx, pos);
      }
    }

    // What skl_insert does once the predecessors of all levels are known.
    method LinkIn(n: Node<K>, prev: array<Node?<K>>, ghost pos: nat)
      requires Shape() && n !in chain && n.key.Some? && |n.lvl| == n.lvlNum
      requires 1 <= n.lvlNum <= LEVEL_MAX == prev.Length && 0 < pos <= |chain|
      requires forall i :: 0 <= i < n.lvlNum ==> prev[i] == chain[Pred(Hs(chain), pos, i)]
      modifies this`chain, this`tail, chain, n
      ensures Shape() && chain == Spliced(old(chain), n, pos)
    {
      hide Towers, Links, Backs, Woven, At, Hs, Pred, Succ;
      assert |chain| > 0;
      Thread(n, prev, pos);
      WovenIsLinked(chain, n, pos);
      SplicedTowers(chain, n, pos);
      HookBack(n, pos);
      chain := Spliced(chain, n, pos);
    }

    method HookBack(n: Node<K>, ghost pos: nat)
      requires Towers(chain) && Backs(chain) && tail == chain[|chain| - 1] && n !in chain
      requires 0 < pos <= |chain| && 0 < |n.lvl| && n.lvl[0] == At(chain, pos)
      modifies this`tail, chain`backward, n`backward
      ensures Backs(Spliced(chain, n, pos)) && tail == Spliced(chain, n, pos)[|chain|]
    {
      if n.lvl[0] != null {
        n.backward := n.lvl[0].backward;
        n.lvl[0].backward := n;
      } else {
        n.backward := tail;
        tail := n;
      }
    }

    // skl_insert with the missing predecessor search put in front. `height` is
    // whatever skl_gen_level drew, `allocOk` whether the node could be allocated.
    method Insert(key: K, height: int, allocOk: bool) returns (ok: bool, ghost node: Node?<K>)
      requires Valid() && 1 <= height <= LEVEL_MAX
      modifies this, chain
      ensures Valid() && ok == allocOk
      ensures !ok ==> unchanged(this) && unchanged(chain)
      ensures ok ==> node != null && fresh(node) && node.lvlNum == height
      ensures ok ==> chain == Spliced(old(chain), node, old(Pos(key)))
      ensures Keys() == if ok then Inserted(cmp, old(Keys()), key) else old(Keys())
    {
      hide Towers, Links, Backs, IsTop, Sorted, TotalPreorder, KeysOf, FirstGE;
      hide Pred, Succ, Hs, At, U32, Inserted, Spliced;
      if !allocOk {
        return false, null;
      }
      var n := new Node(Some(key), height);
      var prev := new Node?<K>[LEVEL_MAX](_ => null);
      ghost var pos := Pos(key);
      Bounds();
      Predecessors(key, height, prev);
      LinkIn(n, prev, pos);
      length := U32(length + 1);
      ValidGrown(old(chain), n, key, old(level));
      return true, n;
    }

    // The last node before the key on every level the new tower reaches.
    method Predecessors(key: K, height: int, prev: array<Node?<K>>)
      requires Valid() && height <= LEVEL_MAX == prev.Length
      modifies this`level, prev
      ensures Shape() && level == if height > old(level) then height else old(level)
      ensures forall i :: 0 <= i < height ==> prev[i] == chain[Pred(Hs(chain), Pos(key), i)]
    {
      hide Links, Backs, IsTop, Sorted, TotalPreorder, KeysOf, FirstGE, Pred, Succ, Hs, At, U32;
      Bounds();
      NothingAbove(Pos(key));
      var _ := GetBigEqual(key, prev);
      FillAbove(height, prev);
    }

    lemma ValidGrown(c: seq<Node<K>>, n: Node<K>, key: K, oldLevel: int)
      requires Towers(c) && IsTop(c, oldLevel) && TotalPreorder(cmp) && Sorted(cmp, KeysOf(c)) && 0 <= oldLevel
      requires n.key == Some(key) && 1 <= n.lvlNum
      requires Shape() && chain == Spliced(c, n, FirstGE(cmp, KeysOf(c), key) + 1)
      requires level == if n.lvlNum > oldLevel then n.lvlNum else oldLevel
      requires length == U32(U32(|c| - 1) + 1)
      ensures Valid() && Keys() == Inserted(cmp, KeysOf(c), key)
    {
      hide Towers, Links, Backs, IsTop, Sorted, TotalPreorder, KeysOf, FirstGE, U32;
      var pos := FirstGE(cmp, KeysOf(c), key) + 1;
      SplicedTop(c, n, pos, oldLevel);
      SplicedKeys(c, n, pos);
      InsertedSorted(cmp, KeysOf(c), key);
      U32Step(|c| - 1);
    }

    // Levels the list did not have yet start at the head.
    method FillAbove(height: int, prev: array<Node?<K>>)
      requires 0 <= level <= LEVEL_MAX && height <= LEVEL_MAX == prev.Length
      modifies this`level, prev
      ensures forall i :: 0 <= i < LEVEL_MAX ==> prev[i] == if old(level) <= i < height then head else old(prev[i])
      ensures level == if height > old(level) then height else old(level)
    {
      if height > level {
        for idx := level to height
          invariant level == old(level)
          invariant forall i :: 0 <= i < LEVEL_MAX ==> prev[i] == if level <= i < idx then head else old(prev[i])
        {
          prev[idx] := head;
        }
        level := height;
      }
    }

    lemma NothingAbove(pos: nat)
      requires Valid() && 0 < pos <= |chain|
      ensures forall i :: level <= i < LEVEL_MAX ==> Pred(Hs(chain), pos, i) == 0
    {
      hide Links, Backs, Sorted, KeysOf, TotalPreorder;
    }

    // skl_insert exactly as it stands: no search fills prev[] below the current
    // level, so a nonempty list makes it follow a null pointer at level 0.
    method InsertAsWritten(key: K, height: int, allocOk: bool) returns (r: InsertResult)
      requires Valid() && 1 <= height <= LEVEL_MAX
      modifies this, chain
      ensures r.NoMemory? <==> !allocOk
      ensures r.NullDereference? <==> allocOk && old(Keys()) != []
      ensures r.Stored? ==> Valid() && Keys() == Inserted(cmp, old(Keys()), key)
      ensures r.NoMemory? ==> unchanged(this) && unchanged(chain)
      ensures r.Stored? ==> forall p :: 0 <= p < |chain| ==> chain[p] in old(chain) || fresh(chain[p])
    {
      hide Links, Backs, Sorted, TotalPreorder, KeysOf, FirstGE, Pred, Succ, Hs, At, U32, Towers, IsTop;
      if !allocOk {
        return NoMemory;
      }
      var n := new Node(Some(key), height);
      var prev := new Node?<K>[LEVEL_MAX](_ => null);
      Bounds();
      var oldLevel := level;
      LevelZeroIsEmpty(height);
      FillAbove(height, prev);
      if prev[0] == null {
        return NullDereference;
      }
      LinkIn(n, prev, 1);
      SplicedMembers(old(chain), n, 1);
      length := U32(length + 1);
      ValidGrown(old(chain), n, key, oldLevel);
      return Stored;
    }

    lemma LevelZeroIsEmpty(height: int)
      requires Valid() && height <= LEVEL_MAX
      ensures level == 0 <==> Keys() == []
      ensures level == 0 ==> |chain| == 1
      ensures forall i :: 0 <= i < height ==> Pred(Hs(chain), 1, i) == 0
      ensures forall key :: Keys() == [] ==> FirstGE(cmp, Keys(), key) == 0
    {
      hide Links, Backs, Sorted, TotalPreorder;
    }

    // Patching one level: the deleted tower stops hanging in on it.
    method UnthreadLevel(node: Node<K>, back: Node<K>, idx: int, ghost rest: seq<Node<K>>, ghost pos: nat)
      requires Towers(rest) && node !in rest && 0 < pos <= |rest|
      requires 0 <= idx < node.lvlNum <= LEVEL_MAX
      requires back == rest[Pred(Hs(rest), pos, idx)] && Woven(rest, node, pos, idx, node.lvlNum)
      modifies back`lvl
      ensures Woven(rest, node, pos, idx + 1, node.lvlNum)
    {
      hide Succ, Pred, At, Hs, WovenLink, Towers;
      PredReaches(rest, node, pos, idx);
      back.lvl := back.lvl[idx := node.lvl[idx]];
      forall p, i | 0 <= p < |rest| && 0 <= i < rest[p].lvlNum
        ensures rest[p].lvl[i] == WovenLink(rest, node, pos, idx + 1, node.lvlNum, p, i)
      {
        WovenStep(rest, node, pos, idx, p, i);
      }
    }

    lemma WalkBack(node: Node<K>, rest: seq<Node<K>>, pos: nat)
      requires 0 < pos <= |rest| && Backs(Spliced(rest, node, pos))
      ensures node.backward == rest[pos - 1] && forall r :: 0 < r < pos ==> rest[r].backward == rest[r - 1]
    {
      var c := Spliced(rest, node, pos);
      assert c[pos] == node && forall r :: 0 <= r < pos ==> c[r] == rest[r];
    }

    // The walk of skl_delete_node: backwards from the node, patching each level
    // at the first tower that reaches it. The head reaches every level, so the
    // walk never runs off the list.
    method Unthread(node: Node<K>, ghost rest: seq<Node<K>>, ghost pos: nat)
      requires Towers(rest) && node !in rest && 0 < pos <= |rest| && 1 <= node.lvlNum <= LEVEL_MAX
      requires Backs(Spliced(rest, node, pos)) && Woven(rest, node, pos, 0, node.lvlNum)
      modifies rest`lvl
      ensures Woven(rest, node, pos, node.lvlNum, node.lvlNum)
    {
      hide Woven, Links, Succ, Backs, Spliced, Hs;
      ghost var b := pos - 1;
      var nodeLvl, lvlCur := node.lvlNum, 0;
      WalkBack(node, rest, pos);
      var back: Node?<K> := node.backward;
      while back != null
        invariant 0 <= lvlCur < nodeLvl && 0 <= b < pos && back == rest[b]
        invariant forall r :: b < r < pos ==> rest[r].lvlNum <= lvlCur
        invariant Woven(rest, node, pos, lvlCur, nodeLvl)
        invariant forall r :: 0 < r < pos ==> rest[r].backward == rest[r - 1]
        decreases b
      {
        lvlCur := PatchAt(node, back, lvlCur, rest, pos, b);
        if lvlCur > nodeLvl - 1 {
          break;
        }
        back, b := back.backward, b - 1;
      }
    }

    // The inner loop: one tower on the way back is the predecessor on all levels
    // it reaches and no nearer tower did.
    method PatchAt(node: Node<K>, back: Node<K>, lvlCur: int, ghost rest: seq<Node<K>>, ghost pos: nat, ghost b: nat)
      returns (lvl: int)
      requires Towers(rest) && node !in rest && 0 < pos <= |rest| && node.lvlNum <= LEVEL_MAX
      requires 0 <= lvlCur < node.lvlNum && b < pos && back == rest[b]
      requires forall r :: b < r < pos ==> rest[r].lvlNum <= lvlCur
      requires Woven(rest, node, pos, lvlCur, node.lvlNum)
      modifies back`lvl
      ensures lvlCur <= lvl <= node.lvlNum && (lvl < node.lvlNum ==> back.lvlNum <= lvl)
      ensures Woven(rest, node, pos, lvl, node.lvlNum)
    {
      hide Woven, Succ;
      var updLvl := back.lvlNum - 1;
      lvl := lvlCur;
      while lvl < node.lvlNum && lvl <= updLvl
        invariant lvlCur <= lvl <= node.lvlNum
        invariant Woven(rest, node, pos, lvl, node.lvlNum)
      {
        assert Pred(Hs(rest), pos, lvl) == b;
        UnthreadLevel(node, back, lvl, rest, pos);
        lvl := lvl + 1;
      }
    }

    // The closing loop of skl_delete_node.
    method LowerLevel(ghost rest: seq<Node<K>>)
      requires Towers(rest) && Links(rest) && rest[0] == head && 0 < level <= LEVEL_MAX
      requires forall p :: 0 < p < |rest| ==> rest[p].lvlNum <= level
      modifies this`level
      ensures IsTop(rest, level)
    {
      while true
        invariant 0 < level <= LEVEL_MAX
        invariant forall p :: 0 < p < |rest| ==> rest[p].lvlNum <= level
        decreases level
      {
        assert head.lvl[level - 1] == At(rest, Succ(Hs(rest), 0, level - 1));
        if head.lvl[level - 1] != null {
          break;
        }
        level := level - 1;
        if level == 0 {
          break;
        }
      }
    }

    // skl_delete_node up to the counters.
    method Unlink(node: Node<K>, ghost pos: nat)
      requires Shape() && 0 < pos < |chain| && node == chain[pos]
      modifies this`tail, this`chain, chain
      ensures Shape() && chain == Without(old(chain), pos)
    {
      hide Links, Backs, Woven, Hs, At, Towers;
      ghost var rest := Without(chain, pos);
      WithoutSpliced(chain, pos);
      LinkedIsWoven(rest, node, pos);
      Unthread(node, rest, pos);
      UnwovenIsLinked(rest, node, pos);
      UnhookBack(node, rest, pos);
      chain := rest;
    }

    // `freed` is the node given to put_sklnode.
    method DeleteNode(node: Node<K>, ghost pos: nat) returns (freed: Node<K>)
      requires Valid() && 0 < pos < |chain| && node == chain[pos]
      modifies this, chain
      ensures Valid() && chain == Without(old(chain), pos)
      ensures Keys() == Without(old(Keys()), pos - 1) && freed == node
    {
      hide Links, Backs, Towers, IsTop, KeysOf, Sorted, TotalPreorder, U32;
      Bounds();
      Unlink(node, pos);
      length := U32(length - 1);
      RestIsLower(old(chain), pos, level);
      LowerLevel(chain);
      ValidShrunk(old(chain), pos);
      return node;
    }

    method UnhookBack(node: Node<K>, ghost rest: seq<Node<K>>, ghost pos: nat)
      requires Towers(rest) && node !in rest && 0 < pos <= |rest|
      requires Backs(Spliced(rest, node, pos)) && tail == Spliced(rest, node, pos)[|rest|]
      requires 0 < |node.lvl| && node.lvl[0] == At(rest, pos)
      modifies this`tail, rest`backward
      ensures Backs(rest) && tail == rest[|rest| - 1]
    {
      ghost var c := Spliced(rest, node, pos);
      assert node == c[pos] && c[pos].backward == c[pos - 1];
      assert forall p :: 0 <= p < |rest| ==> rest[p] == c[if p < pos then p else p + 1];
      if node.lvl[0] != null {
        node.lvl[0].backward := node.backward;
      } else {
        tail := node.backward;
      }
    }

    lemma ValidShrunk(c: seq<Node<K>>, pos: nat)
      requires Towers(c) && 0 < pos < |c| && TotalPreorder(cmp) && Sorted(cmp, KeysOf(c))
      requires Shape() && chain == Without(c, pos) && IsTop(chain, level)
      requires length == U32(U32(|c| - 1) - 1)
      ensures Valid() && Keys() == Without(KeysOf(c), pos - 1)
    {
      hide Links, Backs, IsTop, TotalPreorder, U32;
      U32Step(|c| - 1);
      assert Keys() == Without(KeysOf(c), pos - 1);
    }

    method FindGet(key: K) returns (r: Option<K>)
      requires Valid()
      modifies this, chain
      ensures Valid()
      ensures r == if Holds(cmp, old(Keys()), key) then Some(old(Keys())[FirstGE(cmp, old(Keys()), key)]) else None
      ensures forall x :: x in chain ==> x in old(chain)
      ensures Keys() == if r.None? then old(Keys()) else Without(old(Keys()), FirstGE(cmp, old(Keys()), key))
    {
      hide Links, Backs, IsTop, Sorted, TotalPreorder, FirstGE, Hs, Pred, U32;
      var node := GetBigEqual(key, null);
      if node == null || node == head {
        return None;
      }
      if cmp(key, node.key.value) == 0 {
        r := node.key;
        var _ := DeleteNode(node, Pos(key));
        return r;
      }
      return None;
    }

    method Contain(key: K) returns (found: bool)
      requires Valid()
      ensures found <==> exists j :: 0 <= j < |Keys()| && cmp(key, Keys()[j]) == 0
    {
      hide Links, Backs, IsTop, Sorted, TotalPreorder, FirstGE, Hs, Pred, U32;
      HoldsIsMembership(cmp, Keys(), key);
      var node := GetBigEqual(key, null);
      if node == null || node == head {
        return false;
      }
      return cmp(key, node.key.value) == 0;
    }

    // Only the head has no backward link.
    lemma HeadEndsWalk(p: nat)
      requires Valid() && p < |chain|
      ensures chain[p].backward == null <==> p == 0
    {
      hide Links, IsTop, Sorted, TotalPreorder;
      if p > 0 {
        assert chain[p].backward == chain[p - 1];
      }
    }

    // `visited` collects the keys in the order the callback receives them.
    method TravStraight() returns (visited: seq<K>)
      requires Valid()
      ensures visited == Keys()
    {
      hide Backs, IsTop, Sorted, TotalPreorder, U32;
      assert forall p :: 0 <= p < |chain| ==> Succ(Hs(chain), p, 0) == p + 1;
      visited := [];
      var node := head.lvl[0];
      while node != null
        invariant |visited| < |chain| && node == At(chain, |visited| + 1)
        invariant visited == Keys()[..|visited|]
        decreases |chain| - |visited|
      {
        visited := visited + [node.key.value];
        node := node.lvl[0];
      }
    }

    method TravReverse() returns (visited: seq<K>)
      requires Valid()
      ensures visited == Reverse(Keys())
    {
      hide Links, IsTop, Sorted, TotalPreorder, U32;
      visited := [];
      var node := tail;
      while node.backward != null
        invariant |visited| < |chain| && node == chain[|chain| - 1 - |visited|]
        invariant forall k :: 0 <= k < |visited| ==> visited[k] == Keys()[|Keys()| - 1 - k]
        decreases |chain| - |visited|
      {
        visited := visited + [node.key.value];
        node := node.backward;
      }
      HeadEndsWalk(|chain| - 1 - |visited|);
    }

    // `freed` collects the nodes given to put_sklnode. The guard reads the
    // 32-bit counter, so a list of exactly k * 2^32 nodes would be kept.
    method FlushAll() returns (freed: seq<Node<K>>)
      requires Valid()
      modifies this, head
      ensures Valid()
      ensures U32(|old(Keys())|) == 0 ==> unchanged(this) && unchanged(head) && freed == []
      ensures U32(|old(Keys())|) != 0 ==> Keys() == [] && chain == [head] && freed == Reverse(old(chain)[1..])
    {
      hide Links, IsTop, Sorted, TotalPreorder, U32;
      var node := tail;
      freed := [];
      if length == 0 {
        return;
      }
      while node.backward != null
        invariant |freed| < |chain| && node == chain[|chain| - 1 - |freed|]
        invariant forall k :: 0 <= k < |freed| ==> freed[k] == chain[|chain| - 1 - k]
        decreases |chain| - |freed|
      {
        var back := node.backward;
        freed := freed + [node];
        node := back;
      }
      HeadEndsWalk(|chain| - 1 - |freed|);
      length, level, tail := 0, 0, head;
      head.lvl := seq(head.lvlNum, _ => null);
      chain := [head];
      EmptyIsValid();
    }

    // The nodes met by following level-i links from n, at most `steps` of them.
    ghost function FollowLevel(n: Node<K>, i: nat, steps: nat): seq<Node<K>>
      requires n in chain
      reads this, chain
    {
      if steps == 0 || i >= |n.lvl| || n.lvl[i] == null || n.lvl[i] !in chain then []
      else [n.lvl[i]] + FollowLevel(n.lvl[i], i, steps - 1)
    }

    // Following level i from the head meets exactly the nodes higher than i, in
    // the order of the bottom chain; level 0 meets all of them.
    lemma LevelIsSubsequence(i: nat)
      requires Valid() && i < LEVEL_MAX
      ensures FollowLevel(head, i, |chain|) == HigherThan(chain[1..], i)
      ensures i == 0 ==> HigherThan(chain[1..], i) == chain[1..]
      ensures i >= level ==> FollowLevel(head, i, |chain|) == []
    {
      hide Links, Backs, Towers, IsTop, HigherThan, Sorted, TotalPreorder, FollowLevel;
      Bounds();
      HeightBounds();
      LevelFrom(0, i, |chain|);
      if i == 0 { AllHigher(chain[1..]); }
      if i >= level { NoneHigher(chain[1..], i); }
    }

    lemma HeightBounds()
      requires Valid()
      ensures forall r :: 0 <= r < |chain[1..]| ==> 0 < chain[1..][r].lvlNum <= level
    {
      hide Links, Backs, Sorted, TotalPreorder;
    }

    lemma {:induction false} LevelFrom(p: nat, i: nat, steps: nat)
      requires Valid() && p < |chain| && i < chain[p].lvlNum && |chain| - p <= steps
      ensures FollowLevel(chain[p], i, steps) == HigherThan(chain[p + 1..], i)
      decreases steps
    {
      hide Links, Backs, Towers, IsTop, Sorted, TotalPreorder, KeysOf, HigherThan, FollowLevel, Succ;
      LinkGoes(p, i);
      var s := Succ(Hs(chain), p, i);
      SkipLow(chain, p + 1, s, i);
      FollowOne(p, i, s, steps);
      if s < |chain| {
        LevelFrom(s, i, steps - 1);
      }
    }

    lemma FollowOne(p: nat, i: nat, s: nat, steps: nat)
      requires p < |chain| && i < |chain[p].lvl| && chain[p].lvl[i] == At(chain, s) && steps > 0
      ensures FollowLevel(chain[p], i, steps) ==
              if s < |chain| then [chain[s]] + FollowLevel(chain[s], i, steps - 1) else []
    {
    }

    lemma LinkGoes(p: nat, i: nat)
      requires Shape() && p < |chain| && i < chain[p].lvlNum
      ensures i < |chain[p].lvl| && chain[p].lvl[i] == At(chain, Succ(Hs(chain), p, i))
    {
      hide Backs, Towers;
    }

    lemma {:induction false} SkipLow(c: seq<Node<K>>, p: nat, s: nat, i: nat)
      requires p <= s <= |c| && (forall r :: p <= r < s ==> c[r].lvlNum <= i) && (s < |c| ==> c[s].lvlNum > i)
      ensures HigherThan(c[p..], i) == if s == |c| then [] else [c[s]] + HigherThan(c[s + 1..], i)
      decreases s - p
    {
      if p < |c| {
        assert c[p..][1..] == c[p + 1..];
        if p < s { SkipLow(c, p + 1, s, i); }
      }
    }

    lemma {:induction false} AllHigher(c: seq<Node<K>>)
      requires forall r :: 0 <= r < |c| ==> c[r].lvlNum > 0
      ensures HigherThan(c, 0) == c
    {
      if c != [] { AllHigher(c[1..]); }
    }

    lemma {:induction false} NoneHigher(c: seq<Node<K>>, i: nat)
      requires forall r :: 0 <= r < |c| ==> c[r].lvlNum <= i
      ensures HigherThan(c, i) == []
    {
      if c != [] { NoneHigher(c[1..], i); }
    }

    lemma EmptyIsValid()
      requires chain == [head] && tail == head && level == 0 && length == 0 && TotalPreorder(cmp)
      requires head.lvlNum == LEVEL_MAX && head.backward == null && head.lvl == seq(LEVEL_MAX, _ => null)
      ensures Valid() && Keys() == []
    {
    }

    lemma Bounds()
      requires Valid()
      ensures Towers(chain) && 0 <= level <= LEVEL_MAX && 0 < LEVEL_MAX
      ensures chain[0] == head && head.lvlNum == LEVEL_MAX
    {
    }

    // What one look at a level-lvl link says about the position searched for.
    lemma Look(key: K, b: nat, lvl: nat) returns (s: nat)
      requires Valid() && b < Pos(key) && lvl < chain[b].lvlNum
      ensures lvl < |chain[b].lvl|
      ensures var node := chain[b].lvl[lvl];
        && (node != null ==> node.key.Some?)
        && if node != null && cmp(key, node.key.value) > 0 then
             b < s < Pos(key) && node == chain[s] && lvl < node.lvlNum
           else
             b == Pred(Hs(chain), Pos(key), lvl) && (lvl == 0 ==> node == At(chain, Pos(key)))
    {
      hide Links, Backs, IsTop, Sorted, TotalPreorder, FirstGE;
      LinkGoes(b, lvl);
      s := Succ(Hs(chain), b, lvl);
      if s < |chain| {
        BelowIsBefore(Keys(), key, s - 1);
      }
    }

    lemma BelowIsBefore(ks: seq<K>, key: K, j: nat)
      requires TotalPreorder(cmp) && Sorted(cmp, ks) && j < |ks|
      ensures cmp(key, ks[j]) > 0 <==> j < FirstGE(cmp, ks, key)
    {
      var f := FirstGE(cmp, ks, key);
      if f <= j {
        assert Chains(cmp, key, ks[f], ks[j]);
      }
    }
  }

  // The second insert as it stands follows a null pointer, whatever the order,
  // the keys and the heights.
  method SecondInsertWitness<K(!new)>(cmp: (K, K) -> int, key: K, key': K, height: int, height': int)
    returns (r: InsertResult)
    requires TotalPreorder(cmp) && 1 <= height <= LEVEL_MAX && 1 <= height' <= LEVEL_MAX
    ensures r == NullDereference
  {
    hide TotalPreorder, Sorted, Links, Backs, Towers, IsTop;
    var sl := new SkipList(cmp);
    var first := sl.InsertAsWritten(key, height, true);
    r := sl.InsertAsWritten(key', height', true);
  }
}

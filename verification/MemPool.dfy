// The reserve pool of src/mempool.c: nodes come from an allocator that may
// fail, and a bounded stack of spare nodes helps out when it does.

module MemPool {
  import opened Seqs

  const S32_MAX: int := 0x7FFF_FFFF

  class Elem {
    constructor () {}
  }

  datatype PutResult = Done | WroteBeyondSlots

  datatype GetResult = Got | Failed | RollbackBeyondSlots

  function Min(a: int, b: int): int { if a <= b then a else b }

  ghost predicate Levels(wl: seq<int>) {
    |wl| == 3 && forall i :: 0 <= i < 3 ==> -S32_MAX - 1 <= wl[i] <= S32_MAX
  }

  lemma ElemsAppend(s: seq<Elem>, t: seq<Elem>)
    ensures Elems(s + t) == Elems(s) + Elems(t)
  {
  }

  // ---- conservation ----

  // Where the nodes are: spare, held by callers, or given to the release
  // function, in the order of its calls.
  datatype Books = Books(reserve: seq<Elem>, held: set<Elem>, freed: seq<Elem>)

  // Each node obtained is in exactly one of these places, and released once.
  ghost predicate Conserves(b: Books, obtained: set<Elem>) {
    && obtained == Elems(b.reserve) + b.held + Elems(b.freed)
    && Elems(b.reserve) !! b.held && Elems(b.reserve) !! Elems(b.freed) && b.held !! Elems(b.freed)
    && Distinct(b.reserve) && Distinct(b.freed)
  }

  // Nodes put back fill the reserve up to the level; the others are released.
  ghost function After(b: Books, level: int, given: seq<Elem>): Books
    requires |b.reserve| <= level
  {
    var k := Min(|given|, level - |b.reserve|);
    Books(b.reserve + given[..k], b.held - Elems(given), b.freed + given[k..])
  }

  lemma AfterTwice(b: Books, level: int, s: seq<Elem>, t: seq<Elem>)
    requires |b.reserve| <= level
    ensures |After(b, level, s).reserve| == Min(|b.reserve| + |s|, level)
    ensures After(After(b, level, s), level, t) == After(b, level, s + t)
  {
    var once, both := After(b, level, s), After(b, level, s + t);
    ElemsAppend(s, t);
    var room := level - |b.reserve|;
    if |s| <= room {
      assert (s + t)[..Min(|s + t|, room)] == s + t[..Min(|t|, room - |s|)];
      assert (s + t)[Min(|s + t|, room)..] == t[Min(|t|, room - |s|)..];
    } else {
      assert (s + t)[..room] == s[..room] && (s + t)[room..] == s[room..] + t;
    }
  }

  lemma AfterFits(b: Books, level: int, given: seq<Elem>)
    requires |b.reserve| + |given| <= level
    ensures After(b, level, given) == Books(b.reserve + given, b.held - Elems(given), b.freed)
  {
    assert given[..|given|] == given && given[|given|..] == [];
  }

  lemma AfterSurplus(b: Books, level: int, given: seq<Elem>)
    requires |b.reserve| <= level < |b.reserve| + |given|
    ensures var keep := level - |b.reserve|;
      && After(b, level, given) == Books(b.reserve + given[..keep], b.held - Elems(given), b.freed + given[keep..])
      && Elems(given) == Elems(given[..keep]) + Elems(given[keep..])
  {
    var keep := level - |b.reserve|;
    assert given == given[..keep] + given[keep..];
    ElemsAppend(given[..keep], given[keep..]);
  }

  lemma AfterNothing(b: Books, level: int)
    requires |b.reserve| <= level
    ensures After(b, level, []) == b
  {
  }

  // A caller may put nodes he holds, each once.
  ghost predicate MayPut(given: seq<Elem>, held: set<Elem>) {
    Distinct(given) && Elems(given) <= held
  }

  // Exactly then the books stay right.
  lemma PutConserves(b: Books, level: int, given: seq<Elem>, obtained: set<Elem>)
    requires Conserves(b, obtained) && |b.reserve| <= level
    ensures Conserves(After(b, level, given), obtained) <==> MayPut(given, b.held)
  {
    var k := Min(|given|, level - |b.reserve|);
    SplitPut(b, obtained, given[..k], given[k..]);
    assert given == given[..k] + given[k..];
  }

  lemma SplitPut(b: Books, obtained: set<Elem>, s: seq<Elem>, t: seq<Elem>)
    requires Conserves(b, obtained)
    ensures Conserves(Books(b.reserve + s, b.held - Elems(s + t), b.freed + t), obtained) <==> MayPut(s + t, b.held)
  {
    ElemsAppend(b.reserve, s);
    ElemsAppend(b.freed, t);
    ElemsAppend(s, t);
    DistinctJoin(b.reserve, s);
    DistinctJoin(b.freed, t);
    DistinctJoin(s, t);
    hide Elems, Distinct;
  }

  lemma AppendOne(s: seq<Elem>, x: Elem)
    requires Distinct(s) && x !in Elems(s)
    ensures Distinct(s + [x]) && Elems(s + [x]) == Elems(s) + {x}
  {
    ElemsAppend(s, [x]);
    DistinctJoin(s, [x]);
  }

  lemma DistinctJoin(s: seq<Elem>, t: seq<Elem>)
    ensures Distinct(s + t) <==> Distinct(s) && Distinct(t) && Elems(s) !! Elems(t)
  {
    var u := s + t;
    assert forall i :: 0 <= i < |s| ==> u[i] == s[i];
    assert forall j :: 0 <= j < |t| ==> u[|s| + j] == t[j];
    if Distinct(u) {
      forall i, j | 0 <= i < |s| && 0 <= j < |t| ensures s[i] != t[j] {
        assert u[i] != u[|s| + j];
      }
    }
    if Distinct(s) && Distinct(t) && Elems(s) !! Elems(t) {
      forall i, j | 0 <= i < j < |u| ensures u[i] != u[j] {
        if i < |s| <= j {
          assert s[i] in Elems(s) && t[j - |s|] in Elems(t);
        }
      }
    }
  }

  // Taking the newest spare node.
  lemma TakeConserves(b: Books, obtained: set<Elem>)
    requires Conserves(b, obtained) && b.reserve != []
    ensures var front, n := b.reserve[..|b.reserve| - 1], b.reserve[|b.reserve| - 1];
      n !in b.held && Conserves(Books(front, b.held + {n}, b.freed), obtained)
  {
    var front, n := b.reserve[..|b.reserve| - 1], b.reserve[|b.reserve| - 1];
    assert b.reserve == front + [n];
    ElemsAppend(front, [n]);
    DistinctJoin(front, [n]);
    assert n in Elems([n]);
  }

  // Releasing a node that is held, or keeping it as a spare one.
  lemma OneConserves(b: Books, obtained: set<Elem>, n: Elem)
    requires Conserves(b, obtained) && n in b.held
    ensures Conserves(Books(b.reserve, b.held - {n}, b.freed + [n]), obtained)
    ensures Conserves(Books(b.reserve + [n], b.held - {n}, b.freed), obtained)
  {
    hide Conserves;
    SplitPut(b, obtained, [], [n]);
    SplitPut(b, obtained, [n], []);
    assert [] + [n] == [n] == [n] + [] && Elems([n]) == {n};
    assert b.reserve + [] == b.reserve && b.freed + [] == b.freed;
  }

  // ---- the allocator's answers ----

  // How many allocations fail.
  function Misses(allocOk: seq<bool>): nat {
    if allocOk == [] then 0
    else Misses(allocOk[..|allocOk| - 1]) + if allocOk[|allocOk| - 1] then 0 else 1
  }

  // How many nodes a get obtains with that many spare ones.
  function Reach(allocOk: seq<bool>, spare: nat): nat {
    if Misses(allocOk) <= spare then |allocOk| else Reach(allocOk[..|allocOk| - 1], spare)
  }

  lemma MissesNext(allocOk: seq<bool>, k: nat)
    requires k < |allocOk|
    ensures Misses(allocOk[..k + 1]) == Misses(allocOk[..k]) + if allocOk[k] then 0 else 1
  {
    assert allocOk[..k + 1][..k] == allocOk[..k];
  }

  lemma {:induction false} MissesGrow(allocOk: seq<bool>, k: nat)
    requires k <= |allocOk|
    ensures Misses(allocOk[..k]) <= Misses(allocOk)
    decreases |allocOk|
  {
    if k < |allocOk| {
      MissesGrow(allocOk[..|allocOk| - 1], k);
      assert allocOk[..|allocOk| - 1][..k] == allocOk[..k];
    } else {
      assert allocOk[..k] == allocOk;
    }
  }

  // The node behind n newer ones of the reserve.
  ghost predicate IsSpare(x: Elem, reserve: seq<Elem>, n: nat) {
    n < |reserve| && x == reserve[|reserve| - 1 - n]
  }

  // A get stops at the first failed allocation that finds no spare node.
  lemma {:induction false} ReachIsFirst(allocOk: seq<bool>, k: nat)
    requires k < |allocOk| && !allocOk[k]
    ensures Misses(allocOk) > Misses(allocOk[..k]) && Reach(allocOk, Misses(allocOk[..k])) == k
    decreases |allocOk|
  {
    var front := allocOk[..|allocOk| - 1];
    if k < |front| {
      assert front[..k] == allocOk[..k];
      ReachIsFirst(front, k);
    } else {
      assert front == allocOk[..k];
    }
  }

  // The entries before the first NULL.
  function Leading(nodes: seq<Elem?>): (s: seq<Elem>)
    ensures |s| <= |nodes| && (|s| < |nodes| ==> nodes[|s|] == null)
    ensures forall i :: 0 <= i < |s| ==> nodes[i] == s[i]
  {
    if nodes == [] || nodes[0] == null then [] else [nodes[0]] + Leading(nodes[1..])
  }

  lemma LeadingAfter(s: seq<Elem>, nodes: seq<Elem?>)
    requires |s| <= |nodes| && forall i :: 0 <= i < |s| ==> nodes[i] == s[i]
    ensures Leading(nodes) == s + Leading(nodes[|s|..])
  {
    var a, b := Leading(nodes), s + Leading(nodes[|s|..]);
    assert |b| < |nodes| ==> nodes[|b|] == nodes[|s|..][|b| - |s|] == null;
    assert forall i :: 0 <= i < |b| ==> nodes[i] == b[i];
    assert |a| == |b|;
  }

  class Pool {
    var wl: seq<int>             // low, mid and high water level
    var syswl: int
    var freeCnt: int
    var slotCnt: int
    var freeNode: array<Elem?>
    // Where every node ever obtained from the allocator is now; `freed` lists
    // the calls of the release function.
    ghost var reserve: seq<Elem>
    ghost var held: set<Elem>
    ghost var freed: seq<Elem>
    ghost var obtained: set<Elem>

    ghost function TheBooks(): Books
      reads this
    {
      Books(reserve, held, freed)
    }

    ghost predicate Conserved()
      reads this
    {
      Conserves(TheBooks(), obtained)
    }

    ghost predicate Stacked()
      reads this, freeNode
    {
      && 0 <= freeCnt == |reserve| <= slotCnt == freeNode.Length
      && (forall i :: 0 <= i < freeCnt ==> freeNode[i] == reserve[i])
    }

    // What holds even while the level is being lowered.
    ghost predicate Sound()
      reads this, freeNode
    {
      Levels(wl) && 0 <= syswl < 3 && Stacked()
    }

    // What the operations need, whatever nodes they were given.
    ghost predicate Ready()
      reads this, freeNode
    {
      Sound() && freeCnt <= wl[syswl]
    }

    ghost predicate Valid()
      reads this, freeNode
    {
      Ready() && Conserved()
    }

    // The allocator and the release function are the caller's; `ok` is whether
    // the allocator has a node to give.
    method Alloc(ok: bool) returns (n: Elem?)
      requires Conserved()
      modifies this`held, this`obtained
      ensures Conserved() && (n != null <==> ok)
      ensures n == null ==> held == old(held) && obtained == old(obtained)
      ensures n != null ==> fresh(n) && held == old(held) + {n} && obtained == old(obtained) + {n}
    {
      if !ok {
        return null;
      }
      n := new Elem();
      held, obtained := held + {n}, obtained + {n};
    }

    method Free(n: Elem)
      modifies this`held, this`freed
      ensures held == old(held) - {n} && freed == old(freed) + [n]
    {
      held, freed := held - {n}, freed + [n];
    }

    method RemoveElement() returns (n: Elem)
      requires Sound() && Conserved() && freeCnt > 0
      modifies this`freeCnt, this`reserve, this`held
      ensures Sound() && Conserved() && n == old(reserve)[old(freeCnt) - 1] && n !in old(held)
      ensures reserve == old(reserve)[..old(freeCnt) - 1] && held == old(held) + {n}
    {
      TakeConserves(TheBooks(), obtained);
      freeCnt := freeCnt - 1;
      n := freeNode[freeCnt];
      held, reserve := held + {n}, reserve[..freeCnt];
    }

    // The level is the assertion in the code; the slots are what the array needs.
    method AddElement(n: Elem)
      requires Sound() && freeCnt < wl[syswl] && freeCnt < slotCnt
      modifies this`freeCnt, this`reserve, this`held, freeNode
      ensures Sound() && reserve == old(reserve) + [n] && held == old(held) - {n}
    {
      freeNode[freeCnt] := n;
      freeCnt := freeCnt + 1;
      held, reserve := held - {n}, reserve + [n];
    }

    // `allocOk` is whether the new slot array could be allocated. The copy takes
    // as many entries as the new array has and so reads past the old one exactly
    // when the array grows.
    method Resize(force: bool, allocOk: bool) returns (overread: bool)
      requires Sound()
      modifies this`freeNode, this`slotCnt
      ensures Sound() && (freeNode == old(freeNode) || fresh(freeNode))
      ensures slotCnt ==
        if (old(slotCnt) >= wl[syswl] || force) && freeCnt <= wl[syswl] && allocOk then wl[syswl] else old(slotCnt)
      ensures overread <==> slotCnt > old(slotCnt)
    {
      var slots := wl[syswl];
      if slotCnt < slots && !force {
        return false;
      }
      if freeCnt > slots {
        return false;
      }
      if !allocOk {
        return false;
      }
      var newSlots := new Elem?[slots];
      forall i | 0 <= i < slots && i < slotCnt {
        newSlots[i] := freeNode[i];
      }
      overread := slots > slotCnt;
      freeNode := newSlots;
      slotCnt := slots;
    }

    method ReleaseNewest()
      requires Sound() && Conserved() && freeCnt > 0
      modifies this`freeCnt, this`reserve, this`held, this`freed
      ensures Sound() && Conserved() && held == old(held) && freeCnt == |reserve| == old(freeCnt) - 1
      ensures old(freeCnt) == |old(reserve)| && reserve == old(reserve)[..freeCnt]
      ensures freed == old(freed) + [old(reserve)[freeCnt]]
    {
      hide Conserves;
      var node := RemoveElement();
      OneConserves(TheBooks(), obtained, node);
      Free(node);
    }

    // Releases spare nodes, the newest first, down to `target`; below zero the
    // next removal would read before the first slot.
    method Trim(target: int) returns (ok: bool)
      requires Sound() && Conserved()
      modifies this`freeCnt, this`reserve, this`held, this`freed
      ensures Sound() && Conserved() && held == old(held)
      ensures ok <==> target >= 0
      ensures ok ==> freeCnt == Min(old(freeCnt), target)
      ensures ok ==> reserve == old(reserve)[..freeCnt] && freed == old(freed) + Reverse(old(reserve)[freeCnt..])
    {
      assert freeCnt == |reserve| && reserve[freeCnt..] == [] && Reverse<Elem>([]) == [];
      hide Conserves, Levels, Reverse, Stacked;
      while freeCnt > target
        invariant Sound() && Conserved() && held == old(held)
        invariant 0 <= freeCnt == |reserve| <= old(freeCnt) && (freeCnt < target ==> freeCnt == old(freeCnt))
        invariant reserve == old(reserve)[..freeCnt]
        invariant freed == old(freed) + Reverse(old(reserve)[freeCnt..])
        decreases freeCnt - target
      {
        if freeCnt == 0 {
          return false;
        }
        ReleaseNewest();
        ReverseNext(old(reserve), freeCnt);
      }
      return target >= 0;
    }

    // The loops of put_mp_nodes that fill slots; stops at the first write that
    // would go past the slot array.
    method AddMany(nodes: array<Elem?>, off: nat, n: nat, ghost given: seq<Elem>) returns (fits: bool)
      requires Sound() && nodes != freeNode && off + n <= nodes.Length && n <= |given| && freeCnt + n <= wl[syswl]
      requires forall i :: 0 <= i < n ==> nodes[off + i] == given[i]
      modifies this`freeCnt, this`reserve, this`held, freeNode
      ensures fits <==> old(freeCnt) + n <= slotCnt
      ensures fits ==> Sound() && reserve == old(reserve) + given[..n] && held == old(held) - Elems(given[..n])
    {
      for idx := 0 to n
        invariant Sound() && freeCnt == old(freeCnt) + idx <= slotCnt
        invariant reserve == old(reserve) + given[..idx] && held == old(held) - Elems(given[..idx])
        invariant forall i :: 0 <= i < n ==> nodes[off + i] == given[i]
      {
        if freeCnt == slotCnt {
          return false;
        }
        assert nodes[off + idx] == given[idx];
        AddElement(nodes[off + idx]);
        assert given[..idx + 1] == given[..idx] + [given[idx]];
        ElemsAppend(given[..idx], [given[idx]]);
      }
      return true;
    }

    // The loop of put_mp_nodes that gives the surplus to the release function.
    method FreeMany(nodes: array<Elem?>, off: nat, from: nat, n: nat, ghost given: seq<Elem>)
      requires from <= n == |given| && off + n <= nodes.Length
      requires forall i :: from <= i < n ==> nodes[off + i] == given[i]
      modifies this`held, this`freed
      ensures held == old(held) - Elems(given[from..]) && freed == old(freed) + given[from..]
    {
      for idx := from to n
        invariant held == old(held) - Elems(given[from..idx]) && freed == old(freed) + given[from..idx]
      {
        assert nodes[off + idx] == given[idx];
        Free(nodes[off + idx]);
        assert given[from..idx + 1] == given[from..idx] + [given[idx]];
        ElemsAppend(given[from..idx], [given[idx]]);
      }
      assert given[from..n] == given[from..];
    }

    // put_mp_nodes behind its resize.
    method Fill(nodes: array<Elem?>, off: nat, nr: nat, ghost given: seq<Elem>) returns (r: PutResult)
      requires Ready() && nodes != freeNode && off + nr <= nodes.Length
      requires |given| == nr && forall i :: 0 <= i < nr ==> nodes[off + i] == given[i]
      modifies this`freeCnt, this`reserve, this`held, this`freed, freeNode
      ensures r.Done? <==> Min(old(freeCnt) + nr, wl[syswl]) <= slotCnt
      ensures r.Done? ==> Ready() && TheBooks() == After(old(TheBooks()), wl[syswl], given)
    {
      var lvlCnt := wl[syswl];
      ghost var b := TheBooks();
      assert given[..nr] == given;
      hide After, Elems;
      if freeCnt + nr <= lvlCnt {
        AfterFits(b, lvlCnt, given);
        var fits := AddMany(nodes, off, nr, given);
        return if fits then Done else WroteBeyondSlots;
      }
      AfterSurplus(b, lvlCnt, given);
      var keep := lvlCnt - freeCnt;
      var fits := AddMany(nodes, off, keep, given);
      if !fits {
        return WroteBeyondSlots;
      }
      FreeMany(nodes, off, keep, nr, given);
      return Done;
    }

    // put_mp_nodes(mp, &nodes[off], nr). `given` names the nodes handed in, which
    // may be any nodes: the books stay right exactly when the caller held them
    // and gives each once.
    method PutNodes(nodes: array<Elem?>, off: nat, nr: nat, resizeOk: bool, ghost given: seq<Elem>)
      returns (r: PutResult)
      requires Ready() && nodes != freeNode && off + nr <= nodes.Length && nr <= S32_MAX
      requires |given| == nr && forall i :: 0 <= i < nr ==> nodes[off + i] == given[i]
      modifies this, freeNode
      ensures wl == old(wl) && syswl == old(syswl) && obtained == old(obtained)
      ensures freeNode == old(freeNode) || fresh(freeNode)
      ensures r.WroteBeyondSlots? <==> !resizeOk && Min(old(freeCnt) + nr, wl[syswl]) > old(slotCnt)
      ensures slotCnt == if old(freeCnt) + nr > old(slotCnt) && resizeOk then wl[syswl] else old(slotCnt)
      ensures r.Done? ==> Ready() && TheBooks() == old(After(TheBooks(), wl[syswl], given))
      ensures r.Done? && old(Conserved()) ==> (Conserved() <==> MayPut(given, old(held)))
    {
      hide Conserves, MayPut, After;
      if Conserved() { PutConserves(TheBooks(), wl[syswl], given, obtained); }
      if freeCnt + nr > slotCnt {
        var _ := Resize(true, resizeOk);
      }
      r := Fill(nodes, off, nr, given);
    }

    // The rollback of a failed get: puts back one entry at a time up to the first
    // NULL, whatever the entries are; `stop` is where it stops. `resizeOk` is
    // whether the first resize that is needed succeeds: a later one changes
    // nothing.
    method CleanNodeList(nodes: array<Elem?>, nr: nat, resizeOk: bool) returns (r: PutResult, stop: nat)
      requires Ready() && nodes != freeNode && nr <= nodes.Length && nr <= S32_MAX
      modifies this, freeNode, nodes
      ensures wl == old(wl) && syswl == old(syswl) && obtained == old(obtained)
      ensures freeNode == old(freeNode) || fresh(freeNode)
      ensures var put := Leading(old(nodes[..nr])); var top := Min(old(freeCnt) + |put|, wl[syswl]);
        && (r.WroteBeyondSlots? <==> !resizeOk && top > old(slotCnt))
        && (r.Done? ==> Ready() && stop == |put| && TheBooks() == old(After(TheBooks(), wl[syswl], put)))
        && (r.Done? ==> slotCnt == if top > old(slotCnt) then wl[syswl] else old(slotCnt))
        && (r.Done? && old(Conserved()) ==> (Conserved() <==> MayPut(put, old(held))))
      ensures r.Done? ==> forall i :: 0 <= i < nodes.Length ==> nodes[i] == if i < stop then null else old(nodes[i])
    {
      hide Conserves, MayPut, After, Leading;
      ghost var put, b, level := Leading(nodes[..nr]), TheBooks(), wl[syswl];
      if Conserved() { PutConserves(b, level, put, obtained); }
      AfterNothing(b, level);
      assert put[..0] == [];
      for idx := 0 to nr
        invariant Ready() && wl == old(wl) && syswl == old(syswl) && obtained == old(obtained)
        invariant nodes != freeNode && (freeNode == old(freeNode) || fresh(freeNode))
        invariant idx <= |put| && freeCnt == Min(old(freeCnt) + idx, level)
        invariant slotCnt == if freeCnt > old(slotCnt) then level else old(slotCnt)
        invariant !resizeOk ==> freeCnt <= old(slotCnt)
        invariant TheBooks() == After(b, level, put[..idx])
        invariant forall i :: 0 <= i < nodes.Length ==> nodes[i] == if i < idx then null else old(nodes[i])
      {
        assert nodes[idx] == old(nodes[..nr])[idx];
        if nodes[idx] == null {
          assert put[..idx] == put;
          return Done, idx;
        }
        assert put[..idx + 1] == put[..idx] + [put[idx]];
        AfterTwice(b, level, put[..idx], [put[idx]]);
        AfterTwice(b, level, put[..idx + 1], []);
        var res := PutNodes(nodes, idx, 1, resizeOk, [put[idx]]);
        if res.WroteBeyondSlots? {
          return res, idx;
        }
        nodes[idx] := null;
      }
      assert put[..nr] == put;
      return Done, nr;
    }

    // One node from the allocator, or else the newest spare one, or else none.
    method TakeOne(ok: bool) returns (n: Elem?)
      requires Valid()
      modifies this`freeCnt, this`reserve, this`held, this`obtained
      ensures Valid() && freeCnt == |reserve|
      ensures n == null <==> !ok && old(freeCnt) == 0
      ensures n == null ==> held == old(held) && reserve == old(reserve) && obtained == old(obtained)
      ensures n != null ==> n !in old(held) && held == old(held) + {n} && obtained == old(obtained) + {n}
      ensures ok ==> fresh(n) && reserve == old(reserve)
      ensures !ok && n != null ==> |old(reserve)| == |reserve| + 1 && reserve == old(reserve)[..|reserve|]
      ensures !ok && n != null ==> n == old(reserve)[|reserve|]
    {
      n := Alloc(ok);
      if n == null {
        if freeCnt <= 0 {
          return null;
        }
        n := RemoveElement();
      }
    }

    lemma Sizes()
      requires Ready()
      ensures 0 <= freeCnt == |reserve| <= wl[syswl] <= S32_MAX && freeCnt <= slotCnt && Misses([]) == 0
    {
    }

    // get_mp_nodes; `allocOk` tells for each node whether the allocator can give
    // it. `got` names the nodes obtained before success or failure, `stale` what
    // the array held behind them, up to the first NULL: a failed get puts that
    // back as well.
    method GetNodes(nodes: array<Elem?>, nr: nat, allocOk: seq<bool>, resizeOk: bool)
      returns (r: GetResult, ghost got: seq<Elem>, ghost stale: seq<Elem>)
      requires Valid() && nodes != freeNode && nr == |allocOk| <= nodes.Length && nr <= S32_MAX
      modifies this, freeNode, nodes
      ensures wl == old(wl) && syswl == old(syswl) && obtained == old(obtained) + Elems(got)
      ensures freeNode == old(freeNode) || fresh(freeNode)
      ensures r.Got? <==> Misses(allocOk) <= old(freeCnt)
      ensures Distinct(got) && Elems(got) !! old(held) && |got| == Reach(allocOk, old(freeCnt)) <= nr
      ensures forall i :: 0 <= i < |got| && allocOk[i] ==> got[i] !in old(reserve)
      // The spare nodes given, in output order, are those cut off the reserve,
      // the newest first.
      ensures forall i :: 0 <= i < |got| && !allocOk[i] ==> IsSpare(got[i], old(reserve), Misses(allocOk[..i]))
      // Success: the caller holds these nodes too.
      ensures r.Got? ==> Valid() && |got| == nr && held == old(held) + Elems(got)
      ensures r.Got? ==> freed == old(freed) && slotCnt == old(slotCnt)
      ensures r.Got? ==> reserve == old(reserve)[..old(freeCnt) - Misses(allocOk)]
      ensures r.Got? ==> forall i :: 0 <= i < nodes.Length ==> nodes[i] == if i < nr then got[i] else old(nodes[i])
      // Failure: what was obtained goes back, with whatever stood behind it.
      ensures !r.Got? ==> old(freeCnt) <= |got| < nr && stale == Leading(old(nodes[..nr])[|got|..])
      ensures !r.Got? ==> (stale == [] <==> old(nodes[..nr])[|got|] == null)
      ensures r.RollbackBeyondSlots? <==>
        Misses(allocOk) > old(freeCnt) && !resizeOk && Min(|got| + |stale|, wl[syswl]) > old(slotCnt)
      ensures r.Failed? ==> Ready() && freeCnt == Min(|got| + |stale|, wl[syswl]) >= old(freeCnt)
      ensures r.Failed? ==> slotCnt == if freeCnt > old(slotCnt) then wl[syswl] else old(slotCnt)
      ensures r.Failed? ==> held == old(held) - Elems(stale) && reserve == (got + stale)[..freeCnt]
      ensures r.Failed? ==> freed == old(freed) + (got + stale)[freeCnt..]
      ensures r.Failed? ==> (Conserved() <==> MayPut(stale, old(held)))
      ensures r.Failed? ==> forall i :: 0 <= i < nodes.Length ==>
        nodes[i] == if i < |got| + |stale| then null else old(nodes[i])
    {
      hide Conserves, Stacked, Misses, Reach, Levels, MayPut, Leading, After, Elems, Distinct;
      var k;
      k, got := Obtain(nodes, nr, allocOk);
      if k == nr {
        return Got, got, [];
      }
      r, stale := RollBack(nodes, nr, resizeOk, got, old(nodes[..nr]), old(held));
    }

    // The loop of get_mp_nodes up to the first node that cannot be had.
    method Obtain(nodes: array<Elem?>, nr: nat, allocOk: seq<bool>) returns (k: nat, ghost got: seq<Elem>)
      requires Valid() && nodes != freeNode && nr == |allocOk| <= nodes.Length
      modifies this`freeCnt, this`reserve, this`held, this`obtained, nodes
      ensures Valid() && obtained == old(obtained) + Elems(got) && held == old(held) + Elems(got)
      ensures k == |got| == Reach(allocOk, old(freeCnt)) <= nr && Distinct(got) && Elems(got) !! old(held)
      ensures forall i :: 0 <= i < k && allocOk[i] ==> got[i] !in old(reserve)
      ensures forall i :: 0 <= i < k && !allocOk[i] ==> IsSpare(got[i], old(reserve), Misses(allocOk[..i]))
      ensures forall i :: 0 <= i < nodes.Length ==> nodes[i] == if i < k then got[i] else old(nodes[i])
      ensures k == nr <==> Misses(allocOk) <= old(freeCnt)
      ensures k == nr ==> reserve == old(reserve)[..old(freeCnt) - Misses(allocOk)]
      ensures k < nr ==> freeCnt == 0 && old(freeCnt) <= k
    {
      hide Conserves, Stacked, Misses, Reach, Levels;
      Sizes();
      got, k := [], 0;
      assert Elems(got) == {} && Distinct(got);
      hide Elems, Distinct;
      while k < nr
        invariant Valid() && k == |got| <= nr && freeCnt == |reserve| <= old(freeCnt)
        invariant obtained == old(obtained) + Elems(got)
        invariant Misses(allocOk[..k]) == old(freeCnt) - freeCnt <= k && reserve == old(reserve)[..freeCnt]
        invariant Distinct(got) && Elems(got) !! old(held) && held == old(held) + Elems(got)
        invariant forall i :: 0 <= i < k && allocOk[i] ==> got[i] !in old(reserve)
        invariant forall i :: 0 <= i < k && !allocOk[i] ==> IsSpare(got[i], old(reserve), Misses(allocOk[..i]))
        invariant forall i :: 0 <= i < nodes.Length ==> nodes[i] == if i < k then got[i] else old(nodes[i])
      {
        MissesNext(allocOk, k);
        var tmp := TakeOne(allocOk[k]);
        if tmp == null {
          ReachIsFirst(allocOk, k);
          return;
        }
        AppendOne(got, tmp);
        nodes[k], got, k := tmp, got + [tmp], k + 1;
      }
      assert allocOk[..nr] == allocOk;
      ReachIsAll(allocOk, old(freeCnt));
    }

    // The failing branch of get_mp_nodes, with an empty reserve.
    method RollBack(nodes: array<Elem?>, nr: nat, resizeOk: bool, ghost got: seq<Elem>,
                    ghost was: seq<Elem?>, ghost mine: set<Elem>)
      returns (r: GetResult, ghost stale: seq<Elem>)
      requires Valid() && freeCnt == 0 && nodes != freeNode && |got| < nr == |was| <= nodes.Length && nr <= S32_MAX
      requires forall i :: 0 <= i < nr ==> nodes[i] == if i < |got| then got[i] else was[i]
      requires Distinct(got) && Elems(got) !! mine && held == mine + Elems(got)
      modifies this, freeNode, nodes
      ensures wl == old(wl) && syswl == old(syswl) && obtained == old(obtained)
      ensures freeNode == old(freeNode) || fresh(freeNode)
      ensures !r.Got? && stale == Leading(was[|got|..])
      ensures r.RollbackBeyondSlots? <==> !resizeOk && Min(|got| + |stale|, wl[syswl]) > old(slotCnt)
      ensures r.Failed? ==> Ready() && freeCnt == Min(|got| + |stale|, wl[syswl])
      ensures r.Failed? ==> slotCnt == if freeCnt > old(slotCnt) then wl[syswl] else old(slotCnt)
      ensures r.Failed? ==> held == mine - Elems(stale) && reserve == (got + stale)[..freeCnt]
      ensures r.Failed? ==> freed == old(freed) + (got + stale)[freeCnt..]
      ensures r.Failed? ==> (Conserved() <==> MayPut(stale, mine))
      ensures r.Failed? ==> forall i :: 0 <= i < nodes.Length ==>
        nodes[i] == if i < |got| + |stale| then null else old(nodes[i])
    {
      hide Conserves, MayPut, Leading;
      stale := Leading(was[|got|..]);
      assert nodes[..nr][|got|..] == was[|got|..];
      LeadingAfter(got, nodes[..nr]);
      ElemsAppend(got, stale);
      PutWithGot(got, stale, mine);
      var res, stop := CleanNodeList(nodes, nr, resizeOk);
      return if res.Done? then Failed else RollbackBeyondSlots, stale;
    }

    // `ok` is false when the new level is negative: the code would then take
    // nodes from an empty reserve.
    method UpdateSyswl(level: int, resizeOk: bool) returns (ok: bool)
      requires Valid() && 0 <= level < 3
      modifies this, freeNode
      ensures wl == old(wl) && obtained == old(obtained) && held == old(held)
      ensures freeNode == old(freeNode) || fresh(freeNode)
      ensures ok <==> wl[level] >= 0
      ensures ok ==> Valid() && syswl == level && freeCnt == Min(old(freeCnt), wl[level])
      ensures ok ==> reserve == old(reserve)[..freeCnt] && freed == old(freed) + Reverse(old(reserve)[freeCnt..])
      ensures ok ==>
        slotCnt == if old(freeCnt) > wl[level] && old(slotCnt) >= wl[level] && resizeOk then wl[level] else old(slotCnt)
    {
      hide Conserves;
      assert reserve[..freeCnt] == reserve && reserve[freeCnt..] == [];
      if syswl == level {
        return true;
      }
      syswl := level;
      if freeCnt <= wl[level] {
        return true;
      }
      ok := Trim(wl[level]);
      if ok {
        var _ := Resize(false, resizeOk);
      }
    }

    // The same for new water levels, whichever of them is in force.
    method UpdateMpwl(hwl: int, mwl: int, lwl: int, resizeOk: bool) returns (ok: bool)
      requires Valid() && Levels([lwl, mwl, hwl])
      modifies this, freeNode
      ensures wl == [lwl, mwl, hwl] && syswl == old(syswl) && obtained == old(obtained) && held == old(held)
      ensures freeNode == old(freeNode) || fresh(freeNode)
      ensures ok <==> wl[syswl] >= 0
      ensures ok ==> Valid() && freeCnt == Min(old(freeCnt), wl[syswl])
      ensures ok ==> reserve == old(reserve)[..freeCnt] && freed == old(freed) + Reverse(old(reserve)[freeCnt..])
      ensures ok ==> slotCnt == if old(slotCnt) >= wl[syswl] && resizeOk then wl[syswl] else old(slotCnt)
    {
      hide Conserves;
      wl := wl[2 := hwl];
      wl := wl[1 := mwl];
      wl := wl[0 := lwl];
      assert wl == [lwl, mwl, hwl];
      ok := Trim(wl[syswl]);
      if ok {
        var _ := Resize(false, resizeOk);
      }
    }

    constructor Empty(low: int, mid: int, high: int)
      requires Levels([low, mid, high]) && low >= 0
      ensures Valid() && fresh(freeNode) && wl == [low, mid, high] && syswl == 0 && slotCnt == low && freeCnt == 0
      ensures reserve == [] && held == obtained == {} && freed == []
    {
      wl, syswl, freeCnt, slotCnt := [low, mid, high], 0, 0, low;
      assert [low, mid, high][0] == low;
      freeNode := new Elem?[low](_ => null);
      reserve, held, freed, obtained := [], {}, [], {};
    }

    // destroy_mp up to the release of the pool itself.
    method Destroy()
      requires Sound() && Conserved()
      modifies this, freeNode
      ensures Sound() && Conserved() && freeCnt == 0 && held == old(held) && obtained == old(obtained)
      ensures freed == old(freed) + Reverse(old(reserve)) && freeNode == old(freeNode)
    {
      hide Conserves;
      assert reserve[0..] == reserve;
      var _ := Trim(0);
    }
  }

  lemma ReachIsAll(allocOk: seq<bool>, spare: nat)
    ensures Misses(allocOk) <= spare ==> Reach(allocOk, spare) == |allocOk|
  {
  }

  // The nodes just obtained may be put back; so the rest decides.
  lemma PutWithGot(got: seq<Elem>, stale: seq<Elem>, mine: set<Elem>)
    requires Distinct(got) && Elems(got) !! mine
    ensures MayPut(got + stale, mine + Elems(got)) <==> MayPut(stale, mine)
  {
    DistinctJoin(got, stale);
    ElemsAppend(got, stale);
    hide Distinct, Elems;
  }

  // create_mp: a full reserve, or nothing kept at all. `poolOk` and `slotsOk` are
  // the allocations of the pool and of its slots; no allocator gives the slots
  // of a negative level.
  method CreateMp(low: int, mid: int, high: int, poolOk: bool, slotsOk: bool, allocOk: seq<bool>)
    returns (ok: bool, mp: Pool?)
    requires Levels([low, mid, high]) && (slotsOk ==> 0 <= low) && (0 <= low ==> |allocOk| == low)
    ensures mp != null ==> fresh(mp) && fresh(mp.freeNode)
    ensures ok <==> poolOk && slotsOk && Misses(allocOk) == 0
    ensures mp != null <==> poolOk && slotsOk
    ensures ok ==> mp.Valid() && mp.freeCnt == mp.slotCnt == low && mp.wl == [low, mid, high] && mp.syswl == 0
    ensures ok ==> mp.held == {} && mp.freed == []
    ensures !ok && mp != null ==> mp.Conserved() && mp.reserve == [] && mp.held == {} && Elems(mp.freed) == mp.obtained
  {
    hide Conserves;
    if !poolOk || !slotsOk {
      return false, null;
    }
    mp := new Pool.Empty(low, mid, high);
    while mp.freeCnt < mp.wl[mp.syswl]
      invariant mp.Valid() && mp.wl == [low, mid, high] && mp.syswl == 0 && mp.slotCnt == low
      invariant fresh(mp) && fresh(mp.freeNode) && mp.held == {} && mp.freed == []
      invariant Misses(allocOk[..mp.freeCnt]) == 0
      decreases low - mp.freeCnt
    {
      MissesNext(allocOk, mp.freeCnt);
      var tmp := mp.Alloc(allocOk[mp.freeCnt]);
      if tmp == null {
        MissesGrow(allocOk, mp.freeCnt + 1);
        mp.Destroy();
        AllReleased(mp.TheBooks(), mp.obtained);
        return false, mp;
      }
      OneConserves(mp.TheBooks(), mp.obtained, tmp);
      mp.AddElement(tmp);
    }
    assert allocOk[..low] == allocOk;
    ok := true;
  }

  lemma AllReleased(b: Books, obtained: set<Elem>)
    requires Conserves(b, obtained) && b.reserve == [] && b.held == {}
    ensures Elems(b.freed) == obtained
  {
  }

  // ---- whole runs ----

  datatype Op =
    | Get(allocOk: seq<bool>, resizeOk: bool)
    | Put(nr: nat, resizeOk: bool)
    | SetLevel(level: int, resizeOk: bool)
    | SetMarks(high: int, mid: int, low: int, resizeOk: bool)

  // The machine types of the arguments.
  ghost predicate Legal(op: Op) {
    match op
    case Get(allocOk, _) => |allocOk| <= S32_MAX
    case Put(nr, _) => nr <= S32_MAX
    case SetLevel(level, _) => 0 <= level < 3
    case SetMarks(high, mid, low, _) => Levels([low, mid, high])
  }

  // What the counters alone tell about a pool and its user.
  datatype Counts = Counts(free: int, slots: int, wl: seq<int>, level: int, mine: nat)

  ghost predicate Fair(c: Counts) {
    Levels(c.wl) && 0 <= c.level < 3 && 0 <= c.free <= c.wl[c.level]
  }

  // Whether the call writes beyond the slots or takes from an empty reserve.
  ghost predicate Faults(c: Counts, op: Op)
    requires Fair(c) && Legal(op)
  {
    match op
    case Get(allocOk, resizeOk) =>
      Misses(allocOk) > c.free && !resizeOk && Min(Reach(allocOk, c.free), c.wl[c.level]) > c.slots
    case Put(nr, resizeOk) => nr <= c.mine && !resizeOk && Min(c.free + nr, c.wl[c.level]) > c.slots
    case SetLevel(level, _) => c.wl[level] < 0
    case SetMarks(high, mid, low, _) => [low, mid, high][c.level] < 0
  }

  ghost function Next(c: Counts, op: Op): (d: Counts)
    requires Fair(c) && Legal(op) && !Faults(c, op)
    ensures Fair(d)
  {
    var top := c.wl[c.level];
    match op
    case Get(allocOk, _) =>
      if Misses(allocOk) <= c.free then c.(free := c.free - Misses(allocOk), mine := c.mine + |allocOk|)
      else
        var free := Min(Reach(allocOk, c.free), top);
        c.(free := free, slots := if free > c.slots then top else c.slots)
    case Put(nr, resizeOk) =>
      if nr > c.mine then c
      else c.(free := Min(c.free + nr, top), slots := if c.free + nr > c.slots && resizeOk then top else c.slots,
              mine := c.mine - nr)
    case SetLevel(level, resizeOk) =>
      var mark := c.wl[level];
      c.(free := Min(c.free, mark), level := level,
         slots := if c.free > mark && c.slots >= mark && resizeOk then mark else c.slots)
    case SetMarks(high, mid, low, resizeOk) =>
      var mark := [low, mid, high][c.level];
      c.(free := Min(c.free, mark), wl := [low, mid, high],
         slots := if c.slots >= mark && resizeOk then mark else c.slots)
  }

  // The counters after these calls, none if some call faults.
  datatype Outcome = Faulted | Now(counts: Counts)

  ghost function Replay(c: Counts, ops: seq<Op>): (o: Outcome)
    requires Fair(c) && forall i :: 0 <= i < |ops| ==> Legal(ops[i])
    ensures o.Now? ==> Fair(o.counts)
  {
    if ops == [] then Now(c)
    else
      match Replay(c, ops[..|ops| - 1])
      case Faulted => Faulted
      case Now(d) => if Faults(d, ops[|ops| - 1]) then Faulted else Now(Next(d, ops[|ops| - 1]))
  }

  lemma {:induction false} ReplayFaults(c: Counts, ops: seq<Op>, k: nat)
    requires Fair(c) && forall i :: 0 <= i < |ops| ==> Legal(ops[i])
    requires k <= |ops| && Replay(c, ops[..k]).Faulted?
    ensures Replay(c, ops).Faulted?
    decreases |ops|
  {
    if k < |ops| {
      assert ops[..|ops| - 1][..k] == ops[..k];
      ReplayFaults(c, ops[..|ops| - 1], k);
    } else {
      assert ops[..k] == ops;
    }
  }

  ghost function CountsOf(mp: Pool, mine: seq<Elem>): Counts
    reads mp
  {
    Counts(mp.freeCnt, mp.slotCnt, mp.wl, mp.syswl, |mine|)
  }

  // What the user keeps is what the pool books as held.
  ghost predicate Agree(mp: Pool, mine: seq<Elem>)
    reads mp, mp.freeNode
  {
    mp.Valid() && Distinct(mine) && mp.held == Elems(mine)
  }

  // Any run of calls by a user who keeps what he gets, puts back nodes of his own
  // and hands in NULL-filled arrays, while any allocation may fail and any level
  // may be set: up to the first faulting call, which the counters foretell, each
  // node is in one place and the reserve within its level and its slots.
  method Run(low: int, mid: int, high: int, poolOk: bool, slotsOk: bool, allocOk: seq<bool>, ops: seq<Op>)
    returns (ok: bool, mp: Pool?, mine: seq<Elem>, done: nat)
    requires Levels([low, mid, high]) && (slotsOk ==> 0 <= low) && (0 <= low ==> |allocOk| == low)
    requires forall i :: 0 <= i < |ops| ==> Legal(ops[i])
    ensures ok <==> poolOk && slotsOk && Misses(allocOk) == 0
    ensures ok ==> mp != null && var start := Counts(low, low, [low, mid, high], 0, 0);
      && done <= |ops| && (done == |ops| <==> Replay(start, ops).Now?)
      && (done == |ops| ==> Agree(mp, mine) && Replay(start, ops) == Now(CountsOf(mp, mine)))
      && (done < |ops| ==> Replay(start, ops[..done]).Now? && Replay(start, ops[..done + 1]).Faulted?)
  {
    hide Conserves, Faults, Next, Misses, Reach;
    ok, mp := CreateMp(low, mid, high, poolOk, slotsOk, allocOk);
    mine, done := [], 0;
    if !ok {
      return;
    }
    ghost var start := Counts(low, low, [low, mid, high], 0, 0);
    assert ops[..0] == [] && ops[..|ops|] == ops;
    while done < |ops|
      invariant done <= |ops| && Agree(mp, mine) && fresh(mp) && fresh(mp.freeNode)
      invariant Replay(start, ops[..done]) == Now(CountsOf(mp, mine))
    {
      assert ops[..done + 1][..done] == ops[..done];
      var fine;
      fine, mine := Step(mp, mine, ops[done]);
      if !fine {
        ReplayFaults(start, ops, done + 1);
        return;
      }
      done := done + 1;
    }
  }

  method Step(mp: Pool, mine: seq<Elem>, op: Op) returns (fine: bool, mine': seq<Elem>)
    requires Agree(mp, mine) && Legal(op)
    modifies mp, mp.freeNode
    ensures mp.freeNode == old(mp.freeNode) || fresh(mp.freeNode)
    ensures fine <==> !old(Faults(CountsOf(mp, mine), op))
    ensures fine ==> Agree(mp, mine') && CountsOf(mp, mine') == Next(old(CountsOf(mp, mine)), op)
  {
    hide Conserves, Reach, Misses;
    mine' := mine;
    mp.Sizes();
    match op
    case Get(allocOk, resizeOk) =>
      fine, mine' := GetSome(mp, mine, allocOk, resizeOk);
    case Put(nr, resizeOk) =>
      fine := true;
      if nr <= |mine| {
        fine, mine' := PutSome(mp, mine, nr, resizeOk);
      }
    case SetLevel(level, resizeOk) => fine := mp.UpdateSyswl(level, resizeOk);
    case SetMarks(high, mid, low, resizeOk) => fine := mp.UpdateMpwl(high, mid, low, resizeOk);
  }

  method GetSome(mp: Pool, mine: seq<Elem>, allocOk: seq<bool>, resizeOk: bool)
    returns (fine: bool, mine': seq<Elem>)
    requires Agree(mp, mine) && |allocOk| <= S32_MAX
    modifies mp, mp.freeNode
    ensures mp.freeNode == old(mp.freeNode) || fresh(mp.freeNode)
    ensures fine <==> !old(Faults(CountsOf(mp, mine), Get(allocOk, resizeOk)))
    ensures fine ==> Agree(mp, mine')
    ensures fine ==> CountsOf(mp, mine') == Next(old(CountsOf(mp, mine)), Get(allocOk, resizeOk))
  {
    hide Conserves, Reach, Misses, Levels;
    mine' := mine;
    var nr := |allocOk|;
    var nodes := new Elem?[nr](_ => null);
    var r, got, stale := mp.GetNodes(nodes, nr, allocOk, resizeOk);
    fine := !r.RollbackBeyondSlots?;
    if r.Got? {
      mine' := mine + seq(nr, i requires 0 <= i < nr && nodes[i] != null reads nodes => nodes[i]);
      assert mine' == mine + got;
      ElemsAppend(mine, got);
      DistinctJoin(mine, got);
    }
  }

  method PutSome(mp: Pool, mine: seq<Elem>, nr: nat, resizeOk: bool) returns (fine: bool, mine': seq<Elem>)
    requires Agree(mp, mine) && nr <= S32_MAX && nr <= |mine|
    modifies mp, mp.freeNode
    ensures mp.freeNode == old(mp.freeNode) || fresh(mp.freeNode)
    ensures fine <==> !old(Faults(CountsOf(mp, mine), Put(nr, resizeOk)))
    ensures fine ==> Agree(mp, mine')
    ensures fine ==> CountsOf(mp, mine') == Next(old(CountsOf(mp, mine)), Put(nr, resizeOk))
  {
    hide Conserves;
    var rest := |mine| - nr;
    var nodes := new Elem?[nr](i requires 0 <= i < nr => mine[rest + i]);
    mine' := mine[..rest];
    assert mine == mine' + mine[rest..];
    ElemsAppend(mine', mine[rest..]);
    DistinctJoin(mine', mine[rest..]);
    var r := mp.PutNodes(nodes, 0, nr, resizeOk, mine[rest..]);
    fine := r.Done?;
  }

  // ---- short runs that go wrong ----

  // The level is raised, and the resize that a put then needs fails.
  method BeyondSlotsWitness() returns (r: PutResult)
    ensures r == WroteBeyondSlots
  {
    hide Conserves, MayPut, Misses;
    OneHit();
    var ok, mp := CreateMp(1, 2, 2, true, true, [true]);
    var _ := mp.UpdateSyswl(1, true);
    var nodes := new Elem?[1](_ => null);
    var got, given, stale := mp.GetNodes(nodes, 1, [true], true);
    r := mp.PutNodes(nodes, 0, 1, false, given);
  }

  // The middle level is negative and comes into force.
  method NegativeLevelWitness() returns (ok: bool)
    ensures !ok
  {
    hide Conserves;
    OneHit();
    var made, mp := CreateMp(1, -1, 2, true, true, [true]);
    ok := mp.UpdateSyswl(1, true);
  }

  // The level is raised, and the resize of the next put succeeds.
  method OverreadWitness() returns (overread: bool)
    ensures overread
  {
    hide Conserves;
    OneHit();
    var made, mp := CreateMp(1, 2, 2, true, true, [true]);
    var _ := mp.UpdateSyswl(1, true);
    overread := mp.Resize(true, true);
  }

  // A get of two nodes fails after the first; the array held a node of another
  // origin behind it, and the pool releases that node as well.
  method StaleEntryWitness() returns (mp: Pool, x: Elem)
    ensures x !in mp.obtained && x in mp.freed && !mp.Conserved()
  {
    OneHit();
    TwoMisses();
    assert Levels([1, 1, 1]) && Min(2, 1) == 1;
    hide Conserves, Misses, Reach, Levels, Elems, MayPut, Leading, Distinct, Pool.Stacked, Min;
    var ok, made := CreateMp(1, 1, 1, true, true, [true]);
    mp := made;
    x := new Elem();
    NotHeld(x);
    var nodes := new Elem?[2](_ => null);
    nodes[1] := x;
    assert nodes[..2][1..] == [x];
    var r, got, stale := mp.GetNodes(nodes, 2, [false, false], true);
    assert (got + [x])[1..] == [x];
    NotAmong(got, x);
  }

  lemma NotAmong(got: seq<Elem>, x: Elem)
    requires |got| == 1 && got[0] != x
    ensures x !in Elems(got)
  {
  }

  lemma NotHeld(x: Elem)
    ensures Leading([x]) == [x] && !MayPut([x], {})
  {
    assert x in Elems([x]);
  }

  lemma OneHit()
    ensures Misses([true]) == 0
  {
    assert [true][..0] == [];
  }

  lemma TwoMisses()
    ensures Misses([false, false]) == 2 && Reach([false, false], 1) == 1
  {
    assert [false, false][..1] == [false] && [false][..0] == [];
    MissesNext([false], 0);
    MissesNext([false, false], 1);
  }
}

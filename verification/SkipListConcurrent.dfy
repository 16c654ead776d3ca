// A forward search running beside any number of inserts, made one after the
// other by one writer. Writer and reader take turns in any order, one
// shared-memory access at a time.

module SkipListConcurrent {
  import opened Seqs
  import opened SkipListOrder
  import opened SkipListShape
  import opened SkipLists

  // The list after all inserts: position 0 is the head, position p holds key
  // ks[p - 1], and |hs| stands for NULL. `order` lists the positions of the new
  // nodes in the order of their inserts.
  datatype Scene<!K> = Scene(cmp: (K, K) -> int, ks: seq<K>, hs: Heights, order: seq<nat>, key: K)

  ghost predicate Good<K(!new)>(sc: Scene<K>) {
    && TotalPreorder(sc.cmp) && Sorted(sc.cmp, sc.ks) && Fits(sc)
  }

  ghost predicate Fits<K>(sc: Scene<K>) {
    && |sc.hs| == |sc.ks| + 1 && sc.hs[0] == LEVEL_MAX && Distinct(sc.order)
    && (forall p :: 0 < p < |sc.hs| ==> 1 <= sc.hs[p] <= LEVEL_MAX)
    && (forall k :: 0 <= k < |sc.order| ==> 0 < sc.order[k] < |sc.hs|)
  }

  // The writer is about to raise `level` for the next insert, to fill the new
  // node's own link on level idx, or to make the predecessor on level idx point
  // to the new node.
  datatype Phase = Raise | Fill(idx: nat) | Publish(idx: nat)

  // `since` and `until` record how many inserts had published their bottom link
  // when the search started and at its last look.
  datatype Reader =
    | Idle
    | Looking(since: nat, base: nat, lvl: nat)
    | Found(since: nat, until: nat, node: nat)

  datatype State = State(links: seq<seq<int>>, level: nat, inserted: nat, phase: Phase, reader: Reader)

  function Published(phase: Phase): nat {
    match phase
    case Raise => 0
    case Fill(idx) => idx
    case Publish(idx) => idx
  }

  // How many inserts have their node in the bottom chain.
  function Bottoms(s: State): nat {
    s.inserted + if Published(s.phase) > 0 then 1 else 0
  }

  // How far each tower is linked in: all of it, the published levels of the
  // current insert, or nothing yet.
  ghost function LinkedIn<K>(sc: Scene<K>, inserted: nat, published: nat): (eh: Heights)
    requires inserted <= |sc.order|
    ensures |eh| == |sc.hs|
  {
    seq(|sc.hs|, p requires 0 <= p < |sc.hs| =>
      if p !in sc.order[inserted..] then sc.hs[p] else if p == sc.order[inserted] then published else 0)
  }

  ghost function Levels<K>(sc: Scene<K>, s: State): Heights
    requires s.inserted <= |sc.order|
  {
    LinkedIn(sc, s.inserted, Published(s.phase))
  }

  // Every link that is in the list goes to the next tower linked in that high.
  ghost predicate LinksAre(hs: Heights, links: seq<seq<int>>, eh: Heights) {
    && |links| == |hs| == |eh|
    && (forall p :: 0 <= p < |hs| ==> |links[p]| == hs[p] && eh[p] <= hs[p])
    && (forall p, i :: 0 <= p < |hs| && 0 <= i < eh[p] ==> links[p][i] == Succ(eh, p, i))
  }

  ghost predicate Init<K>(sc: Scene<K>, s: State) {
    && LinksAre(sc.hs, s.links, LinkedIn(sc, 0, 0)) && s.level <= LEVEL_MAX
    && s.inserted == 0 && s.phase == Raise && s.reader == Idle
  }

  // No step follows a null or dangling link.
  ghost predicate CanStep<K>(sc: Scene<K>, s: State) {
    && Fits(sc) && s.inserted <= |sc.order| && |s.links| == |sc.hs|
    && (forall p :: 0 <= p < |sc.hs| ==> |s.links[p]| == sc.hs[p])
    && (!s.phase.Raise? ==> s.inserted < |sc.order| && s.phase.idx < sc.hs[sc.order[s.inserted]])
    && (forall p :: 0 <= p < |sc.hs| ==> Levels(sc, s)[p] <= sc.hs[p])
    && Levels(sc, s)[0] == LEVEL_MAX
    && (s.reader.Looking? ==>
         && s.reader.base < |s.links| && s.reader.lvl < sc.hs[s.reader.base]
         && s.reader.base < s.links[s.reader.base][s.reader.lvl] <= |sc.hs|)
  }

  // The predecessor on each level is the one the search before the insert found.
  ghost function WriterStep<K>(sc: Scene<K>, s: State): State
    requires CanStep(sc, s)
  {
    if s.inserted == |sc.order| then s
    else
      var pos := sc.order[s.inserted];
      match s.phase
      case Raise => s.(level := if sc.hs[pos] > s.level then sc.hs[pos] else s.level, phase := Fill(0))
      case Fill(idx) =>
        var prev := Pred(Levels(sc, s), pos, idx);
        s.(links := s.links[pos := s.links[pos][idx := s.links[prev][idx]]], phase := Publish(idx))
      case Publish(idx) =>
        var prev := Pred(Levels(sc, s), pos, idx);
        var links := s.links[prev := s.links[prev][idx := pos]];
        if idx + 1 < sc.hs[pos] then s.(links := links, phase := Fill(idx + 1))
        else s.(links := links, phase := Raise, inserted := s.inserted + 1)
  }

  ghost function ReaderStep<K>(sc: Scene<K>, s: State): State
    requires CanStep(sc, s)
  {
    match s.reader
    case Idle => s.(reader := Looking(Bottoms(s), 0, if s.level == 0 then 0 else s.level - 1))
    case Looking(since, base, lvl) =>
      var node := s.links[base][lvl];
      if node < |sc.hs| && sc.cmp(sc.key, sc.ks[node - 1]) > 0 then s.(reader := Looking(since, node, lvl))
      else if lvl == 0 then s.(reader := Found(since, Bottoms(s), node))
      else s.(reader := Looking(since, base, lvl - 1))
    case Found(_, _, _) => s
  }

  // ---- the right answers ----

  // A scan, from position q on, of the list after m inserts.
  function Scan<K>(sc: Scene<K>, m: nat, q: nat): (node: nat)
    requires m <= |sc.order| && |sc.hs| == |sc.ks| + 1 && 0 < q <= |sc.hs|
    ensures q <= node <= |sc.hs|
    decreases |sc.hs| - q
  {
    if q == |sc.hs| || (q !in sc.order[m..] && sc.cmp(sc.key, sc.ks[q - 1]) <= 0) then q else Scan(sc, m, q + 1)
  }

  function Answer<K>(sc: Scene<K>, m: nat): nat
    requires m <= |sc.order| && |sc.hs| == |sc.ks| + 1
  {
    Scan(sc, m, 1)
  }

  // The keys of that list, and how many of them stand before a position.
  function KeysFrom<K>(sc: Scene<K>, m: nat, q: nat): seq<K>
    requires m <= |sc.order| && |sc.hs| == |sc.ks| + 1 && 0 < q <= |sc.hs|
    decreases |sc.hs| - q
  {
    if q == |sc.hs| then []
    else (if q !in sc.order[m..] then [sc.ks[q - 1]] else []) + KeysFrom(sc, m, q + 1)
  }

  function Rank<K>(sc: Scene<K>, m: nat, q: nat, node: nat): nat
    requires m <= |sc.order|
    decreases node - q
  {
    if q >= node then 0 else (if q !in sc.order[m..] then 1 else 0) + Rank(sc, m, q + 1, node)
  }

  // The scan finds what the sequential list is specified to find.
  lemma {:induction false} ScanIsFirstGE<K>(sc: Scene<K>, m: nat, q: nat)
    requires m <= |sc.order| && |sc.hs| == |sc.ks| + 1 && 0 < q <= |sc.hs|
    ensures FirstGE(sc.cmp, KeysFrom(sc, m, q), sc.key) == Rank(sc, m, q, Scan(sc, m, q))
    decreases |sc.hs| - q
  {
    if q < |sc.hs| {
      ScanIsFirstGE(sc, m, q + 1);
      if q !in sc.order[m..] {
        assert KeysFrom(sc, m, q)[0] == sc.ks[q - 1] && KeysFrom(sc, m, q)[1..] == KeysFrom(sc, m, q + 1);
      } else {
        assert KeysFrom(sc, m, q) == KeysFrom(sc, m, q + 1);
      }
    }
  }

  lemma {:induction false} ScanIs<K>(sc: Scene<K>, m: nat, q: nat, node: nat)
    requires m <= |sc.order| && |sc.hs| == |sc.ks| + 1 && 0 < q <= node <= |sc.hs|
    requires forall r :: q <= r < node && r !in sc.order[m..] ==> sc.cmp(sc.key, sc.ks[r - 1]) > 0
    requires node < |sc.hs| ==> node !in sc.order[m..] && sc.cmp(sc.key, sc.ks[node - 1]) <= 0
    ensures Scan(sc, m, q) == node
    decreases node - q
  {
    if q < node {
      ScanIs(sc, m, q + 1, node);
    }
  }

  // ---- the invariant ----

  ghost predicate Inv<K(!new)>(sc: Scene<K>, s: State)
    requires Good(sc)
  {
    && s.level <= LEVEL_MAX && s.inserted <= |sc.order|
    && (!s.phase.Raise? ==> s.inserted < |sc.order| && s.phase.idx < sc.hs[sc.order[s.inserted]])
    && LinksAre(sc.hs, s.links, Levels(sc, s))
    && (s.phase.Publish? ==>
         var pos := sc.order[s.inserted]; s.links[pos][s.phase.idx] == Succ(Levels(sc, s), pos, s.phase.idx))
    && match s.reader
       case Idle => true
       case Looking(since, base, lvl) =>
         && base < |sc.hs| && lvl < Levels(sc, s)[base] && since <= Bottoms(s)
         && (base > 0 ==> sc.cmp(sc.key, sc.ks[base - 1]) > 0)
       case Found(since, until, node) => since <= until <= Bottoms(s) && node == Answer(sc, until)
  }

  lemma BottomsFit<K(!new)>(sc: Scene<K>, s: State)
    requires Good(sc) && Inv(sc, s)
    ensures Bottoms(s) <= |sc.order|
  {
  }

  lemma InOrder<K>(sc: Scene<K>, n: nat, p: nat)
    requires n < |sc.order| && Distinct(sc.order)
    ensures p in sc.order[n..] <==> p == sc.order[n] || p in sc.order[n + 1..]
    ensures sc.order[n] !in sc.order[n + 1..]
  {
    assert sc.order[n..] == [sc.order[n]] + sc.order[n + 1..];
  }

  // Publishing a level raises one tower; the last level ends the insert.
  lemma LinkedInGrows<K>(sc: Scene<K>, n: nat, idx: nat)
    requires Fits(sc) && n < |sc.order| && idx < sc.hs[sc.order[n]]
    ensures var pos, eh := sc.order[n], LinkedIn(sc, n, idx);
      && eh[pos] == idx && eh[0] == LEVEL_MAX
      && LinkedIn(sc, n, idx + 1) == eh[pos := idx + 1]
      && (idx + 1 == sc.hs[pos] ==> LinkedIn(sc, n + 1, 0) == eh[pos := idx + 1])
  {
    forall p | 0 <= p < |sc.hs| ensures p in sc.order[n..] <==> p == sc.order[n] || p in sc.order[n + 1..] {
      InOrder(sc, n, p);
    }
    InOrder(sc, n, 0);
  }

  lemma LinkedInBounds<K>(sc: Scene<K>, n: nat, published: nat)
    requires Fits(sc) && n <= |sc.order| && (n < |sc.order| ==> published <= sc.hs[sc.order[n]])
    ensures var eh := LinkedIn(sc, n, published);
      eh[0] == LEVEL_MAX && forall p :: 0 <= p < |eh| ==> eh[p] <= sc.hs[p] <= LEVEL_MAX
  {
  }

  // A position is in the bottom chain exactly when its insert published there.
  lemma BottomChain<K>(sc: Scene<K>, s: State, r: nat)
    requires Fits(sc) && s.inserted <= |sc.order| && r < |sc.hs|
    requires !s.phase.Raise? ==> s.inserted < |sc.order|
    ensures Bottoms(s) <= |sc.order| && (r !in sc.order[Bottoms(s)..] <==> Levels(sc, s)[r] > 0)
  {
    if s.inserted < |sc.order| { InOrder(sc, s.inserted, r); }
  }

  lemma SuccIs(hs: Heights, p: nat, i: int, q: nat)
    requires p < q <= |hs| && (forall r :: p < r < q ==> hs[r] <= i) && (q < |hs| ==> hs[q] > i)
    ensures Succ(hs, p, i) == q
  {
  }

  // Raising one tower by a level redirects one link.
  lemma RaisedSucc(eh: Heights, pos: nat, p: nat, i: nat)
    requires 0 < pos < |eh| && p < |eh| && eh[pos] >= 0 && eh[0] > eh[pos]
    requires i < if p == pos then eh[p] + 1 else eh[p]
    ensures var idx := eh[pos];
      Succ(eh[pos := idx + 1], p, i) == if i == idx && p == Pred(eh, pos, idx) then pos else Succ(eh, p, i)
  {
    var idx, s := eh[pos], Succ(eh, p, i);
    var high := eh[pos := idx + 1];
    assert p < pos && i == idx ==> (pos < s <==> p == Pred(eh, pos, idx)) by {
      if p < pos && i == idx && p != Pred(eh, pos, idx) { assert p < Pred(eh, pos, idx); }
    }
    SuccIs(high, p, i, if i == idx && p < pos < s then pos else s);
  }

  // Filling copies the predecessor's link; the list is unchanged.
  lemma FillLink(hs: Heights, links: seq<seq<int>>, eh: Heights, pos: nat, idx: nat)
    requires LinksAre(hs, links, eh) && 0 < pos < |hs| && eh[pos] == idx < hs[pos] && eh[0] > idx
    ensures var prev := Pred(eh, pos, idx);
      var filled := links[pos := links[pos][idx := links[prev][idx]]];
      LinksAre(hs, filled, eh) && filled[pos][idx] == Succ(eh, pos, idx)
  {
    SuccOfPred(eh, pos, idx);
    assert Succ(eh, pos - 1, idx) == Succ(eh, pos, idx);
    hide Succ, Pred;
  }

  lemma PublishLink(hs: Heights, links: seq<seq<int>>, eh: Heights, pos: nat, idx: nat)
    requires LinksAre(hs, links, eh) && 0 < pos < |hs| && eh[pos] == idx < hs[pos] && eh[0] > idx
    requires links[pos][idx] == Succ(eh, pos, idx)
    ensures var prev := Pred(eh, pos, idx);
      LinksAre(hs, links[prev := links[prev][idx := pos]], eh[pos := idx + 1])
  {
    hide Succ, Pred;
    var prev, high := Pred(eh, pos, idx), eh[pos := idx + 1];
    var out := links[prev := links[prev][idx := pos]];
    forall p, i | 0 <= p < |hs| && 0 <= i < high[p] ensures out[p][i] == Succ(high, p, i) {
      RaisedSucc(eh, pos, p, i);
    }
  }

  lemma InvCanStep<K(!new)>(sc: Scene<K>, s: State)
    requires Good(sc) && Inv(sc, s)
    ensures CanStep(sc, s)
  {
    hide Sorted, TotalPreorder, Answer, LinkedIn;
    LinkedInBounds(sc, s.inserted, Published(s.phase));
  }

  // Each access of the writer keeps the links exact, and inserts only add up.
  lemma WriterKeepsInv<K(!new)>(sc: Scene<K>, s: State)
    requires Good(sc) && Inv(sc, s) && CanStep(sc, s)
    ensures Inv(sc, WriterStep(sc, s))
    ensures Bottoms(s) <= Bottoms(WriterStep(sc, s))
  {
    hide Succ, Pred, LinksAre, Sorted, TotalPreorder, Answer, LinkedIn;
    if s.inserted < |sc.order| {
      var pos, eh := sc.order[s.inserted], Levels(sc, s);
      LinkedInGrows(sc, s.inserted, Published(s.phase));
      match s.phase
      case Fill(idx) => FillLink(sc.hs, s.links, eh, pos, idx);
      case Publish(idx) => PublishLink(sc.hs, s.links, eh, pos, idx);
      case Raise =>
    }
  }

  // The last look gives the answer for the bottom chain as it is right then.
  lemma BottomLook<K(!new)>(sc: Scene<K>, s: State)
    requires Good(sc) && Inv(sc, s) && s.reader.Looking? && s.reader.lvl == 0 && CanStep(sc, s)
    requires var node := s.links[s.reader.base][0]; node < |sc.hs| ==> sc.cmp(sc.key, sc.ks[node - 1]) <= 0
    ensures Bottoms(s) <= |sc.order| && s.links[s.reader.base][0] == Answer(sc, Bottoms(s))
  {
    var base, eh := s.reader.base, Levels(sc, s);
    var node := s.links[base][0];
    assert node == Succ(eh, base, 0);
    hide Levels, Inv, CanStep, TotalPreorder, Sorted, Bottoms;
    BottomChain(sc, s, 0);
    forall r | 1 <= r < node && r !in sc.order[Bottoms(s)..] ensures sc.cmp(sc.key, sc.ks[r - 1]) > 0 {
      BottomChain(sc, s, r);
      if r < base { BelowSmaller(sc, r, base); }
    }
    if node < |sc.hs| { BottomChain(sc, s, node); }
    ScanIs(sc, Bottoms(s), 1, node);
  }

  lemma BelowSmaller<K(!new)>(sc: Scene<K>, r: nat, base: nat)
    requires Good(sc) && 0 < r < base < |sc.hs| && sc.cmp(sc.key, sc.ks[base - 1]) > 0
    ensures sc.cmp(sc.key, sc.ks[r - 1]) > 0
  {
    assert Chains(sc.cmp, sc.key, sc.ks[r - 1], sc.ks[base - 1]);
  }

  // A link the search may follow leads to a tower linked in that high.
  lemma LookAhead<K(!new)>(sc: Scene<K>, s: State)
    requires Good(sc) && Inv(sc, s) && s.reader.Looking? && CanStep(sc, s)
    ensures var node := s.links[s.reader.base][s.reader.lvl];
      node < |sc.hs| ==> Levels(sc, s)[node] > s.reader.lvl
  {
    hide Sorted, TotalPreorder, Answer, LinkedIn;
  }

  lemma ReaderKeepsInv<K(!new)>(sc: Scene<K>, s: State)
    requires Good(sc) && Inv(sc, s) && CanStep(sc, s)
    ensures Inv(sc, ReaderStep(sc, s))
  {
    hide LinksAre, Sorted, TotalPreorder, Answer, LinkedIn, Succ;
    BottomsFit(sc, s);
    if s.reader.Looking? {
      LookAhead(sc, s);
      var node := s.links[s.reader.base][s.reader.lvl];
      if s.reader.lvl == 0 && !(node < |sc.hs| && sc.cmp(sc.key, sc.ks[node - 1]) > 0) {
        BottomLook(sc, s);
      }
    }
  }

  // Levels and nodes still ahead of the search.
  function Remaining<K>(sc: Scene<K>, r: Reader): int {
    match r
    case Idle => (LEVEL_MAX + 1) * (|sc.hs| + 1) + 1
    case Looking(_, base, lvl) => (lvl + 1) * (|sc.hs| + 1) - base
    case Found(_, _, _) => 0
  }

  // Every look comes closer to the end of the search.
  lemma ReaderProgress<K(!new)>(sc: Scene<K>, s: State)
    requires CanStep(sc, s) && s.level <= LEVEL_MAX
    ensures !s.reader.Found? ==> Remaining(sc, ReaderStep(sc, s).reader) < Remaining(sc, s.reader)
  {
    var w := |sc.hs| + 1;
    if s.reader.Looking? {
      assert (s.reader.lvl + 1) * w == s.reader.lvl * w + w;
    } else if s.reader.Idle? {
      var lvl := if s.level == 0 then 0 else s.level - 1;
      assert (LEVEL_MAX - lvl) * w >= 0;
      assert (LEVEL_MAX + 1) * w == (lvl + 1) * w + (LEVEL_MAX - lvl) * w;
    }
  }

  // ---- whole runs ----

  datatype Turn = WriterTurn | ReaderTurn

  ghost function Step<K>(sc: Scene<K>, s: State, t: Turn): State {
    if !CanStep(sc, s) then s else if t.WriterTurn? then WriterStep(sc, s) else ReaderStep(sc, s)
  }

  ghost function Run<K>(sc: Scene<K>, s: State, turns: seq<Turn>): State {
    if turns == [] then s else Step(sc, Run(sc, s, turns[..|turns| - 1]), turns[|turns| - 1])
  }

  // No schedule leads to a null or dangling link.
  lemma {:induction false} RunKeepsInv<K(!new)>(sc: Scene<K>, s: State, turns: seq<Turn>)
    requires Good(sc) && Init(sc, s)
    ensures Inv(sc, Run(sc, s, turns)) && CanStep(sc, Run(sc, s, turns))
  {
    hide LinksAre, Answer, LinkedIn;
    if turns != [] {
      var m := Run(sc, s, turns[..|turns| - 1]);
      RunKeepsInv(sc, s, turns[..|turns| - 1]);
      WriterKeepsInv(sc, m);
      ReaderKeepsInv(sc, m);
    }
    InvCanStep(sc, Run(sc, s, turns));
  }

  // The search begins, or makes its last look, with the k-th turn, when n inserts
  // are in the bottom chain.
  ghost predicate Begins<K>(sc: Scene<K>, s: State, turns: seq<Turn>, k: nat, n: nat) {
    && k < |turns| && turns[k].ReaderTurn?
    && var at := Run(sc, s, turns[..k]);
       at.reader.Idle? && Step(sc, at, ReaderTurn).reader.Looking? && Bottoms(at) == n
  }

  ghost predicate Ends<K>(sc: Scene<K>, s: State, turns: seq<Turn>, k: nat, n: nat) {
    && k < |turns| && turns[k].ReaderTurn?
    && var at := Run(sc, s, turns[..k]);
       at.reader.Looking? && Step(sc, at, ReaderTurn).reader.Found? && Bottoms(at) == n
  }

  // The moments of a run are moments of every longer one.
  lemma MomentsStay<K>(sc: Scene<K>, s: State, front: seq<Turn>, turns: seq<Turn>)
    requires front <= turns
    ensures forall k, n :: Begins(sc, s, front, k, n) ==> Begins(sc, s, turns, k, n)
    ensures forall k, n :: Ends(sc, s, front, k, n) ==> Ends(sc, s, turns, k, n)
  {
    hide Run, Step, Bottoms;
    assert forall k :: 0 <= k < |front| ==> front[..k] == turns[..k] && front[k] == turns[k];
  }

  // What the reader records are moments of its own run.
  lemma {:induction false} Window<K(!new)>(sc: Scene<K>, s: State, turns: seq<Turn>)
    requires Good(sc) && Init(sc, s)
    ensures var e := Run(sc, s, turns);
      && (!e.reader.Idle? ==> exists k :: Begins(sc, s, turns, k, e.reader.since))
      && (e.reader.Found? ==> exists k :: Ends(sc, s, turns, k, e.reader.until))
  {
    hide CanStep, LinksAre, Answer, LinkedIn, Pred, Levels;
    if turns != [] {
      var front, last := turns[..|turns| - 1], |turns| - 1;
      Window(sc, s, front);
      MomentsStay(sc, s, front, turns);
      var m, e := Run(sc, s, front), Run(sc, s, turns);
      if !e.reader.Idle? && m.reader.Idle? { assert Begins(sc, s, turns, last, e.reader.since); }
      if e.reader.Found? && m.reader.Looking? { assert Ends(sc, s, turns, last, e.reader.until); }
    }
  }

  // Whatever the schedule: a finished search has the right answer for the list
  // as it was at its last look, after a number of inserts that lies between those
  // published when it began and those published by now. The answer is the one the
  // sequential list is specified to give.
  lemma SearchIsLinearizable<K(!new)>(sc: Scene<K>, s: State, turns: seq<Turn>)
    requires Good(sc) && Init(sc, s)
    ensures var e := Run(sc, s, turns);
      e.reader.Found? ==>
        var m := e.reader.until;
        && e.reader.since <= m <= Bottoms(e) <= |sc.order|
        && e.reader.node == Answer(sc, m)
        && Rank(sc, m, 1, e.reader.node) == FirstGE(sc.cmp, KeysFrom(sc, m, 1), sc.key)
        && (exists k :: Begins(sc, s, turns, k, e.reader.since))
        && (exists k :: Ends(sc, s, turns, k, m))
  {
    hide CanStep, LinksAre, Scan, KeysFrom, Rank, Begins, Ends, TotalPreorder, Sorted, FirstGE, Run;
    var e := Run(sc, s, turns);
    RunKeepsInv(sc, s, turns);
    BottomsFit(sc, e);
    Window(sc, s, turns);
    if e.reader.Found? {
      ScanIsFirstGE(sc, e.reader.until, 1);
    }
  }

  function Turns(turns: seq<Turn>, t: Turn): nat {
    if turns == [] then 0 else (if turns[|turns| - 1] == t then 1 else 0) + Turns(turns[..|turns| - 1], t)
  }

  // The search ends after a bounded number of its own steps, however the writer
  // is scheduled.
  lemma {:induction false} SearchIsWaitFree<K(!new)>(sc: Scene<K>, s: State, turns: seq<Turn>)
    requires Good(sc) && Init(sc, s)
    ensures var r := Run(sc, s, turns).reader;
      r.Found? || Remaining(sc, r) + Turns(turns, ReaderTurn) <= Remaining(sc, Idle)
  {
    hide Remaining, Good, LinksAre, CanStep, Levels, Pred;
    if turns != [] {
      var front, t := turns[..|turns| - 1], turns[|turns| - 1];
      SearchIsWaitFree(sc, s, front);
      var m := Run(sc, s, front);
      RunKeepsInv(sc, s, front);
      ReaderProgress(sc, m);
    }
  }

  // ---- the inserts happen ----

  // One turn to raise the level and two for each level of a tower.
  ghost function TurnsFrom<K>(sc: Scene<K>, n: nat): nat
    requires Fits(sc) && n <= |sc.order|
    decreases |sc.order| - n
  {
    if n == |sc.order| then 0 else 1 + 2 * sc.hs[sc.order[n]] + TurnsFrom(sc, n + 1)
  }

  // The turns the writer still needs.
  ghost function TurnsLeft<K>(sc: Scene<K>, s: State): int
    requires Fits(sc) && s.inserted <= |sc.order|
  {
    if s.inserted == |sc.order| then 0
    else
      var height := sc.hs[sc.order[s.inserted]];
      TurnsFrom(sc, s.inserted + 1) +
      match s.phase
      case Raise => 1 + 2 * height
      case Fill(idx) => 2 * (height - idx)
      case Publish(idx) => 2 * (height - idx) - 1
  }

  // Every turn of the writer is one fewer to go, until none is left.
  lemma WriterProgress<K>(sc: Scene<K>, s: State)
    requires CanStep(sc, s)
    ensures var next := WriterStep(sc, s);
      next.inserted <= |sc.order| && TurnsLeft(sc, next) == if TurnsLeft(sc, s) == 0 then 0 else TurnsLeft(sc, s) - 1
    ensures TurnsLeft(sc, s) >= 0 && (TurnsLeft(sc, s) == 0 <==> s.inserted == |sc.order|)
  {
    hide Pred, Levels;
  }

  lemma {:induction false} TurnsLeftRun<K(!new)>(sc: Scene<K>, s: State, turns: seq<Turn>)
    requires Good(sc) && Init(sc, s)
    ensures var e, spent := Run(sc, s, turns), Turns(turns, WriterTurn);
      && e.inserted <= |sc.order|
      && TurnsLeft(sc, e) == (if spent <= TurnsFrom(sc, 0) then TurnsFrom(sc, 0) - spent else 0)
      && (e.inserted == |sc.order| <==> spent >= TurnsFrom(sc, 0))
  {
    hide Good, LinksAre, CanStep, WriterStep, ReaderStep, Levels, Inv;
    RunKeepsInv(sc, s, turns);
    CanStepFits(sc, Run(sc, s, turns));
    if turns == [] {
      hide TurnsFrom;
      FirstTurns(sc, s);
    } else {
      hide TurnsFrom, TurnsLeft, Init;
      var front := turns[..|turns| - 1];
      var m := Run(sc, s, front);
      TurnsLeftRun(sc, s, front);
      RunKeepsInv(sc, s, front);
      WriterProgress(sc, m);
      ReaderWritesNothing(sc, m);
    }
    WriterProgress(sc, Run(sc, s, turns));
  }

  lemma CanStepFits<K>(sc: Scene<K>, s: State)
    requires CanStep(sc, s)
    ensures Fits(sc) && s.inserted <= |sc.order|
  {
  }

  lemma FirstTurns<K(!new)>(sc: Scene<K>, s: State)
    requires Good(sc) && Init(sc, s)
    ensures s.inserted == 0 && TurnsLeft(sc, s) == TurnsFrom(sc, 0)
  {
    hide LinksAre;
  }

  lemma ReaderWritesNothing<K>(sc: Scene<K>, s: State)
    requires CanStep(sc, s)
    ensures var next := ReaderStep(sc, s);
      next.links == s.links && next.level == s.level && next.inserted == s.inserted && next.phase == s.phase
    ensures TurnsLeft(sc, ReaderStep(sc, s)) == TurnsLeft(sc, s)
  {
    hide Levels, TurnsFrom;
  }

  // The level after n inserts.
  ghost function LevelAfter<K>(sc: Scene<K>, level: nat, n: nat): nat
    requires Fits(sc) && n <= |sc.order|
  {
    if n == 0 then level
    else
      var before, height := LevelAfter(sc, level, n - 1), sc.hs[sc.order[n - 1]];
      if height > before then height else before
  }

  // The insert that is under way has raised the level already.
  ghost predicate LevelIs<K>(sc: Scene<K>, s: State, level: nat)
    requires Fits(sc)
  {
    var n := s.inserted + if s.phase.Raise? then 0 else 1;
    n <= |sc.order| && s.level == LevelAfter(sc, level, n)
  }

  lemma LevelStep<K>(sc: Scene<K>, s: State, level: nat)
    requires CanStep(sc, s) && LevelIs(sc, s, level)
    ensures LevelIs(sc, WriterStep(sc, s), level) && LevelIs(sc, ReaderStep(sc, s), level)
  {
    hide Levels, Pred;
  }

  lemma {:induction false} LevelRun<K(!new)>(sc: Scene<K>, s: State, turns: seq<Turn>)
    requires Good(sc) && Init(sc, s)
    ensures LevelIs(sc, Run(sc, s, turns), s.level)
  {
    hide LinksAre, Levels, CanStep, WriterStep, ReaderStep, Inv;
    if turns == [] {
      assert LevelAfter(sc, s.level, 0) == s.level;
    } else {
      hide LevelIs;
      var front := turns[..|turns| - 1];
      LevelRun(sc, s, front);
      RunKeepsInv(sc, s, front);
      LevelStep(sc, Run(sc, s, front), s.level);
    }
  }

  // Once the writer has had its turns all towers are linked in to their height,
  // and the level is the greatest of all; before that they are not all.
  lemma AllInserted<K(!new)>(sc: Scene<K>, s: State, turns: seq<Turn>)
    requires Good(sc) && Init(sc, s)
    ensures var e := Run(sc, s, turns);
      && (e.inserted == |sc.order| <==> Turns(turns, WriterTurn) >= TurnsFrom(sc, 0))
      && (e.inserted == |sc.order| ==>
           LinksAre(sc.hs, e.links, sc.hs) && e.level == LevelAfter(sc, s.level, |sc.order|))
  {
    hide LinksAre, TurnsFrom, Run, CanStep;
    TurnsLeftRun(sc, s, turns);
    LevelRun(sc, s, turns);
    RunKeepsInv(sc, s, turns);
    AllLinked(sc);
  }

  lemma AllLinked<K>(sc: Scene<K>)
    ensures LinkedIn(sc, |sc.order|, 0) == sc.hs
  {
  }

  // A search that begins after that finds what the complete list holds.
  lemma {:induction false} LateSearch<K(!new)>(sc: Scene<K>, s: State, front: seq<Turn>, rest: seq<Turn>)
    requires Good(sc) && Init(sc, s)
    requires Turns(front, WriterTurn) >= TurnsFrom(sc, 0) && Run(sc, s, front).reader.Idle?
    ensures var e := Run(sc, s, front + rest);
      && Turns(front + rest, WriterTurn) >= TurnsFrom(sc, 0)
      && (!e.reader.Idle? ==> e.reader.since == |sc.order|)
      && (e.reader.Found? ==> e.reader.node == Answer(sc, |sc.order|))
  {
    hide LinksAre, TurnsFrom, CanStep, WriterStep, Levels, Answer;
    if rest == [] {
      assert front + rest == front;
    } else {
      var before, last := front + rest[..|rest| - 1], rest[|rest| - 1];
      assert (front + rest)[..|front + rest| - 1] == before;
      LateSearch(sc, s, front, rest[..|rest| - 1]);
      AllInserted(sc, s, before);
      RunKeepsInv(sc, s, before);
      WriterReadsNothing(sc, Run(sc, s, before));
    }
    RunKeepsInv(sc, s, front + rest);
    BottomsFit(sc, Run(sc, s, front + rest));
  }

  lemma WriterReadsNothing<K>(sc: Scene<K>, s: State)
    requires CanStep(sc, s)
    ensures WriterStep(sc, s).reader == s.reader
  {
    hide Levels, Pred;
  }
}

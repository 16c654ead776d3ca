// Towers over one bottom chain. A chain is described by the heights of its
// towers, position 0 being the head; the level-i successor of a position is
// the next position whose tower is higher than i.

module SkipListShape {

  type Heights = seq<int>

  function Succ(hs: Heights, p: nat, i: int): (q: nat)
    requires p < |hs|
    ensures p < q <= |hs|
    ensures forall r :: p < r < q ==> hs[r] <= i
    ensures q < |hs| ==> hs[q] > i
    decreases |hs| - p
  {
    if p + 1 == |hs| || hs[p + 1] > i then p + 1 else Succ(hs, p + 1, i)
  }

  // The last position before `pos` whose tower reaches level i.
  function Pred(hs: Heights, pos: nat, i: int): (p: nat)
    requires 0 < pos <= |hs| && hs[0] > i
    ensures p < pos && hs[p] > i
    ensures forall r :: p < r < pos ==> hs[r] <= i
  {
    if hs[pos - 1] > i then pos - 1 else Pred(hs, pos - 1, i)
  }

  // Nothing between the level-i predecessor of `pos` and `pos` reaches level i.
  lemma SuccOfPred(hs: Heights, pos: nat, i: int)
    requires 0 < pos <= |hs| && hs[0] > i
    ensures Succ(hs, Pred(hs, pos, i), i) == Succ(hs, pos - 1, i)
  {
    var s := Succ(hs, Pred(hs, pos, i), i);
    var t := Succ(hs, pos - 1, i);
    assert s < |hs| ==> s >= pos;
  }

  function With(hs: Heights, pos: nat, h: int): Heights
    requires pos <= |hs|
  {
    hs[..pos] + [h] + hs[pos..]
  }

  // Successors after a tower of height h goes in at `pos`.
  lemma SuccWith(hs: Heights, pos: nat, h: int, p: nat, i: int)
    requires 0 < pos <= |hs| && p <= |hs|
    ensures Succ(With(hs, pos, h), p, i) ==
            if p < pos then
              var s := Succ(hs, p, i); if s < pos then s else if h > i then pos else s + 1
            else Succ(hs, p - 1, i) + 1
  {
    var hs' := With(hs, pos, h);
    var s' := Succ(hs', p, i);
    assert forall r :: 0 <= r <= |hs| ==> hs'[r] == if r < pos then hs[r] else if r == pos then h else hs[r - 1];
    var s := if p < pos then Succ(hs, p, i) else Succ(hs, p - 1, i);
    if p < pos {
      assert s < |hs| ==> hs'[if s < pos then s else s + 1] > i;
      if s < s' && s >= pos && s' != pos { assert s' > pos ==> hs'[pos] <= i; }
    } else {
      assert s < |hs| ==> hs'[s + 1] > i;
    }
    if s' < |hs'| { assert hs'[s'] > i; }
  }
}

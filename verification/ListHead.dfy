// The intrusive circular list of include/ds/list.h.

module ListHead {
  import opened Seqs

  class Link {
    var next: Link?
    var prev: Link?

    // LIST_HEAD_INIT
    constructor ()
      ensures Ring(this, [])
    {
      next, prev := this, this;
      new;
      assert LinkedAt(this, [], 0);
    }
  }

  // The i-th node on the way round: the head, the entries, the head again.
  ghost function Nth(head: Link, s: seq<Link>, i: nat): Link
    requires i <= |s| + 1
  {
    if i == 0 || i == |s| + 1 then head else s[i - 1]
  }

  ghost predicate LinkedAt(head: Link, s: seq<Link>, i: nat)
    requires i <= |s|
    reads head, s
  {
    Nth(head, s, i).next == Nth(head, s, i + 1) && Nth(head, s, i + 1).prev == Nth(head, s, i)
  }

  // `head` and the entries `s` form one ring, linked both ways.
  ghost predicate Ring(head: Link, s: seq<Link>)
    reads head, s
  {
    Distinct(s) && head !in s && forall i :: 0 <= i <= |s| ==> LinkedAt(head, s, i)
  }

  // Two rings without a common node.
  ghost predicate Apart(h1: Link, s1: seq<Link>, h2: Link, s2: seq<Link>) {
    && h1 != h2 && h1 !in s2 && h2 !in s1
    && forall i, j :: 0 <= i < |s1| && 0 <= j < |s2| ==> s1[i] != s2[j]
  }

  // INIT_LIST_HEAD
  method InitListHead(head: Link)
    modifies head
    ensures Ring(head, [])
  {
    head.next, head.prev := head, head;
    assert LinkedAt(head, [], 0);
  }

  // __list_add between two neighbours, here `at` and the node after it.
  method ListAdd(n: Link, at: Link, ghost head: Link, ghost s: seq<Link>, ghost k: nat)
    requires Ring(head, s) && k <= |s| && at == Nth(head, s, k) && n != head && n !in s
    modifies n, at`next, Nth(head, s, k + 1)`prev
    ensures Ring(head, s[..k] + [n] + s[k..])
  {
    assert LinkedAt(head, s, k);
    AddBetween(n, at, at.next);
    ghost var t := s[..k] + [n] + s[k..];
    forall i | 0 <= i <= |t| ensures LinkedAt(head, t, i) {
      var j := if i <= k then i else i - 1;
      assert old(LinkedAt(head, s, j));
    }
  }

  method AddBetween(n: Link, prev: Link, next: Link)
    requires n != prev && n != next
    modifies n, prev`next, next`prev
    ensures next.prev == n && prev.next == n && n.next == next && n.prev == prev
  {
    next.prev := n;
    n.next := next;
    n.prev := prev;
    prev.next := n;
  }

  // __list_del
  method JoinNeighbours(prev: Link, next: Link)
    modifies prev`next, next`prev
    ensures next.prev == prev && prev.next == next
  {
    next.prev := prev;
    prev.next := next;
  }

  // __list_del_entry: the entry's own links are left as they were.
  method ListDelEntry(entry: Link, ghost head: Link, ghost s: seq<Link>, ghost k: nat)
    requires Ring(head, s) && k < |s| && entry == s[k]
    modifies Nth(head, s, k)`next, Nth(head, s, k + 2)`prev
    ensures Ring(head, Without(s, k))
  {
    assert LinkedAt(head, s, k) && LinkedAt(head, s, k + 1);
    JoinNeighbours(entry.prev, entry.next);
    ghost var t := Without(s, k);
    forall i | 0 <= i <= |t| ensures LinkedAt(head, t, i) {
      assert old(LinkedAt(head, s, if i <= k then i else i + 1));
    }
  }

  // list_add_tail: the new entry goes before `at`.
  method ListAddTail(n: Link, at: Link, ghost head: Link, ghost s: seq<Link>, ghost k: nat)
    requires Ring(head, s) && 0 < k <= |s| + 1 && at == Nth(head, s, k) && n != head && n !in s
    modifies n, at`prev, Nth(head, s, k - 1)`next
    ensures Ring(head, s[..k - 1] + [n] + s[k - 1..])
  {
    assert LinkedAt(head, s, k - 1);
    AddBetween(n, at.prev, at);
    ghost var t := s[..k - 1] + [n] + s[k - 1..];
    forall i | 0 <= i <= |t| ensures LinkedAt(head, t, i) {
      assert old(LinkedAt(head, s, if i < k then i else i - 1));
    }
  }

  method ListDel(entry: Link, ghost head: Link, ghost s: seq<Link>, ghost k: nat)
    requires Ring(head, s) && k < |s| && entry == s[k]
    modifies entry, Nth(head, s, k)`next, Nth(head, s, k + 2)`prev
    ensures Ring(head, Without(s, k)) && entry.next == null && entry.prev == null
  {
    ListDelEntry(entry, head, s, k);
    ghost var t := Without(s, k);
    entry.next := null;
    entry.prev := null;
    assert entry !in t && entry != head;
  }

  method ListDelInit(entry: Link, ghost head: Link, ghost s: seq<Link>, ghost k: nat)
    requires Ring(head, s) && k < |s| && entry == s[k]
    modifies entry, Nth(head, s, k)`next, Nth(head, s, k + 2)`prev
    ensures Ring(head, Without(s, k)) && Ring(entry, [])
  {
    ListDelEntry(entry, head, s, k);
    ghost var t := Without(s, k);
    assert entry !in t && entry != head;
    InitListHead(entry);
  }

  // list_replace: position 0 is the head itself, also of an empty list.
  method ListReplace(was: Link, n: Link, ghost head: Link, ghost s: seq<Link>, ghost k: nat)
    requires Ring(head, s) && k <= |s| && was == Nth(head, s, k) && n != head && n !in s
    modifies n, was`prev, head, s
    ensures k == 0 ==> Ring(n, s)
    ensures k > 0 ==> Ring(head, s[k - 1 := n])
  {
    assert LinkedAt(head, s, k) && (k > 0 ==> LinkedAt(head, s, k - 1)) && LinkedAt(head, s, |s|);
    n.next := was.next;
    n.next.prev := n;
    n.prev := was.prev;
    n.prev.next := n;
    ghost var h, t := if k == 0 then n else head, if k == 0 then s else s[k - 1 := n];
    forall i | 0 <= i <= |t| ensures LinkedAt(h, t, i) {
      assert old(LinkedAt(head, s, i));
    }
  }

  // Where a moved entry may go: into the ring it comes from, without it, or into
  // a ring apart from that one.
  ghost predicate Target(h1: Link, s1: seq<Link>, k1: nat, h2: Link, s2: seq<Link>)
    requires k1 < |s1|
    reads h2, s2
  {
    (h2 == h1 && s2 == Without(s1, k1)) || (Ring(h2, s2) && Apart(h1, s1, h2, s2))
  }

  // list_move: the entry goes behind `at`.
  method ListMove(entry: Link, at: Link, ghost h1: Link, ghost s1: seq<Link>, ghost k1: nat,
                  ghost h2: Link, ghost s2: seq<Link>, ghost k2: nat)
    requires Ring(h1, s1) && k1 < |s1| && entry == s1[k1]
    requires Target(h1, s1, k1, h2, s2) && k2 <= |s2| && at == Nth(h2, s2, k2)
    modifies entry, Nth(h1, s1, k1)`next, Nth(h1, s1, k1 + 2)`prev, at`next, Nth(h2, s2, k2 + 1)`prev
    ensures Ring(h2, s2[..k2] + [entry] + s2[k2..])
    ensures h2 != h1 ==> Ring(h1, Without(s1, k1))
  {
    ListDelEntry(entry, h1, s1, k1);
    assert entry !in s2 && entry != h2;
    ListAdd(entry, at, h2, s2, k2);
  }

  // list_move_tail: the entry goes before `at`.
  method ListMoveTail(entry: Link, at: Link, ghost h1: Link, ghost s1: seq<Link>, ghost k1: nat,
                      ghost h2: Link, ghost s2: seq<Link>, ghost k2: nat)
    requires Ring(h1, s1) && k1 < |s1| && entry == s1[k1]
    requires Target(h1, s1, k1, h2, s2) && 0 < k2 <= |s2| + 1 && at == Nth(h2, s2, k2)
    modifies entry, Nth(h1, s1, k1)`next, Nth(h1, s1, k1 + 2)`prev, at`prev, Nth(h2, s2, k2 - 1)`next
    ensures Ring(h2, s2[..k2 - 1] + [entry] + s2[k2 - 1..])
    ensures h2 != h1 ==> Ring(h1, Without(s1, k1))
  {
    ListDelEntry(entry, h1, s1, k1);
    assert entry !in s2 && entry != h2;
    ListAddTail(entry, at, h2, s2, k2);
  }

  method ListEmpty(head: Link, ghost s: seq<Link>) returns (r: bool)
    requires Ring(head, s)
    ensures r <==> s == []
  {
    assert LinkedAt(head, s, 0);
    return head.next == head;
  }

  method ListIsSingular(head: Link, ghost s: seq<Link>) returns (r: bool)
    requires Ring(head, s)
    ensures r <==> |s| == 1
  {
    assert LinkedAt(head, s, 0) && LinkedAt(head, s, |s|);
    var empty := ListEmpty(head, s);
    return !empty && head.next == head.prev;
  }

  method ListRotateLeft(head: Link, ghost s: seq<Link>)
    requires Ring(head, s)
    modifies head, s
    ensures Ring(head, Rotate(s))
  {
    var empty := ListEmpty(head, s);
    RotateIsMove(s);
    if !empty {
      assert LinkedAt(head, s, 0);
      var first := head.next;
      ghost var rest := Without(s, 0);
      ListMoveTail(first, head, head, s, 0, head, rest, |rest| + 1);
    }
  }

  lemma RotateIsMove<T>(s: seq<T>)
    ensures s != [] ==> var t := Without(s, 0); t[..|t|] + [s[0]] + t[|t|..] == Rotate(s)
    ensures s == [] ==> Rotate(s) == s
  {
  }

  function Rotate<T>(s: seq<T>): seq<T> {
    if s == [] then [] else s[1..] + [s[0]]
  }

  function RotateTimes<T>(s: seq<T>, n: nat): (r: seq<T>)
    ensures |r| == |s|
  {
    if n == 0 then s else Rotate(RotateTimes(s, n - 1))
  }

  lemma {:induction false} RotateTimesAt<T>(s: seq<T>, n: nat)
    requires n <= |s|
    ensures RotateTimes(s, n) == s[n..] + s[..n]
  {
    if n > 0 {
      RotateTimesAt(s, n - 1);
      assert s[n - 1..] + s[..n - 1] == [s[n - 1]] + s[n..] + s[..n - 1];
      assert ([s[n - 1]] + s[n..] + s[..n - 1])[1..] == s[n..] + s[..n - 1];
      assert s[..n] == s[..n - 1] + [s[n - 1]];
    }
  }

  lemma FullTurn<T>(s: seq<T>)
    ensures RotateTimes(s, |s|) == s
  {
    RotateTimesAt(s, |s|);
  }

  // As many rotations as there are entries bring the ring back.
  method RotateAll(head: Link, ghost s: seq<Link>, n: nat)
    requires Ring(head, s) && n == |s|
    modifies head, s
    ensures Ring(head, s)
  {
    for i := 0 to n
      invariant Ring(head, RotateTimes(s, i)) && forall j :: 0 <= j < |s| ==> RotateTimes(s, i)[j] in s
    {
      ListRotateLeft(head, RotateTimes(s, i));
    }
    FullTurn(s);
  }

  // list_cut_position: the entries up to position k move to `list`. An empty
  // ring is left alone, and then `list` is not initialised either.
  method ListCutPosition(list: Link, head: Link, entry: Link, ghost s: seq<Link>, ghost k: nat)
    requires Ring(head, s) && k <= |s| && entry == Nth(head, s, k) && list != head && list !in s
    modifies list, head, s
    ensures s == [] ==> unchanged(list) && Ring(head, s)
    ensures s != [] ==> Ring(list, s[..k]) && Ring(head, s[k..])
  {
    var empty := ListEmpty(head, s);
    if empty {
      return;
    }
    var singular := ListIsSingular(head, s);
    assert LinkedAt(head, s, 0);
    if singular && (head.next != entry && head != entry) {
      return;
    }
    if entry == head {
      InitListHead(list);
      assert s[..0] == [] && s[0..] == s;
    } else {
      CutAfter(list, head, entry, s, k);
    }
  }

  // __list_cut_position
  method CutAfter(list: Link, head: Link, entry: Link, ghost s: seq<Link>, ghost k: nat)
    requires Ring(head, s) && 0 < k <= |s| && entry == s[k - 1] && list != head && list !in s
    modifies list, head, s
    ensures Ring(list, s[..k]) && Ring(head, s[k..])
  {
    assert LinkedAt(head, s, 0) && LinkedAt(head, s, k);
    var newFirst := entry.next;
    list.next := head.next;
    list.next.prev := list;
    list.prev := entry;
    entry.next := list;
    head.next := newFirst;
    newFirst.prev := head;
    ghost var a, b := s[..k], s[k..];
    forall i | 0 <= i <= |a| ensures LinkedAt(list, a, i) {
      assert old(LinkedAt(head, s, i));
    }
    forall i | 0 <= i <= |b| ensures LinkedAt(head, b, i) {
      assert old(LinkedAt(head, s, i + k));
    }
  }

  // __list_splice: the entries of `list` come between two neighbours.
  method SpliceBetween(list: Link, prev: Link, next: Link, ghost t: seq<Link>,
                       ghost head: Link, ghost s: seq<Link>, ghost k: nat)
    requires Ring(list, t) && t != [] && Ring(head, s) && k <= |s|
    requires prev == Nth(head, s, k) && next == Nth(head, s, k + 1)
    requires Apart(list, t, head, s)
    modifies prev`next, next`prev, Nth(list, t, 1)`prev, Nth(list, t, |t|)`next
    ensures Ring(head, s[..k] + t + s[k..])
  {
    assert LinkedAt(list, t, 0) && LinkedAt(list, t, |t|);
    var first := list.next;
    var last := list.prev;
    first.prev := prev;
    prev.next := first;
    last.next := next;
    next.prev := last;
    ghost var r := s[..k] + t + s[k..];
    SplicedDistinct(head, s, t, k);
    forall i | 0 <= i <= |r| ensures LinkedAt(head, r, i) {
      if i <= k {
        assert old(LinkedAt(head, s, i));
      } else if i <= k + |t| {
        assert old(LinkedAt(list, t, i - k));
      } else {
        assert old(LinkedAt(head, s, i - |t|));
      }
    }
  }

  lemma SplicedDistinct(head: Link, s: seq<Link>, t: seq<Link>, k: nat)
    requires Distinct(s) && head !in s && Distinct(t) && head !in t && k <= |s|
    requires forall i, j :: 0 <= i < |t| && 0 <= j < |s| ==> t[i] != s[j]
    ensures Distinct(s[..k] + t + s[k..]) && head !in s[..k] + t + s[k..]
  {
  }

  // list_splice: after `at`.
  method ListSplice(list: Link, at: Link, ghost t: seq<Link>, ghost head: Link, ghost s: seq<Link>, ghost k: nat)
    requires Ring(list, t) && Ring(head, s) && k <= |s| && at == Nth(head, s, k)
    requires Apart(list, t, head, s)
    modifies at`next, Nth(head, s, k + 1)`prev, t
    ensures Ring(head, s[..k] + t + s[k..])
  {
    var empty := ListEmpty(list, t);
    assert LinkedAt(head, s, k);
    if !empty {
      SpliceBetween(list, at, at.next, t, head, s, k);
    } else {
      assert s[..k] + t + s[k..] == s;
    }
  }

  // list_splice_tail: before `at`.
  method ListSpliceTail(list: Link, at: Link, ghost t: seq<Link>, ghost head: Link, ghost s: seq<Link>, ghost k: nat)
    requires Ring(list, t) && Ring(head, s) && 0 < k <= |s| + 1 && at == Nth(head, s, k)
    requires Apart(list, t, head, s)
    modifies at`prev, Nth(head, s, k - 1)`next, t
    ensures Ring(head, s[..k - 1] + t + s[k - 1..])
  {
    var empty := ListEmpty(list, t);
    assert LinkedAt(head, s, k - 1);
    if !empty {
      SpliceBetween(list, at.prev, at, t, head, s, k - 1);
    } else {
      assert s[..k - 1] + t + s[k - 1..] == s;
    }
  }

  method ListSpliceInit(list: Link, at: Link, ghost t: seq<Link>, ghost head: Link, ghost s: seq<Link>, ghost k: nat)
    requires Ring(list, t) && Ring(head, s) && k <= |s| && at == Nth(head, s, k)
    requires Apart(list, t, head, s)
    modifies list, at`next, Nth(head, s, k + 1)`prev, t
    ensures Ring(head, s[..k] + t + s[k..]) && Ring(list, [])
  {
    ListSplice(list, at, t, head, s, k);
    ghost var r := s[..k] + t + s[k..];
    assert list !in r && list != head;
    InitListHead(list);
  }

  // Cutting a ring anywhere and splicing the piece back in front restores it.
  method CutThenSplice(list: Link, head: Link, entry: Link, ghost s: seq<Link>, ghost k: nat)
    requires Ring(head, s) && k <= |s| && entry == Nth(head, s, k)
    requires Ring(list, []) && list != head && list !in s
    modifies list, head, s
    ensures Ring(head, s) && Ring(list, [])
  {
    ListCutPosition(list, head, entry, s, k);
    ghost var a, b := s[..k], s[k..];
    assert s == [] ==> a == [] && b == s;
    ListSpliceInit(list, head, a, head, b, 0);
    assert b[..0] + a + b[0..] == s;
  }
}

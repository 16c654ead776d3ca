// The file event table of src/ae.c over the epoll interest set of
// src/ae_epoll.src.

module AeFiles {
  import opened AeCodes
  import opened AeMasks

  datatype CtlOp = CtlAdd | CtlMod | CtlDel

  // What epoll_ctl demands: ADD of a new descriptor, MOD and DEL of a known one.
  predicate CtlAllowed(kernel: map<int, int>, op: CtlOp, fd: int) {
    if op.CtlAdd? then fd !in kernel else fd in kernel
  }

  function CtlApply(kernel: map<int, int>, op: CtlOp, fd: int, events: int): map<int, int> {
    if op.CtlDel? then map x | x in kernel && x != fd :: kernel[x] else kernel[fd := events]
  }

  // The interest set once a known descriptor is left with mask m.
  function Narrowed(kernel: map<int, int>, fd: int, m: Mask): map<int, int> {
    if m != AE_NONE then kernel[fd := Watched(m)] else map x | x in kernel && x != fd :: kernel[x]
  }

  lemma MirrorsSet(kernel: map<int, int>, masks: seq<Mask>, fd: int, m: Mask)
    requires Mirrors(kernel, masks) && 0 <= fd < |masks|
    ensures m != AE_NONE <==> Mirrors(kernel[fd := Watched(m)], masks[fd := m])
    ensures fd in kernel ==> Mirrors(Narrowed(kernel, fd, m), masks[fd := m])
  {
    hide Events, Watched;
    assert fd in kernel[fd := Watched(m)];
  }

  // An interest set that was not told.
  lemma MirrorsStale(kernel: map<int, int>, masks: seq<Mask>, fd: int, m: Mask)
    requires Mirrors(kernel, masks) && 0 <= fd < |masks| && masks[fd] != AE_NONE
    ensures Mirrors(kernel, masks[fd := m]) <==> m != AE_NONE && Watched(m) == Watched(masks[fd])
  {
    hide Events, Watched;
    assert fd in kernel && kernel[fd] == Watched(masks[fd]);
  }

  lemma MaxFdSet(masks: seq<Mask>, max: int, fd: int, m: Mask)
    requires IsMaxFd(masks, max) && 0 <= fd < |masks| && m != AE_NONE
    ensures IsMaxFd(masks[fd := m], if fd > max then fd else max)
  {
  }

  // The greatest index with a nonempty mask, -1 for none.
  ghost predicate IsMaxFd(masks: seq<Mask>, m: int) {
    && -1 <= m < |masks| && (m >= 0 ==> masks[m] != AE_NONE)
    && forall fd :: m < fd < |masks| ==> masks[fd] == AE_NONE
  }

  function Idle(size: nat): seq<Mask> {
    seq(size, _ => AE_NONE)
  }

  // The interest set is the table: same descriptors, matching events.
  ghost predicate Mirrors(kernel: map<int, int>, masks: seq<Mask>) {
    && (forall fd :: fd in kernel <==> 0 <= fd < |masks| && masks[fd] != AE_NONE)
    && (forall fd :: fd in kernel ==> kernel[fd] == Watched(masks[fd]))
  }

  class FileTable {
    var events: array<Mask>
    var setsize: int
    var maxfd: int
    var kernel: map<int, int>
    // Whether some epoll_ctl call was not allowed by the kernel's state.
    ghost var misused: bool

    ghost predicate Valid()
      reads this, events
    {
      && events.Length == setsize
      && IsMaxFd(events[..], maxfd) && Mirrors(kernel, events[..])
      && !misused
    }

    constructor (setsize: nat)
      ensures Valid() && this.setsize == setsize && maxfd == -1 && fresh(events)
      ensures events[..] == Idle(setsize) && kernel == map[]
    {
      events := new Mask[setsize](_ => AE_NONE);
      this.setsize, maxfd, kernel, misused := setsize, -1, map[], false;
    }

    // epoll_ctl: fails when the operation does not fit, or for any reason of
    // the kernel's own (`refuse`).
    method EpollCtl(op: CtlOp, fd: int, ev: int, refuse: bool) returns (r: int)
      modifies this`kernel, this`misused
      ensures misused == (old(misused) || !CtlAllowed(old(kernel), op, fd))
      ensures r == if CtlAllowed(old(kernel), op, fd) && !refuse then 0 else -1
      ensures kernel == if r == 0 then CtlApply(old(kernel), op, fd, ev) else old(kernel)
    {
      if !CtlAllowed(kernel, op, fd) {
        misused := true;
        return -1;
      }
      if refuse {
        return -1;
      }
      kernel := CtlApply(kernel, op, fd, ev);
      return 0;
    }

    method ApiAddEvent(fd: int, mask: Mask, refuse: bool) returns (r: int)
      requires 0 <= fd < events.Length
      modifies this`kernel, this`misused
      ensures misused == (old(misused) || ((fd in old(kernel)) != (events[fd] != AE_NONE)))
      ensures r == -1 ==> kernel == old(kernel)
      ensures r == 0 ==> kernel == old(kernel)[fd := Watched(Merge(events[fd], mask))]
      ensures r == 0 <==> ((fd in old(kernel)) == (events[fd] != AE_NONE)) && !refuse
      ensures r == 0 || r == -1
    {
      var op := if events[fd] == AE_NONE then CtlAdd else CtlMod;
      r := EpollCtl(op, fd, Events(Merge(events[fd], mask)), refuse);
    }

    // The result of epoll_ctl is ignored here.
    method ApiDelEvent(fd: int, delmask: Mask, refuse: bool)
      requires 0 <= fd < events.Length
      modifies this`kernel, this`misused
      ensures misused == (old(misused) || fd !in old(kernel))
      ensures fd in old(kernel) ==>
        kernel == if refuse then old(kernel) else Narrowed(old(kernel), fd, Clear(events[fd], delmask))
    {
      var mask := Clear(events[fd], delmask);
      if mask != AE_NONE {
        var _ := EpollCtl(CtlMod, fd, Events(mask), refuse);
      } else {
        var _ := EpollCtl(CtlDel, fd, Events(mask), refuse);
      }
    }

    method CreateFileEvent(fd: int, mask: Mask, refuse: bool) returns (r: int)
      requires Valid() && 0 <= fd
      modifies this`maxfd, this`kernel, this`misused, events
      ensures r == 0 || r == -1
      ensures r == AE_OK <==> fd < setsize && !refuse
      ensures r == AE_ERR ==> Valid() && events[..] == old(events[..]) && maxfd == old(maxfd) && kernel == old(kernel)
      ensures r == AE_OK ==> events[..] == old(events[..])[fd := Merge(old(events[..])[fd], mask)]
      ensures r == AE_OK ==> (events[fd] % 2 == 1 <==> old(events[fd]) % 2 == 1 || mask % 2 == 1)
      ensures r == AE_OK ==> (events[fd] / 2 % 2 == 1 <==> old(events[fd]) / 2 % 2 == 1 || mask / 2 % 2 == 1)
      ensures r == AE_OK && Valid() ==> fd in kernel
      ensures r == AE_OK && Valid() ==> (kernel[fd] % 2 == 1 <==> old(events[fd]) % 2 == 1 || mask % 2 == 1)
      ensures r == AE_OK && Valid() ==> (kernel[fd] / 4 % 2 == 1 <==> old(events[fd]) / 2 % 2 == 1 || mask / 2 % 2 == 1)
      // A zero mask for a descriptor without events breaks the table.
      ensures r == AE_OK ==> (Valid() <==> mask != AE_NONE || old(events[..])[fd] != AE_NONE)
    {
      hide Events, Watched, Merge, Mirrors, IsMaxFd;
      if fd >= setsize {
        return AE_ERR;
      }
      ghost var m := Merge(events[fd], mask);
      ghost var masks := events[..];
      assert (fd in kernel) == (events[fd] != AE_NONE) by { MirrorsAt(kernel, masks, fd); }
      MirrorsSet(kernel, masks, fd, m);
      r := ApiAddEvent(fd, mask, refuse);
      if r == -1 {
        return AE_ERR;
      }
      events[fd] := Merge(events[fd], mask);
      if fd > maxfd {
        maxfd := fd;
      }
      assert events[..] == masks[fd := m];
      if m != AE_NONE { MaxFdSet(masks, old(maxfd), fd, m); }
      MergeIsZero(masks[fd], mask);
      TwoBits(masks[fd], mask);
      WatchedBits(m);
      if m != AE_NONE { MirrorsKeeps(kernel, masks[fd := m], fd); }
      return AE_OK;
    }

    // A refusal goes unnoticed; it leaves table and interest set apart unless the
    // descriptor keeps exactly the events it had.
    method DeleteFileEvent(fd: int, mask: Mask, refuse: bool)
      requires Valid() && 0 <= fd
      modifies this`maxfd, this`kernel, this`misused, events
      ensures events.Length == setsize && IsMaxFd(events[..], maxfd) && !misused
      ensures events[..] == Deleted(old(events[..]), fd, mask)
      ensures fd < setsize ==> (events[fd] % 2 == 1 <==> old(events[fd]) % 2 == 1 && mask % 2 == 0)
      ensures fd < setsize ==> (events[fd] / 2 % 2 == 1 <==> old(events[fd]) / 2 % 2 == 1 && mask / 2 % 2 == 0)
      ensures Valid() <==> DeleteTold(old(events[..]), fd, mask, refuse)
    {
      hide Events, Watched, Clear, Mirrors, IsMaxFd;
      if fd >= setsize {
        return;
      }
      ghost var m := Clear(events[fd], mask);
      ghost var masks := events[..];
      ClearZero(mask);
      TwoBits(masks[fd], mask);
      assert (fd in kernel) == (events[fd] != AE_NONE) by { MirrorsAt(kernel, masks, fd); }
      if events[fd] == AE_NONE {
        assert masks[fd := m] == masks;
        return;
      }
      MirrorsSet(kernel, masks, fd, m);
      MirrorsStale(kernel, masks, fd, m);
      ApiDelEvent(fd, mask, refuse);
      events[fd] := Clear(events[fd], mask);
      assert events[..] == masks[fd := m];
      FindMax(fd, masks);
    }

    // Lowers maxfd when its descriptor has just lost its last event.
    method FindMax(fd: int, ghost masks: seq<Mask>)
      requires 0 <= fd < events.Length == |masks| && IsMaxFd(masks, maxfd) && masks[fd] != AE_NONE
      requires events[..] == masks[fd := events[fd]]
      modifies this`maxfd
      ensures IsMaxFd(events[..], maxfd)
    {
      assert forall i :: 0 <= i < events.Length && i != fd ==> events[i] == masks[i];
      if fd == maxfd && events[fd] == AE_NONE {
        var j := maxfd - 1;
        while j >= 0
          invariant -1 <= j < maxfd && maxfd == old(maxfd)
          invariant forall i :: j < i < events.Length ==> events[i] == AE_NONE
        {
          if events[j] != AE_NONE {
            break;
          }
          j := j - 1;
        }
        maxfd := j;
      }
    }

    // The table may shrink down to the last descriptor in use, not below.
    method ResizeSetSize(size: int) returns (r: int)
      requires Valid()
      modifies this`events, this`setsize
      ensures Valid() && (events == old(events) || fresh(events))
      ensures r == if maxfd < size then 0 else -1
      ensures r == AE_OK ==> setsize == size
      ensures r == AE_ERR ==> setsize == old(setsize) && events == old(events)
      ensures r == AE_OK ==> events[..] == Resized(old(events[..]), size)
    {
      hide Events, Watched;
      if size == setsize {
        return AE_OK;
      }
      if maxfd >= size {
        return AE_ERR;
      }
      ghost var masks := events[..];
      var grown := new Mask[size];
      forall i | 0 <= i < size && i < events.Length {
        grown[i] := events[i];
      }
      events := grown;
      setsize := size;
      for i := maxfd + 1 to setsize
        invariant events == grown && setsize == size && maxfd == old(maxfd)
        invariant forall x :: 0 <= x <= maxfd ==> events[x] == masks[x]
        invariant forall x :: maxfd < x < i ==> events[x] == AE_NONE
      {
        events[i] := AE_NONE;
      }
      return AE_OK;
    }

    method Perform(op: Op)
      requires Valid()
      modifies this, events
      ensures events[..] == Next(old(events[..]), op)
      ensures Valid() <==> Told(old(events[..]), op)
      ensures events == old(events) || fresh(events)
    {
      hide Mirrors, IsMaxFd, Merge, Clear, Events;
      match op
      case Create(fd, mask, refuse) =>
        var _ := CreateFileEvent(fd, mask, refuse);
      case Delete(fd, mask, refuse) => DeleteFileEvent(fd, mask, refuse);
      case Resize(size) =>
        MaxFdFits(events[..], maxfd, size);
        var _ := ResizeSetSize(size);
    }

    // In every valid state the kernel watches a descriptor for input exactly when
    // its mask has the readable bit, for output exactly when it has the writable
    // one, and for nothing else.
    lemma KernelWatches(fd: int)
      requires Valid() && 0 <= fd < setsize && events[fd] != AE_NONE
      ensures fd in kernel && kernel[fd] in {0, 1, 4, 5}
      ensures kernel[fd] % 2 == 1 <==> events[fd] % 2 == 1
      ensures kernel[fd] / 4 % 2 == 1 <==> events[fd] / 2 % 2 == 1
    {
      hide Watched, IsMaxFd, Mirrors;
      MirrorsKeeps(kernel, events[..], fd);
      WatchedBits(events[fd]);
    }

    method GetFileEvents(fd: int) returns (m: Mask)
      requires Valid() && 0 <= fd
      ensures m == if fd < setsize then events[fd] else AE_NONE
      ensures m != AE_NONE <==> fd in kernel
    {
      if fd >= setsize {
        return AE_NONE;
      }
      return events[fd];
    }
  }

  lemma MaxFdFits(masks: seq<Mask>, max: int, size: int)
    requires IsMaxFd(masks, max)
    ensures max < size <==> Fits(masks, size)
  {
    assert max >= size >= 0 ==> masks[max] != AE_NONE;
  }

  lemma MirrorsAt(kernel: map<int, int>, masks: seq<Mask>, fd: int)
    requires Mirrors(kernel, masks) && 0 <= fd < |masks|
    ensures fd in kernel <==> masks[fd] != AE_NONE
  {
  }

  lemma MirrorsKeeps(kernel: map<int, int>, masks: seq<Mask>, fd: int)
    requires 0 <= fd < |masks| && masks[fd] != AE_NONE
    ensures Mirrors(kernel, masks) ==> fd in kernel && kernel[fd] == Watched(masks[fd])
  {
    hide Watched;
  }

  // ---- the table as a sequence of masks ----

  function Deleted(masks: seq<Mask>, fd: int, mask: Mask): seq<Mask>
    requires 0 <= fd
  {
    if fd < |masks| then masks[fd := Clear(masks[fd], mask)] else masks
  }

  // Whether the interest set is right after a deletion.
  predicate DeleteTold(masks: seq<Mask>, fd: int, mask: Mask, refuse: bool)
    requires 0 <= fd
  {
    || !refuse || fd >= |masks| || masks[fd] == AE_NONE
    || (Clear(masks[fd], mask) != AE_NONE && Watched(Clear(masks[fd], mask)) == Watched(masks[fd]))
  }

  function Resized(masks: seq<Mask>, size: nat): seq<Mask> {
    seq(size, i requires 0 <= i < size => if i < |masks| then masks[i] else AE_NONE)
  }

  predicate Fits(masks: seq<Mask>, size: int) {
    0 <= size && forall fd :: size <= fd < |masks| ==> masks[fd] == AE_NONE
  }

  datatype Op =
    | Create(fd: nat, mask: Mask, refuse: bool)
    | Delete(fd: nat, mask: Mask, refuse: bool)
    | Resize(size: int)

  // Whether table and interest set still agree after the call.
  predicate Told(masks: seq<Mask>, op: Op) {
    match op
    case Create(fd, mask, refuse) => fd >= |masks| || refuse || mask != AE_NONE || masks[fd] != AE_NONE
    case Delete(fd, mask, refuse) => DeleteTold(masks, fd, mask, refuse)
    case Resize(_) => true
  }

  function Next(masks: seq<Mask>, op: Op): seq<Mask> {
    match op
    case Create(fd, mask, refuse) =>
      if fd < |masks| && !refuse then masks[fd := Merge(masks[fd], mask)] else masks
    case Delete(fd, mask, _) => Deleted(masks, fd, mask)
    case Resize(size) => if Fits(masks, size) then Resized(masks, size) else masks
  }

  function Masks(setsize: nat, ops: seq<Op>): seq<Mask> {
    if ops == [] then Idle(setsize) else Next(Masks(setsize, ops[..|ops| - 1]), ops[|ops| - 1])
  }

  predicate AllTold(setsize: nat, ops: seq<Op>) {
    ops == [] || (AllTold(setsize, ops[..|ops| - 1]) && Told(Masks(setsize, ops[..|ops| - 1]), ops[|ops| - 1]))
  }

  lemma {:induction false} AllToldBefore(setsize: nat, ops: seq<Op>, k: nat)
    requires k <= |ops| && AllTold(setsize, ops)
    ensures AllTold(setsize, ops[..k])
    decreases |ops|
  {
    if k < |ops| {
      assert ops[..|ops| - 1][..k] == ops[..k];
      AllToldBefore(setsize, ops[..|ops| - 1], k);
    } else {
      assert ops[..k] == ops;
    }
  }

  // Any run of calls, whatever the kernel refuses, up to and including the first
  // call that leaves table and interest set apart: the masks are those of the
  // plain sequence, and which call breaks the agreement is known from them.
  method Run(setsize: nat, ops: seq<Op>) returns (t: FileTable, done: nat)
    ensures done <= |ops| && t.events[..] == Masks(setsize, ops[..done])
    ensures t.Valid() <==> AllTold(setsize, ops)
    ensures t.Valid() ==> done == |ops|
    ensures !t.Valid() ==> 0 < done && AllTold(setsize, ops[..done - 1]) && !AllTold(setsize, ops[..done])
  {
    hide Mirrors, IsMaxFd, Merge, Clear, Told, Next, Idle;
    t := new FileTable(setsize);
    done := 0;
    while done < |ops|
      invariant done <= |ops| && t.Valid() && fresh(t) && fresh(t.events)
      invariant t.events[..] == Masks(setsize, ops[..done]) && AllTold(setsize, ops[..done])
    {
      assert ops[..done + 1][..done] == ops[..done];
      t.Perform(ops[done]);
      done := done + 1;
      if !Told(Masks(setsize, ops[..done - 1]), ops[done - 1]) {
        assert AllTold(setsize, ops) ==> AllTold(setsize, ops[..done]) by {
          if AllTold(setsize, ops) { AllToldBefore(setsize, ops, done); }
        }
        return;
      }
    }
    assert ops[..done] == ops;
  }

  // Two short runs that leave table and interest set apart.
  method ZeroMaskWitness() returns (t: FileTable)
    ensures !t.Valid()
  {
    hide Mirrors, IsMaxFd;
    t := new FileTable(1);
    var _ := t.CreateFileEvent(0, AE_NONE, false);
  }

  method RefusedDeleteWitness() returns (t: FileTable)
    ensures !t.Valid()
  {
    hide Mirrors, IsMaxFd;
    t := new FileTable(1);
    var _ := t.CreateFileEvent(0, 1, false);
    t.DeleteFileEvent(0, 1, true);
  }
}

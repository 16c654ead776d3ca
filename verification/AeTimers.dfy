// The timer list of src/ae.c and its cached nearest timer.

module AeTimers {
  import opened AeClock
  import opened AeCodes
  import opened Seqs

  const AE_NOMORE: int := -1

  // How a handler left its event: what it asked for, and whether it kept it.
  datatype Reply = Reply(result: int, kept: bool)

  // The event is due again at once.
  predicate Stays(r: Reply) {
    r.kept && r.result <= 0 && r.result != AE_NOMORE
  }

  // The loop writes a new time into an event that is no longer there.
  predicate UsesFreed(r: Reply) {
    !r.kept && r.result != AE_NOMORE
  }

  // A call of an event's handler: how it left the event, and which event it left
  // cached.
  datatype Call = Call(te: TimeEvent, reply: Reply, seen: TimeEvent?)

  // What the n-th handler called asks for; behind the script none asks for more.
  function AnswerAt(answers: seq<int>, n: nat): int {
    if n < |answers| then answers[n] else AE_NOMORE
  }

  class TimeEvent {
    const id: int
    var when: Time
    var next: TimeEvent?

    constructor (id: int, when: Time, next: TimeEvent?)
      ensures this.id == id && this.when == when && this.next == next
    {
      this.id, this.when, this.next := id, when, next;
    }
  }

  // What a pass does: `fired` and `replies` list the events in the order they
  // fire and how their handlers left them, `gone` those deleted while due.
  datatype Log = Log(fired: seq<TimeEvent>, replies: seq<Reply>, gone: set<TimeEvent>) {

    // Newer events fire first. Only an event that stayed due fires again, or is
    // deleted after it fired.
    ghost predicate Sane() {
      && |fired| == |replies|
      && (forall i, j :: 0 <= i < j < |fired| ==> fired[i].id >= fired[j].id)
      && (forall i, j :: 0 <= i < j < |fired| && fired[i] == fired[j] ==> Stays(replies[i]))
      && (forall i :: 0 <= i < |fired| && fired[i] in gone ==> Stays(replies[i]))
    }

    ghost predicate NoneFreed() {
      forall i :: 0 <= i < |replies| ==> !UsesFreed(replies[i])
    }

    // The handlers answered as the script says.
    ghost predicate Follows(answers: seq<int>) {
      forall i :: 0 <= i < |replies| ==> replies[i].result == AnswerAt(answers, i)
    }

    // The calls made are exactly these.
    ghost predicate Matches(calls: seq<Call>) {
      && |calls| == |fired| == |replies|
      && forall i :: 0 <= i < |calls| ==> calls[i].te == fired[i] && calls[i].reply == replies[i]
    }

    // The state of a pass over the `due` events.
    ghost predicate Tracks(due: set<TimeEvent>, pending: set<TimeEvent>) {
      && Sane() && due == pending + Elems(fired) + gone
      && (forall i, e :: 0 <= i < |fired| && e in pending ==> fired[i].id >= e.id)
      && forall i :: 0 <= i < |fired| && fired[i] in pending ==> Stays(replies[i])
    }

    ghost predicate Accounts(due: set<TimeEvent>, pending: set<TimeEvent>, answers: seq<int>, calls: seq<Call>) {
      Tracks(due, pending) && Follows(answers) && Matches(calls)
    }

    ghost function Then(te: TimeEvent, reply: Reply, g: set<TimeEvent>): Log {
      Log(fired + [te], replies + [reply], gone + g)
    }

    lemma Start(due: set<TimeEvent>, answers: seq<int>)
      requires this == Log([], [], {})
      ensures Accounts(due, due, answers, []) && NoneFreed()
    {
    }

    lemma Fire(due: set<TimeEvent>, pending: set<TimeEvent>, te: TimeEvent, reply: Reply,
               g: set<TimeEvent>, pending': set<TimeEvent>)
      requires Tracks(due, pending) && te in pending && te !in gone && g <= pending - {te}
      requires pending' == pending - g - if Stays(reply) then {} else {te}
      requires forall e :: e in pending ==> te.id >= e.id
      ensures Then(te, reply, g).Tracks(due, pending')
      ensures Then(te, reply, g).NoneFreed() <==> NoneFreed() && !UsesFreed(reply)
    {
      var next := Then(te, reply, g);
      assert forall i :: 0 <= i < |replies| ==> next.replies[i] == replies[i];
      assert next.replies[|replies|] == reply;
    }

    lemma Called(calls: seq<Call>, answers: seq<int>, c: Call, g: set<TimeEvent>)
      requires Matches(calls) && Follows(answers) && c.reply.result == AnswerAt(answers, |calls|)
      ensures Then(c.te, c.reply, g).Matches(calls + [c]) && Then(c.te, c.reply, g).Follows(answers)
    {
    }

    lemma Finish(due: set<TimeEvent>, pending: set<TimeEvent>, answers: seq<int>, calls: seq<Call>)
      requires Accounts(due, pending, answers, calls)
      ensures Sane() && Follows(answers) && Matches(calls) && Elems(fired) + gone <= due
      ensures pending == {} ==> Elems(fired) + gone == due
      ensures fired != [] ==> due != {}
    {
      assert fired != [] ==> fired[0] in due;
    }

    // When no event stays due each one fires once.
    lemma OnceEach()
      requires Sane() && forall i :: 0 <= i < |replies| ==> !Stays(replies[i])
      ensures Distinct(fired) && Elems(fired) !! gone
    {
    }
  }

  ghost function At(list: seq<TimeEvent>, p: nat): TimeEvent? {
    if p < |list| then list[p] else null
  }

  ghost predicate Chained(list: seq<TimeEvent>)
    reads list`next
  {
    forall p :: 0 <= p < |list| ==> list[p].next == At(list, p + 1)
  }

  // New events go to the front and take the next id.
  ghost predicate Descending(list: seq<TimeEvent>) {
    forall p, q :: 0 <= p < q < |list| ==> list[p].id > list[q].id
  }

  // No other event of the list is earlier.
  ghost predicate IsNearest(list: seq<TimeEvent>, te: TimeEvent)
    reads list`when, te`when
  {
    te in list && forall p :: 0 <= p < |list| ==> !Earlier(list[p].when, te.when)
  }

  // The first of the nearest events among list[..k].
  ghost predicate ScanAt(list: seq<TimeEvent>, k: nat, best: nat)
    reads list`when
  {
    && best < k <= |list|
    && (forall p :: 0 <= p < k ==> !Earlier(list[p].when, list[best].when))
    && (forall p :: 0 <= p < best ==> Earlier(list[best].when, list[p].when))
  }

  lemma ScanStep(list: seq<TimeEvent>, k: nat, best: nat)
    requires ScanAt(list, k, best) && k < |list|
    ensures ScanAt(list, k + 1, if Earlier(list[k].when, list[best].when) then k else best)
  {
    forall p | 0 <= p < k && Earlier(list[k].when, list[best].when)
      ensures Earlier(list[k].when, list[p].when) && !Earlier(list[p].when, list[k].when)
    {
      assert !Earlier(list[p].when, list[best].when);
    }
  }

  lemma Pushed(c: seq<TimeEvent>, te: TimeEvent)
    requires Chained(c) && Descending(c) && te.next == At(c, 0)
    requires forall p :: 0 <= p < |c| ==> c[p].id < te.id
    ensures Chained([te] + c) && Descending([te] + c)
  {
  }

  lemma OnlyAt(c: seq<TimeEvent>, k: nat)
    requires Descending(c) && k < |c|
    ensures forall p :: 0 <= p < |c| && p != k ==> c[p] != c[k]
  {
  }

  lemma WithoutAt(c: seq<TimeEvent>, k: nat)
    requires k < |c|
    ensures forall p :: 0 <= p < |c| - 1 ==> Without(c, k)[p] == c[if p < k then p else p + 1]
    ensures At(Without(c, k), 0) == if k == 0 then At(c, 1) else At(c, 0)
  {
  }

  // The node before position k skips it; all others are linked as before.
  ghost predicate Skips(c: seq<TimeEvent>, k: nat)
    requires k < |c|
    reads c`next
  {
    && (forall p :: 0 <= p < |c| && p != k - 1 ==> c[p].next == At(c, p + 1))
    && (k > 0 ==> c[k - 1].next == At(c, k + 1))
  }

  lemma HeadSkips(c: seq<TimeEvent>)
    requires c != [] && Chained(c)
    ensures Skips(c, 0)
  {
  }

  // Then the rest is a list again.
  lemma Unlinked(c: seq<TimeEvent>, k: nat)
    requires k < |c| && Descending(c) && Skips(c, k)
    ensures Chained(Without(c, k)) && Descending(Without(c, k))
  {
    var d := Without(c, k);
    assert |d| == |c| - 1;
    WithoutAt(c, k);
    hide Without, Descending;
    forall p | 0 <= p < |d| ensures d[p].next == At(d, p + 1) {
      var q := if p < k then p else p + 1;
      assert d[p] == c[q] && At(d, p + 1) == At(c, if p + 1 < k then p + 1 else p + 2);
    }
    assert Descending(d) by { WithoutDescends(c, k); }
  }

  lemma WithoutDescends(c: seq<TimeEvent>, k: nat)
    requires k < |c| && Descending(c)
    ensures Descending(Without(c, k))
  {
  }

  // Comparing a new event with the cached one is enough.
  lemma NearestOfTwo(list: seq<TimeEvent>, te: TimeEvent, latest: TimeEvent?)
    ensures latest != null && IsNearest(list, latest) ==>
      IsNearest([te] + list, if Earlier(te.when, latest.when) then te else latest)
    ensures list == [] ==> IsNearest([te] + list, te)
  {
    var c := [te] + list;
    assert c[0] == te;
    if latest != null && IsNearest(list, latest) {
      assert latest in c;
      forall p | 0 <= p < |c| ensures !Earlier(c[p].when, (if Earlier(te.when, latest.when) then te else latest).when) {
        if p > 0 { assert !Earlier(list[p - 1].when, latest.when); }
      }
    }
  }

  lemma NeverEarlier(t: Time)
    ensures !Earlier(t, t)
  {
  }

  // When one event other than the cached one changes, comparing the two suffices.
  lemma NearestAfterChange(list: seq<TimeEvent>, te: TimeEvent, latest: TimeEvent)
    requires te in list && latest in list
    requires forall p :: 0 <= p < |list| && list[p] != te ==> !Earlier(list[p].when, latest.when)
    ensures IsNearest(list, if Earlier(te.when, latest.when) then te else latest)
  {
  }

  lemma OthersStay(c: seq<TimeEvent>, p: nat, q: nat)
    requires Descending(c) && p < |c| && q < |c| && c[p].id == c[q].id
    ensures p == q && forall e :: e in Without(c, p) <==> e in c && e != c[p]
  {
    assert forall r :: 0 <= r < |c| && r != p ==> c[r] == Without(c, p)[if r < p then r else r - 1];
  }

  // Exactly the events that left the list are finalized, each once.
  ghost predicate Finalizes(was: seq<TimeEvent>, now: seq<TimeEvent>, f: seq<TimeEvent>) {
    && (forall e :: e in was ==> (e in f <==> e !in now))
    && (forall e :: e in f ==> e !in now) && Distinct(f)
  }

  lemma NoneFinalized(c: seq<TimeEvent>)
    ensures Finalizes(c, c, [])
  {
  }

  lemma FinalizesGrown(was: seq<TimeEvent>, mid: seq<TimeEvent>, now: seq<TimeEvent>, f: seq<TimeEvent>)
    requires Finalizes(was, mid, f) && forall e :: e in mid ==> e in now
    requires forall e :: e in now ==> e in mid || (e !in was && e !in f)
    ensures Finalizes(was, now, f)
  {
  }

  lemma FinalizesMore(was: seq<TimeEvent>, mid: seq<TimeEvent>, now: seq<TimeEvent>,
                      f: seq<TimeEvent>, g: seq<TimeEvent>)
    requires Finalizes(was, mid, f) && Finalizes(mid, now, g)
    requires forall e :: e in now || e in g ==> e in mid || (e !in was && e !in f)
    ensures Finalizes(was, now, f + g)
  {
    forall i, j | 0 <= i < |f| && 0 <= j < |g| ensures f[i] != g[j] {
      assert f[i] in f && g[j] in g;
    }
  }

  class Timers {
    var timeEventHead: TimeEvent?
    var timeEventNextId: int
    var lastTime: int
    var latestTimeEvt: TimeEvent?
    ghost var list: seq<TimeEvent>
    // Whether some event was ever created or rescheduled with a negative delay.
    ghost var early: bool
    // The calls of handlers and of finalizers so far.
    ghost var calls: seq<Call>
    ghost var finalized: seq<TimeEvent>

    // The milliseconds of every event are in range, which without negative delays
    // means proper.
    ghost predicate Timely()
      reads this`list, this`early, list`when
    {
      forall p :: 0 <= p < |list| ==> InRange(list[p].when) && (early || Proper(list[p].when))
    }

    ghost predicate Shape()
      reads this`timeEventHead, this`timeEventNextId, this`list, list`next
    {
      && timeEventHead == At(list, 0) && Chained(list) && Descending(list)
      && forall p :: 0 <= p < |list| ==> list[p].id < timeEventNextId
    }

    // The cache names an event of the list, or nothing when there is none.
    ghost predicate CacheMember()
      reads this`latestTimeEvt, this`list
    {
      if list == [] then latestTimeEvt == null else latestTimeEvt != null && latestTimeEvt in list
    }

    // It agrees with a scan of the whole list.
    ghost predicate CacheOk()
      reads this`latestTimeEvt, this`list, list`when
    {
      CacheMember() && (list != [] ==> IsNearest(list, latestTimeEvt))
    }

    constructor (now: int)
      ensures Shape() && CacheOk() && list == [] && timeEventNextId == 0 && lastTime == now && !early
      ensures calls == [] && finalized == []
    {
      timeEventHead, timeEventNextId, lastTime, latestTimeEvt, list, early := null, 0, now, null, [], false;
      calls, finalized := [], [];
    }

    method UpdateLatestTimeEvt(te: TimeEvent)
      modifies this`latestTimeEvt
      ensures latestTimeEvt ==
        if old(latestTimeEvt) == null || Earlier(te.when, old(latestTimeEvt).when) then te else old(latestTimeEvt)
    {
      if latestTimeEvt == null {
        latestTimeEvt := te;
        return;
      }
      if latestTimeEvt.when.sec < te.when.sec {
        return;
      }
      if latestTimeEvt.when.sec == te.when.sec {
        if latestTimeEvt.when.ms <= te.when.ms {
          return;
        }
      }
      latestTimeEvt := te;
    }

    // The scan returns the first of the nearest events.
    method FindLatestTimeEvt()
      requires Shape()
      modifies this`latestTimeEvt
      ensures CacheMember() && CacheOk()
      ensures list != [] ==> exists best: nat :: ScanAt(list, |list|, best) && latestTimeEvt == list[best]
    {
      hide Descending, ScanAt, Earlier;
      var te := timeEventHead;
      var nearest: TimeEvent? := null;
      if timeEventHead == null {
        latestTimeEvt := null;
        return;
      }
      ghost var k: nat, best: nat := 0, 0;
      while te != null
        invariant k <= |list| && te == At(list, k)
        invariant if k == 0 then nearest == null else best < k && nearest == list[best] && ScanAt(list, k, best)
        decreases |list| - k
      {
        if k == 0 { ScanStart(); } else { ScanStep(list, k, best); }
        if nearest == null || Earlier(te.when, nearest.when) {
          nearest, best := te, k;
        }
        te, k := te.next, k + 1;
      }
      latestTimeEvt := nearest;
      ScanIsNearest(best);
    }

    lemma ScanStart()
      ensures list != [] ==> ScanAt(list, 1, 0)
    {
    }

    lemma ScanIsNearest(best: nat)
      requires ScanAt(list, |list|, best)
      ensures IsNearest(list, list[best])
    {
    }

    // The id is used up even when the event cannot be allocated.
    method CreateTimeEvent(delay: int, now: Time, allocOk: bool) returns (id: int)
      requires Shape()
      modifies this`timeEventHead, this`timeEventNextId, this`latestTimeEvt, this`list, this`early
      ensures Shape() && timeEventNextId == old(timeEventNextId) + 1
      ensures early == (old(early) || delay < 0)
      ensures Proper(now) && old(Timely()) ==> Timely()
      ensures id == if allocOk then old(timeEventNextId) else -1
      ensures !allocOk ==> list == old(list) && latestTimeEvt == old(latestTimeEvt)
      ensures allocOk ==> |list| > 0 && fresh(list[0]) && list == [list[0]] + old(list)
      ensures allocOk ==> list[0].id == id && list[0].when == AddMilliseconds(now, delay)
      ensures old(CacheMember()) ==> CacheMember()
      ensures old(CacheOk()) ==> CacheOk()
    {
      hide Earlier, Chained, Descending, IsNearest, AddMilliseconds;
      early := early || delay < 0;
      id := timeEventNextId;
      timeEventNextId := timeEventNextId + 1;
      if !allocOk {
        return AE_ERR;
      }
      var te := new TimeEvent(id, AddMilliseconds(now, delay), timeEventHead);
      timeEventHead := te;
      list := [te] + list;
      UpdateLatestTimeEvt(te);
      Pushed(old(list), te);
      assert list[0] == te;
      CachePushed(old(list), te, old(latestTimeEvt));
      if Proper(now) { AddIsExact(now, delay); }
    }

    lemma CachePushed(c: seq<TimeEvent>, te: TimeEvent, latest: TimeEvent?)
      requires list == [te] + c
      requires latestTimeEvt == if latest == null || Earlier(te.when, latest.when) then te else latest
      ensures (if c == [] then latest == null else latest != null && latest in c) ==> CacheMember()
      ensures (if c == [] then latest == null else latest != null && IsNearest(c, latest)) ==> CacheOk()
    {
      hide Earlier, IsNearest;
      NearestOfTwo(c, te, latest);
      assert te in list && forall x :: x in c ==> x in list;
      if c != [] && latest != null && IsNearest(c, latest) {
        assert latest in c by { NearestIsMember(c, latest); }
      }
    }

    lemma NearestIsMember(c: seq<TimeEvent>, te: TimeEvent)
      requires IsNearest(c, te)
      ensures te in c
    {
    }

    method SkipNext(prev: TimeEvent, te: TimeEvent, ghost c: seq<TimeEvent>, ghost k: nat)
      requires Chained(c) && Descending(c) && 0 < k < |c| && te == c[k] && prev == c[k - 1]
      modifies prev`next
      ensures Skips(c, k)
    {
      OnlyAt(c, k - 1);
      hide Descending;
      prev.next := te.next;
    }

    method Unlink(prev: TimeEvent?, te: TimeEvent, ghost k: nat)
      requires Shape() && k < |list| && te == list[k] && prev == if k == 0 then null else list[k - 1]
      modifies this`timeEventHead, this`list, (set x | x in list && x == prev)`next
      ensures Shape() && list == Without(old(list), k)
      ensures old(Timely()) ==> Timely()
    {
      hide Descending, Chained, Skips;
      assert te.next == At(list, k + 1) by { LinkOf(k); }
      if prev == null {
        timeEventHead := te.next;
        HeadSkips(list);
      } else {
        SkipNext(prev, te, list, k);
      }
      Unlinked(list, k);
      WithoutAt(list, k);
      list := Without(list, k);
    }

    lemma LinkOf(k: nat)
      requires Shape() && k < |list|
      ensures list[k].next == At(list, k + 1)
    {
    }

    // Unlinks the event with this id, if there is one, calls its finalizer and
    // scans again. Finalizers may create and delete events in turn, with calls
    // nested `depth` deep; at depth 0 they leave the timers alone.
    method DeleteTimeEvent(id: int, clock: Time, depth: nat) returns (r: int)
      requires Shape() && Proper(clock)
      modifies this`timeEventHead, this`timeEventNextId, this`latestTimeEvt, this`list, this`early, this`finalized
      modifies list`next
      ensures Shape() && timeEventNextId >= old(timeEventNextId)
      ensures r == 0 || r == -1
      ensures r == AE_ERR <==> forall p :: 0 <= p < |old(list)| ==> old(list)[p].id != id
      ensures r == AE_ERR ==>
        list == old(list) && latestTimeEvt == old(latestTimeEvt) && timeEventNextId == old(timeEventNextId)
      ensures forall p :: 0 <= p < |list| ==>
        list[p] in old(list) || (fresh(list[p]) && list[p].id >= old(timeEventNextId))
      ensures forall p :: 0 <= p < |list| ==> list[p].id != id
      ensures old(Timely()) ==> Timely()
      ensures old(CacheMember()) ==> CacheMember()
      ensures old(finalized) <= finalized && Finalizes(old(list), list, finalized[|old(finalized)|..])
      ensures forall e :: e in finalized[|old(finalized)|..] ==> e in old(list) || fresh(e)
      ensures r == AE_OK ==> CacheOk()
      ensures r == AE_OK && depth == 0 ==> timeEventNextId == old(timeEventNextId) && exists p ::
        0 <= p < |old(list)| && old(list)[p].id == id && list == Without(old(list), p)
      decreases depth, 2
    {
      hide Earlier, IsNearest, Descending, Timely, Without, CacheOk, CacheMember, Finalizes;
      NoneFinalized(list);
      assert finalized[|finalized|..] == [];
      var prev: TimeEvent? := null;
      var te := timeEventHead;
      ghost var k: nat := 0;
      while te != null
        invariant k <= |list| && te == At(list, k) && list == old(list) && Shape()
        invariant latestTimeEvt == old(latestTimeEvt) && timeEventNextId == old(timeEventNextId)
        invariant old(Timely()) ==> Timely()
        invariant prev == if k == 0 then null else list[k - 1]
        invariant forall p :: 0 <= p < k ==> list[p].id != id
        decreases |list| - k
      {
        if te.id == id {
          Remove(prev, te, clock, depth, k);
          return AE_OK;
        }
        prev := te;
        te, k := te.next, k + 1;
      }
      return AE_ERR;
    }

    // The event found: unlinked, finalized and the cache scanned for anew.
    method Remove(prev: TimeEvent?, te: TimeEvent, clock: Time, depth: nat, ghost k: nat)
      requires Shape() && Proper(clock)
      requires k < |list| && te == list[k] && prev == if k == 0 then null else list[k - 1]
      modifies this`timeEventHead, this`timeEventNextId, this`latestTimeEvt, this`list, this`early, this`finalized
      modifies list`next
      ensures Shape() && timeEventNextId >= old(timeEventNextId) && CacheMember() && CacheOk()
      ensures forall p :: 0 <= p < |list| ==> list[p].id != te.id
      ensures forall p :: 0 <= p < |list| ==>
        list[p] in old(list) || (fresh(list[p]) && list[p].id >= old(timeEventNextId))
      ensures old(Timely()) ==> Timely()
      ensures old(finalized) <= finalized && Finalizes(old(list), list, finalized[|old(finalized)|..])
      ensures forall e :: e in finalized[|old(finalized)|..] ==> e in old(list) || fresh(e)
      ensures |finalized| > |old(finalized)| && finalized[|old(finalized)|] == te
      ensures depth == 0 ==> timeEventNextId == old(timeEventNextId) && list == Without(old(list), k)
      decreases depth, 1
    {
      hide Chained, Earlier, IsNearest, Descending, Timely, Without, Finalizes, CacheOk, CacheMember;
      ghost var c, f := list, finalized;
      BelowNext();
      IdGone(c, k);
      RemovedOne(c, k);
      Unlink(prev, te, k);
      assert forall p :: 0 <= p < |list| ==> list[p] in Without(c, k);
      RunFinalizer(te, clock, depth);
      ghost var more := finalized[|f| + 1..];
      assert finalized[|f|..] == [te] + more;
      FinalizesMore(c, Without(c, k), list, [te], more);
      FindLatestTimeEvt();
    }

    // The finalizer runs while the event is unlinked but not yet freed.
    method RunFinalizer(te: TimeEvent, clock: Time, depth: nat)
      requires Shape() && Proper(clock) && te !in list
      modifies this`timeEventHead, this`timeEventNextId, this`latestTimeEvt, this`list, this`early, this`finalized
      modifies list`next
      ensures Shape() && timeEventNextId >= old(timeEventNextId)
      ensures forall p :: 0 <= p < |list| ==>
        list[p] in old(list) || (fresh(list[p]) && list[p].id >= old(timeEventNextId))
      ensures old(Timely()) ==> Timely()
      ensures old(finalized) + [te] <= finalized
      ensures Finalizes(old(list), list, finalized[|old(finalized)| + 1..])
      ensures forall e :: e in finalized[|old(finalized)| + 1..] ==> e in old(list) || fresh(e)
      ensures depth == 0 ==> timeEventNextId == old(timeEventNextId) && list == old(list)
      decreases depth, 0
    {
      hide Chained, Descending, Timely, Finalizes, CacheOk, CacheMember;
      NoneFinalized(list);
      finalized := finalized + [te];
      assert finalized[|old(finalized)| + 1..] == [];
      if depth > 0 {
        Act(clock, depth - 1);
      }
    }

    static lemma RemovedOne(c: seq<TimeEvent>, k: nat)
      requires Descending(c) && k < |c|
      ensures Finalizes(c, Without(c, k), [c[k]])
    {
      OthersStay(c, k, k);
    }

    lemma IdGone(c: seq<TimeEvent>, k: nat)
      requires Descending(c) && k < |c|
      ensures forall e :: e in Without(c, k) ==> e in c && e.id != c[k].id
    {
    }

    // Whatever a handler or a finalizer may do: creations and deletions, any
    // number of them in any order.
    method Act(clock: Time, depth: nat)
      requires Shape() && Proper(clock)
      modifies this`timeEventHead, this`timeEventNextId, this`latestTimeEvt, this`list, this`early, this`finalized
      modifies list`next
      ensures Shape() && timeEventNextId >= old(timeEventNextId)
      ensures forall p :: 0 <= p < |list| ==>
        list[p] in old(list) || (fresh(list[p]) && list[p].id >= old(timeEventNextId))
      ensures old(Timely()) ==> Timely()
      ensures old(CacheMember()) ==> CacheMember()
      ensures old(CacheOk()) || (exists e :: e in old(list) && e !in list) ==> CacheOk()
      ensures old(finalized) <= finalized && Finalizes(old(list), list, finalized[|old(finalized)|..])
      ensures forall e :: e in finalized[|old(finalized)|..] ==> e in old(list) || fresh(e)
      decreases depth, 3
    {
      hide Chained, Descending, AddMilliseconds, IsNearest, Timely, CacheMember, CacheOk, Finalizes;
      NoneFinalized(list);
      assert finalized[|finalized|..] == [];
      var steps: int := *;
      steps := if steps < 0 then 0 else steps;
      for i := 0 to steps
        invariant Shape() && timeEventNextId >= old(timeEventNextId)
        invariant forall p :: 0 <= p < |list| ==>
          list[p] in old(list) || (fresh(list[p]) && list[p].id >= old(timeEventNextId))
        invariant old(Timely()) ==> Timely()
        invariant old(CacheMember()) ==> CacheMember()
        invariant old(CacheOk()) || (exists e :: e in old(list) && e !in list) ==> CacheOk()
        invariant old(finalized) <= finalized && Finalizes(old(list), list, finalized[|old(finalized)|..])
        invariant forall e :: e in finalized[|old(finalized)|..] ==> e in old(list) || fresh(e)
      {
        ghost var mid, f := list, finalized[|old(finalized)|..];
        if * {
          var delay: int := *;
          var allocOk: bool := *;
          var _ := CreateTimeEvent(delay, clock, allocOk);
          FinalizesGrown(old(list), mid, list, f);
        } else {
          var id: int := *;
          ghost var before := finalized;
          var r := DeleteTimeEvent(id, clock, depth);
          ghost var more := finalized[|before|..];
          assert finalized[|old(finalized)|..] == f + more;
          FinalizesMore(old(list), mid, list, f, more);
        }
      }
    }

    // ---- rescheduling ----

    ghost predicate OthersNotEarlier(te: TimeEvent, t: Time)
      reads this`list, list`when
    {
      forall p :: 0 <= p < |list| && list[p] != te ==> !Earlier(list[p].when, t)
    }

    // The step as it stands: the changed event is compared with the cached one,
    // which may be the event itself.
    method RescheduleAsWritten(te: TimeEvent, delay: int, now: Time)
      requires Shape() && te in list && CacheMember()
      modifies this`latestTimeEvt, this`early, te`when
      ensures Shape() && CacheMember() && te.when == AddMilliseconds(now, delay)
      ensures early == (old(early) || delay < 0)
      ensures old(CacheOk()) ==>
        (CacheOk() <==> te != old(latestTimeEvt) || old(OthersNotEarlier(te, AddMilliseconds(now, delay))))
      ensures old(latestTimeEvt) != null && latestTimeEvt ==
        if te != old(latestTimeEvt) && Earlier(te.when, old(latestTimeEvt).when) then te else old(latestTimeEvt)
      ensures Proper(now) && old(Timely()) ==> Timely()
    {
      hide Earlier, Chained, Descending, AddMilliseconds;
      early := early || delay < 0;
      if Proper(now) { AddIsExact(now, delay); }
      te.when := AddMilliseconds(now, delay);
      ghost var latest := latestTimeEvt;
      UpdateLatestTimeEvt(te);
      if old(CacheOk()) && te != latest {
        NearestAfterChange(list, te, latest);
      }
      assert !Earlier(te.when, te.when) by { NeverEarlier(te.when); }
    }

    // The step with a full scan instead.
    method RescheduleAndScan(te: TimeEvent, delay: int, now: Time)
      requires Shape() && te in list
      modifies this`latestTimeEvt, this`early, te`when
      ensures early == (old(early) || delay < 0)
      ensures Shape() && CacheOk() && te.when == AddMilliseconds(now, delay)
      ensures Proper(now) && old(Timely()) ==> Timely()
    {
      hide AddMilliseconds, CacheOk, Chained, Descending;
      early := early || delay < 0;
      if Proper(now) { AddIsExact(now, delay); }
      te.when := AddMilliseconds(now, delay);
      FindLatestTimeEvt();
    }

    // ---- one pass over the due events ----

    // Events of the list that are due, before or after the reaction to a clock
    // set back.
    ghost function DueSet(back: bool, clock: Time): set<TimeEvent>
      reads this`list, list`when
    {
      set e | e in list && Due(if back then Time(0, e.when.ms) else e.when, clock)
    }

    // Events of the list that the pass still has to fire.
    ghost function Pending(clock: Time, maxId: int): set<TimeEvent>
      reads this`list, list`when
    {
      set e | e in list && e.id <= maxId && Due(e.when, clock)
    }

    // A handler does whatever it likes with the timers, its own event included,
    // and asks for `answer`; `kept` is whether it still has its event.
    method RunHandler(self: TimeEvent, clock: Time, answer: int) returns (kept: bool)
      requires Shape() && CacheMember() && self in list && Proper(clock)
      modifies this`timeEventHead, this`timeEventNextId, this`latestTimeEvt, this`list, this`early, this`finalized
      modifies this`calls, list`next
      ensures Shape() && CacheMember() && timeEventNextId >= old(timeEventNextId)
      ensures forall p :: 0 <= p < |list| ==>
        list[p] in old(list) || (fresh(list[p]) && list[p].id >= old(timeEventNextId))
      ensures old(Timely()) ==> Timely()
      ensures kept <==> self in list
      ensures !kept ==> CacheOk() && forall p :: 0 <= p < |list| ==> list[p].id != self.id
      ensures old(finalized) <= finalized && Finalizes(old(list), list, finalized[|old(finalized)|..])
      ensures forall e :: e in finalized[|old(finalized)|..] ==> e in old(list) || fresh(e)
      ensures calls == old(calls) + [Call(self, Reply(answer, kept), latestTimeEvt)]
    {
      hide Chained, Descending, IsNearest, Timely, CacheMember, CacheOk, Finalizes;
      var depth: int := *;
      ghost var c, next := list, timeEventNextId;
      BelowNext();
      Act(clock, if depth < 0 then 0 else depth);
      kept := Lists(self);
      if !kept { OtherIds(c, next, self); }
      calls := calls + [Call(self, Reply(answer, kept), latestTimeEvt)];
    }

    lemma BelowNext()
      requires Shape()
      ensures Descending(list) && forall p :: 0 <= p < |list| ==> list[p].id < timeEventNextId
    {
    }

    // An event that left the list takes its id along.
    lemma OtherIds(c: seq<TimeEvent>, next: int, te: TimeEvent)
      requires Descending(c) && te in c && te !in list && forall p :: 0 <= p < |c| ==> c[p].id < next
      requires forall p :: 0 <= p < |list| ==> list[p] in c || list[p].id >= next
      ensures forall p :: 0 <= p < |list| ==> list[p].id != te.id
    {
    }

    // Whether an event is in the list: not a step of the code.
    method Lists(te: TimeEvent) returns (found: bool)
      requires Shape()
      ensures found <==> te in list
    {
      hide Descending;
      var e := timeEventHead;
      ghost var k: nat := 0;
      while e != null
        invariant k <= |list| && e == At(list, k) && forall p :: 0 <= p < k ==> list[p] != te
        decreases |list| - k
      {
        if e == te {
          return true;
        }
        LinkOf(k);
        e, k := e.next, k + 1;
      }
      return false;
    }

    // The cache behind the reschedule of the code as it stands, told from the
    // event that was cached before it.
    ghost predicate CacheAsWritten(te: TimeEvent, seen: TimeEvent?)
      reads this`latestTimeEvt, te`when, (if seen == null then {} else {seen})`when
    {
      seen != null && latestTimeEvt == if te != seen && Earlier(te.when, seen.when) then te else seen
    }

    // A fired event that goes on: it stays pending exactly when the delay is not
    // positive.
    method Reschedule(te: TimeEvent, retval: int, clock: Time, recompute: bool, ghost maxId: int)
      requires Shape() && CacheMember() && Proper(clock) && te in Pending(clock, maxId)
      modifies this`latestTimeEvt, this`early, te`when
      ensures Shape() && CacheMember() && te.when == AddMilliseconds(clock, retval)
      ensures Pending(clock, maxId) == old(Pending(clock, maxId)) - if retval > 0 then {te} else {}
      ensures old(Timely()) ==> Timely()
      ensures recompute ==> CacheOk()
      ensures !recompute ==> CacheAsWritten(te, old(latestTimeEvt))
      ensures !recompute && old(CacheOk()) ==>
        (CacheOk() <==> te != old(latestTimeEvt) || old(OthersNotEarlier(te, AddMilliseconds(clock, retval))))
    {
      hide Chained, Descending, Due, AddMilliseconds, Earlier, IsNearest, Timely, OthersNotEarlier;
      if recompute {
        RescheduleAndScan(te, retval, clock);
      } else {
        RescheduleAsWritten(te, retval, clock);
      }
      DueAgain(clock, retval);
    }

    // A fired event that wants no more; its handler may have deleted it already.
    method Discard(ghost te: TimeEvent, id: int, clock: Time, ghost maxId: int)
      requires Shape() && CacheMember() && Proper(clock) && id == te.id && maxId < timeEventNextId
      requires te !in list ==> CacheOk() && forall p :: 0 <= p < |list| ==> list[p].id != id
      modifies this`timeEventHead, this`timeEventNextId, this`latestTimeEvt, this`list, this`early, this`finalized
      modifies list`next
      ensures Shape() && CacheMember() && CacheOk() && te !in list && timeEventNextId >= old(timeEventNextId)
      ensures forall p :: 0 <= p < |list| ==>
        list[p] in old(list) || (fresh(list[p]) && list[p].id >= old(timeEventNextId))
      ensures old(Timely()) ==> Timely()
      ensures old(finalized) <= finalized && Finalizes(old(list), list, finalized[|old(finalized)|..])
      ensures forall e :: e in finalized[|old(finalized)|..] ==> e in old(list) || fresh(e)
    {
      hide Chained, Descending, Earlier, IsNearest, Timely, Finalizes;
      var depth: int := *;
      assert te in list ==> exists p :: 0 <= p < |list| && list[p].id == id;
      var r := DeleteTimeEvent(id, clock, if depth < 0 then 0 else depth);
    }

    // Firing one event calls its handler once, which asks for `answer`; `gone` are
    // the pending events deleted by the handler or by a finalizer. The event is
    // pending again exactly when it was kept and asked for a time that is not in
    // the future, and the code uses a freed event exactly when the handler deleted
    // its own event and did not ask for no more.
    method FireOne(te: TimeEvent, clock: Time, recompute: bool, answer: int, ghost maxId: int)
      returns (reply: Reply, ghost gone: set<TimeEvent>, ghost call: Call)
      requires Shape() && CacheMember() && Proper(clock) && maxId < timeEventNextId
      requires te in Pending(clock, maxId)
      modifies this`timeEventHead, this`timeEventNextId, this`latestTimeEvt, this`list, this`early, this`finalized
      modifies this`calls, list`next, te`when
      ensures Shape() && CacheMember() && timeEventNextId >= old(timeEventNextId)
      ensures calls == old(calls) + [call] && call.te == te && call.reply == reply && reply.result == answer
      ensures te in Pending(clock, maxId) <==> Stays(reply)
      ensures Pending(clock, maxId) == old(Pending(clock, maxId)) - gone - if Stays(reply) then {} else {te}
      ensures gone <= old(Pending(clock, maxId)) - {te} && forall e :: e in gone ==> e !in list
      ensures !reply.kept || answer == -1 ==> te !in list
      ensures reply.kept && answer != -1 ==> te.when == AddMilliseconds(clock, answer)
      ensures forall p :: 0 <= p < |list| ==> list[p] in old(list) || fresh(list[p])
      ensures old(Timely()) ==> Timely()
      ensures recompute || !reply.kept || answer == -1 ==> CacheOk()
      ensures !recompute && reply.kept && answer != -1 ==> CacheAsWritten(te, call.seen)
      ensures old(finalized) <= finalized && Finalizes(old(list), list, finalized[|old(finalized)|..])
      ensures forall e :: e in finalized[|old(finalized)|..] ==> e in old(list) || fresh(e)
    {
      hide Chained, Descending, Due, AddMilliseconds, Earlier, IsNearest, Timely, CacheOk, CacheAsWritten, Finalizes;
      ghost var before := Pending(clock, maxId);
      var id := te.id;
      var kept := RunHandler(te, clock, answer);
      ghost var mid, f, before' := list, finalized[|old(finalized)|..], finalized;
      reply := Reply(answer, kept);
      call := Call(te, reply, latestTimeEvt);
      if answer == AE_NOMORE {
        Discard(te, id, clock, maxId);
        assert finalized[|old(finalized)|..] == f + finalized[|before'|..];
        FinalizesMore(old(list), mid, list, f, finalized[|before'|..]);
      } else if kept {
        Reschedule(te, answer, clock, recompute, maxId);
      }
      gone := before - Pending(clock, maxId) - {te};
    }

    // Each event that fired has left the list or stands at the clock plus what
    // its handler asked for last.
    ghost predicate Settled(log: Log, clock: Time)
      requires |log.fired| == |log.replies|
      reads this`list, log.fired`when
    {
      forall i :: 0 <= i < |log.fired| && log.fired[i] in list && log.fired[i] !in log.fired[i + 1..] ==>
        log.replies[i].result != -1 && log.fired[i].when == AddMilliseconds(clock, log.replies[i].result)
    }

    // The cache behind the last call of a pass of the code as it stands.
    ghost predicate CacheAfter(c: Call)
      reads this`latestTimeEvt, this`list, list`when, c.te`when, (if c.seen == null then {} else {c.seen})`when
    {
      if c.reply.kept && c.reply.result != -1 then CacheAsWritten(c.te, c.seen) else CacheOk()
    }

    // One firing of a pass, with the account of it.
    method FireNext(te: TimeEvent, clock: Time, recompute: bool, answers: seq<int>, n: nat, ghost maxId: int,
                    ghost due: set<TimeEvent>, ghost log: Log, ghost made: seq<Call>,
                    ghost was: seq<TimeEvent>, ghost f: seq<TimeEvent>)
      returns (reply: Reply, ghost next: Log, ghost made': seq<Call>, ghost f': seq<TimeEvent>)
      requires Shape() && CacheMember() && Proper(clock) && maxId < timeEventNextId
      requires IsNewestPending(te, clock, maxId) && log.Accounts(due, Pending(clock, maxId), answers, made)
      requires forall e :: e in log.gone ==> e !in list
      requires Finalizes(was, list, f)
      requires n == |log.fired| == |log.replies| == |made| && Settled(log, clock)
      modifies this`timeEventHead, this`timeEventNextId, this`latestTimeEvt, this`list, this`early, this`finalized
      modifies this`calls, list`next, te`when
      ensures Shape() && CacheMember() && timeEventNextId >= old(timeEventNextId)
      ensures next.Accounts(due, Pending(clock, maxId), answers, made')
      ensures next.fired == log.fired + [te] && |next.replies| == n + 1
      ensures next.NoneFreed() <==> log.NoneFreed() && !UsesFreed(reply)
      ensures Settled(next, clock)
      ensures |made'| == n + 1 && made'[..n] == made && calls == old(calls) + [made'[n]]
      ensures Pending(clock, maxId) <= old(Pending(clock, maxId)) && (te in Pending(clock, maxId) <==> Stays(reply))
      ensures n >= |answers| ==> !Stays(reply)
      ensures forall e :: e in next.gone ==> e !in list
      ensures forall p :: 0 <= p < |list| ==> list[p] in old(list) || fresh(list[p])
      ensures old(Timely()) ==> Timely()
      ensures recompute || UsesFreed(reply) ==> CacheOk()
      ensures !recompute ==> CacheAfter(made'[n])
      ensures Finalizes(was, list, f') && f <= f' && finalized == old(finalized) + f'[|f|..]
    {
      hide Chained, Descending, Due, Timely, CacheOk, CacheMember, CacheAsWritten, AddMilliseconds, Earlier, Finalizes;
      hide Log.Tracks, Log.NoneFreed, Log.Follows;
      ghost var pending := Pending(clock, maxId);
      ghost var g, call;
      ghost var mid, before := list, finalized;
      reply, g, call := FireOne(te, clock, recompute, AnswerAt(answers, n), maxId);
      log.Fire(due, pending, te, reply, g, Pending(clock, maxId));
      log.Called(made, answers, call, g);
      f' := f + finalized[|before|..];
      FinalizesMore(was, mid, list, f, finalized[|before|..]);
      next, made' := log.Then(te, reply, g), made + [call];
      forall i | 0 <= i < n && next.fired[i] !in next.fired[i + 1..]
        ensures next.fired[i] != te && next.fired[i] !in log.fired[i + 1..] && next.replies[i] == log.replies[i]
      {
        assert next.fired[i + 1..] == log.fired[i + 1..] + [te];
      }
    }

    // processTimeEvents after the clock check. `recompute` selects the full scan
    // after a reschedule; false is the code as it stands. `answers` is what the
    // handlers ask for, in the order they are called. `ok` is false when the code
    // uses a freed event.
    method Pass(clock: Time, recompute: bool, answers: seq<int>)
      returns (ok: bool, processed: int, ghost log: Log, ghost made: seq<Call>, ghost f: seq<TimeEvent>)
      requires Shape() && CacheMember() && Proper(clock)
      modifies this`timeEventHead, this`timeEventNextId, this`latestTimeEvt, this`list, this`early, this`finalized
      modifies this`calls, list
      ensures Shape() && CacheMember() && log.Sane() && processed == |log.fired|
      ensures calls == old(calls) + made && log.Matches(made) && log.Follows(answers) && Settled(log, clock)
      ensures ok <==> log.NoneFreed()
      ensures Elems(log.fired) + log.gone <= old(DueSet(false, clock))
      ensures ok ==> Elems(log.fired) + log.gone == old(DueSet(false, clock))
      ensures forall e :: e in log.gone ==> e !in list
      ensures forall p :: 0 <= p < |list| ==> list[p] in old(list) || fresh(list[p])
      ensures forall e :: e in old(list) && e !in log.fired ==> e.when == old(e.when)
      ensures log.fired == [] ==> log.gone == {} && list == old(list) && latestTimeEvt == old(latestTimeEvt)
      ensures old(Timely()) ==> Timely()
      ensures recompute ==> (CacheOk() <==> old(DueSet(false, clock)) != {} || old(CacheOk()))
      ensures !recompute ==> if made == [] then CacheOk() <==> old(CacheOk()) else CacheAfter(made[|made| - 1])
      ensures finalized == old(finalized) + f && Finalizes(old(list), list, f)
    {
      hide Chained, Descending, Due, Earlier, IsNearest, Pending, Timely, Stays, UsesFreed, AnswerAt, AddMilliseconds;
      hide Log.Accounts, Log.Tracks, Log.Sane, Log.NoneFreed, Log.Follows, Log.Matches;
      hide DueSet, Elems, Settled, Shape, Proper, Finalizes, IsNewestPending, CacheOk, CacheMember, CacheAfter;
      NoneFinalized(list);
      ok, processed, log, made, f := true, 0, Log([], [], {}), [], [];
      var maxId := timeEventNextId - 1;
      ghost var due := Pending(clock, maxId);
      AllPending(clock);
      log.Start(due, answers);
      SettledNone(clock);
      var te := timeEventHead;
      ghost var k: nat := 0;
      HeadAt();
      while te != null
        invariant Shape() && CacheMember() && maxId < timeEventNextId && k <= |list| && te == At(list, k)
        invariant forall p :: 0 <= p < k ==> list[p] !in Pending(clock, maxId)
        invariant forall p :: 0 <= p < |list| ==> list[p] in old(list) || fresh(list[p])
        invariant log.Accounts(due, Pending(clock, maxId), answers, made) && log.NoneFreed()
        invariant calls == old(calls) + made && finalized == old(finalized) + f && Finalizes(old(list), list, f)
        invariant processed == |log.fired| == |log.replies| == |made| && Settled(log, clock)
        invariant forall e :: e in log.gone ==> e !in list
        invariant forall e :: e in old(list) && e !in log.fired ==> e.when == old(e.when)
        invariant log.fired == [] ==> log.gone == {} && list == old(list) && latestTimeEvt == old(latestTimeEvt)
        invariant old(Timely()) ==> Timely()
        invariant log.fired != [] ==> if recompute then CacheOk() else CacheAfter(made[|made| - 1])
        decreases if processed < |answers| then |answers| - processed else 0, Pending(clock, maxId), |list| - k
      {
        PendingAt(k, clock, maxId);
        if te.id <= maxId && Due(te.when, clock) {
          NewestPending(k, clock, maxId);
          var reply, next, all, f' := FireNext(te, clock, recompute, answers, processed, maxId, due, log, made,
                                               old(list), f);
          assert old(calls) + made + [all[|made|]] == old(calls) + all;
          processed, log, made, f := processed + 1, next, all, f';
          if UsesFreed(reply) {
            ok := false;
            break;
          }
          HeadAt();
          te, k := timeEventHead, 0;
        } else {
          LinkOf(k);
          te, k := te.next, k + 1;
        }
      }
      if ok { NonePending(clock, maxId); }
      log.Finish(due, Pending(clock, maxId), answers, made);
      if log.fired == [] { SameCache(); }
    }

    ghost predicate IsNewestPending(te: TimeEvent, clock: Time, maxId: int)
      reads this`list, list`when
    {
      te in Pending(clock, maxId) && forall e :: e in Pending(clock, maxId) ==> te.id >= e.id
    }

    lemma HeadAt()
      requires Shape()
      ensures timeEventHead == At(list, 0)
    {
    }

    lemma SettledNone(clock: Time)
      ensures Settled(Log([], [], {}), clock)
    {
    }

    // The first pending event of the list is the newest.
    lemma NewestPending(k: nat, clock: Time, maxId: int)
      requires Shape() && k < |list| && forall p :: 0 <= p < k ==> list[p] !in Pending(clock, maxId)
      ensures list[k] in Pending(clock, maxId) ==> IsNewestPending(list[k], clock, maxId)
    {
      forall e | e in Pending(clock, maxId) ensures list[k].id >= e.id {
        var q :| 0 <= q < |list| && list[q] == e;
      }
    }

    // The cache agrees as long as neither list, times nor cache change.
    twostate lemma SameCache()
      requires list == old(list) && latestTimeEvt == old(latestTimeEvt)
      requires forall e :: e in list ==> e.when == old(e.when)
      ensures CacheOk() <==> old(CacheOk())
    {
    }

    lemma PendingAt(k: nat, clock: Time, maxId: int)
      requires k < |list|
      ensures list[k] in Pending(clock, maxId) <==> list[k].id <= maxId && Due(list[k].when, clock)
    {
    }

    lemma AllPending(clock: Time)
      requires Shape()
      ensures Pending(clock, timeEventNextId - 1) == DueSet(false, clock)
    {
    }

    lemma NonePending(clock: Time, maxId: int)
      requires forall p :: 0 <= p < |list| ==> list[p] !in Pending(clock, maxId)
      ensures Pending(clock, maxId) == {}
    {
    }

    // The reaction to a clock set back: every event becomes due at second 0.
    method ForceDue()
      requires Shape()
      modifies list`when
      ensures Shape() && forall e :: e in list ==> e.when == Time(0, old(e.when.ms))
      ensures old(Timely()) ==> Timely()
    {
      var te := timeEventHead;
      ghost var k: nat := 0;
      while te != null
        invariant Shape() && k <= |list| && te == At(list, k)
        invariant forall p :: 0 <= p < |list| ==>
          list[p].when == if p < k then Time(0, old(list[p].when.ms)) else old(list[p].when)
        decreases |list| - k
      {
        OnlyAt(list, k);
        te.when := Time(0, te.when.ms);
        LinkOf(k);
        te, k := te.next, k + 1;
      }
    }

    // No event has fewer milliseconds than the cached one.
    ghost predicate LeastMs()
      reads this`latestTimeEvt, this`list, list`when
    {
      list == [] || (latestTimeEvt in list && forall p :: 0 <= p < |list| ==> latestTimeEvt.when.ms <= list[p].when.ms)
    }

    // With the clock past the epoch, every event is due after it was set back.
    lemma SetBackIsDue(clock: Time)
      requires clock.sec > 0
      ensures DueSet(true, clock) == Elems(list) && (list != [] ==> DueSet(true, clock) != {})
    {
      assert list != [] ==> list[0] in DueSet(true, clock);
    }

    // After ForceDue only the milliseconds are compared.
    lemma ForcedNearest()
      requires CacheMember() && forall p :: 0 <= p < |list| ==> list[p].when.sec == 0
      ensures CacheOk() <==> LeastMs()
    {
    }

    // The clock check; `now` is time(NULL).
    method CheckClock(now: int, ghost clock: Time)
      requires Shape() && CacheMember()
      modifies this`lastTime, list`when
      ensures Shape() && CacheMember() && lastTime == now && (old(Timely()) ==> Timely())
      ensures forall e :: e in list ==> e.when == old(if now < lastTime then Time(0, e.when.ms) else e.when)
      ensures DueSet(false, clock) == old(DueSet(now < lastTime, clock))
      ensures CacheOk() <==> old(if now < lastTime then LeastMs() else CacheOk())
    {
      hide Chained, Descending, Due, Timely, CacheOk;
      if now < lastTime {
        ForceDue();
        ForcedNearest();
      }
      lastTime := now;
    }

    // processTimeEvents; `clock` is the time of day, which stands still during
    // the pass. After the clock was set back the cache is right again when some
    // event is due, and otherwise exactly when the cached event has the fewest
    // milliseconds.
    method ProcessTimeEvents(now: int, clock: Time, recompute: bool, answers: seq<int>)
      returns (ok: bool, processed: int, ghost log: Log, ghost made: seq<Call>, ghost f: seq<TimeEvent>)
      requires Shape() && CacheMember() && Proper(clock)
      modifies this, list
      ensures Shape() && CacheMember() && log.Sane() && processed == |log.fired| && lastTime == now
      ensures calls == old(calls) + made && log.Matches(made) && log.Follows(answers) && Settled(log, clock)
      ensures ok <==> log.NoneFreed()
      ensures Elems(log.fired) + log.gone <= old(DueSet(now < lastTime, clock))
      ensures ok ==> Elems(log.fired) + log.gone == old(DueSet(now < lastTime, clock))
      ensures forall e :: e in log.gone ==> e !in list
      ensures forall p :: 0 <= p < |list| ==> list[p] in old(list) || fresh(list[p])
      ensures forall e :: e in old(list) && e !in log.fired ==>
        e.when == old(if now < lastTime then Time(0, e.when.ms) else e.when)
      ensures log.fired == [] ==> log.gone == {} && list == old(list) && latestTimeEvt == old(latestTimeEvt)
      ensures old(Timely()) ==> Timely()
      ensures recompute ==> (CacheOk() <==>
        old(DueSet(now < lastTime, clock)) != {} || old(if now < lastTime then LeastMs() else CacheOk()))
      ensures !recompute ==>
        if made == [] then CacheOk() <==> old(if now < lastTime then LeastMs() else CacheOk())
        else CacheAfter(made[|made| - 1])
      ensures finalized == old(finalized) + f && Finalizes(old(list), list, f)
    {
      hide Chained, Descending, Due, Earlier, IsNearest, Timely, CacheOk, LeastMs, DueSet, CacheAfter, Settled;
      hide Finalizes, Log.Sane, Log.NoneFreed, Log.Follows, Log.Matches;
      CheckClock(now, clock);
      ok, processed, log, made, f := Pass(clock, recompute, answers);
    }

    method Perform(op: Op, recompute: bool) returns (ok: bool)
      requires Shape() && CacheMember() && Timely() && ClockReads(op)
      modifies this, list
      ensures Shape() && CacheMember() && Timely() && (!ok ==> op.Process?)
      ensures lastTime == if op.Process? then op.now else old(lastTime)
      ensures forall p :: 0 <= p < |list| ==> list[p] in old(list) || fresh(list[p])
      ensures recompute && old(CacheOk()) && (op.Process? ==> op.clock.sec > 0 || old(lastTime) <= op.now) ==> CacheOk()
    {
      hide Chained, Descending, IsNearest, Due, AddMilliseconds, Timely, Log.Sane, CacheAfter, Settled, Finalizes;
      ok := true;
      match op
      case Create(delay, clock, allocOk) =>
        var _ := CreateTimeEvent(delay, clock, allocOk);
      case Delete(id, clock, depth) =>
        var _ := DeleteTimeEvent(id, clock, depth);
      case Process(now, clock, answers) =>
        if clock.sec > 0 { SetBackIsDue(clock); }
        var fine, _, log, made, f := ProcessTimeEvents(now, clock, recompute, answers);
        ok := fine;
    }

    // What aeProcessEvents does before it looks at events: whether it polls at
    // all, and the timeout that reaches epoll, -1 for none.
    method PollTimeout(clock: Time, files: bool, times: bool, dontWait: bool, maxfd: int)
      returns (polls: bool, timeout: int)
      requires Shape() && CacheMember() && Proper(clock)
      ensures polls <==> (files || times) && (maxfd != -1 || (times && !dontWait))
      ensures polls && dontWait ==> timeout == 0
      ensures polls && !dontWait && (!times || list == []) ==> timeout == -1
      ensures polls && !dontWait && times && list != [] && Timely() ==> WaitsFor(timeout, latestTimeEvt.when, clock)
    {
      hide Chained, Descending;
      if !times && !files {
        return false, 0;
      }
      if maxfd == -1 && (!times || dontWait) {
        return false, 0;
      }
      var shortest := if times && !dontWait then latestTimeEvt else null;
      if shortest == null {
        return true, if dontWait then 0 else -1;
      }
      var when := shortest.when;
      if InRange(when) {
        if Total(when) >= Total(clock) {
          WaitIsExact(when, clock);
        } else {
          OverdueWait(when, clock);
        }
      }
      return true, EpollTimeout(when, clock);
    }

    // The cached event has the least time in milliseconds.
    lemma NearestInMilliseconds()
      requires CacheOk() && Timely() && !early && list != []
      ensures Proper(latestTimeEvt.when)
      ensures forall p :: 0 <= p < |list| ==> Total(latestTimeEvt.when) <= Total(list[p].when)
    {
      var q :| 0 <= q < |list| && list[q] == latestTimeEvt;
      forall p | 0 <= p < |list| ensures Total(latestTimeEvt.when) <= Total(list[p].when) {
        OrderIsTotal(list[p].when, latestTimeEvt.when);
      }
    }
  }

  // ---- whole runs ----

  datatype Op =
    | Create(delay: int, clock: Time, allocOk: bool)
    | Delete(id: int, clock: Time, depth: nat)
    | Process(now: int, clock: Time, answers: seq<int>)

  // The time of day has milliseconds in range.
  ghost predicate ClockReads(op: Op) {
    match op
    case Create(_, clock, _) => Proper(clock)
    case Delete(_, clock, _) => Proper(clock)
    case Process(_, clock, _) => Proper(clock)
  }

  // The second the last pass was made in.
  function LastNow(start: int, ops: seq<Op>): int {
    if ops == [] then start
    else
      var op := ops[|ops| - 1];
      if op.Process? then op.now else LastNow(start, ops[..|ops| - 1])
  }

  // No pass sees a clock that was set back to the epoch or before it.
  predicate AfterEpoch(start: int, ops: seq<Op>) {
    ops == []
    || (var op, front := ops[|ops| - 1], ops[..|ops| - 1];
        AfterEpoch(start, front) && (op.Process? ==> op.clock.sec > 0 || LastNow(start, front) <= op.now))
  }

  // Any run of calls, whatever handlers and finalizers do, up to the first pass
  // in which the code uses a freed event. The list keeps its shape, and the cache
  // names one of its events. With the scan after a reschedule the cached timer
  // always agrees with a scan of the whole list, also when the clock is set back.
  method Run(start: int, ops: seq<Op>, recompute: bool) returns (t: Timers, ok: bool, done: nat)
    requires forall i :: 0 <= i < |ops| ==> ClockReads(ops[i])
    ensures done <= |ops| && (ok ==> done == |ops|) && (!ok ==> 0 < done && ops[done - 1].Process?)
    ensures fresh(t) && t.Shape() && t.CacheMember() && t.Timely() && t.lastTime == LastNow(start, ops[..done])
    ensures recompute && AfterEpoch(start, ops[..done]) ==> t.CacheOk()
  {
    t := new Timers(start);
    ok, done := true, 0;
    while done < |ops|
      invariant done <= |ops|
      invariant t.Shape() && t.CacheMember() && t.Timely() && t.lastTime == LastNow(start, ops[..done])
      invariant fresh(t) && forall p :: 0 <= p < |t.list| ==> fresh(t.list[p])
      invariant recompute && AfterEpoch(start, ops[..done]) ==> t.CacheOk()
    {
      assert ops[..done + 1][..done] == ops[..done];
      ok := t.Perform(ops[done], recompute);
      done := done + 1;
      if !ok {
        return;
      }
    }
  }

  // Any run of calls and then the wait: without negative delays it ends with the
  // nearest timer.
  method RunThenPoll(start: int, ops: seq<Op>, clock: Time) returns (t: Timers, ok: bool, timeout: int)
    requires (forall i :: 0 <= i < |ops| ==> ClockReads(ops[i])) && Proper(clock)
    ensures t.Shape() && t.CacheMember()
    ensures t.list == [] ==> timeout == -1
    ensures ok && t.list != [] && !t.early && AfterEpoch(start, ops) ==>
      && t.latestTimeEvt in t.list && Proper(t.latestTimeEvt.when) && WaitsFor(timeout, t.latestTimeEvt.when, clock)
      && forall p :: 0 <= p < |t.list| ==> Total(t.latestTimeEvt.when) <= Total(t.list[p].when)
  {
    hide AfterEpoch, LastNow, WaitsFor, Total, Proper, IsNearest;
    var done;
    t, ok, done := Run(start, ops, true);
    assert ops[..|ops|] == ops;
    if ok && t.list != [] && !t.early && AfterEpoch(start, ops) {
      t.NearestInMilliseconds();
    }
    var _, wait := t.PollTimeout(clock, true, true, false, -1);
    timeout := wait;
  }

  // ---- runs that leave the cache wrong ----

  method TwoTimers(soon: int, late: int) returns (t: Timers, near: TimeEvent, far: TimeEvent)
    requires 0 <= soon < late
    ensures fresh(t) && fresh(near) && fresh(far) && near != far && t.lastTime == 0
    ensures t.Shape() && t.CacheOk() && t.list == [far, near] && t.latestTimeEvt == near
    ensures near.when == AddMilliseconds(Time(0, 0), soon) && far.when == AddMilliseconds(Time(0, 0), late)
  {
    LaterDelay(Time(0, 0), soon, late);
    hide Chained, Descending, Earlier, AddMilliseconds;
    t := new Timers(0);
    var _ := t.CreateTimeEvent(soon, Time(0, 0), true);
    near := t.timeEventHead;
    var _ := t.CreateTimeEvent(late, Time(0, 0), true);
    far := t.timeEventHead;
    assert t.list[1] == near;
  }

  // The nearer of two timers fires and asks for a later time: the step as it
  // stands leaves the cache on it although the other one is now nearer.
  method StaleCacheWitness() returns (t: Timers)
    ensures t.Shape() && t.CacheMember() && !t.CacheOk()
  {
    var near, far;
    t, near, far := TwoTimers(10, 20);
    FortyIsLater();
    hide Timers.Shape, Timers.CacheOk, Timers.CacheMember, Earlier, AddMilliseconds;
    assert t.list[0] == far;
    t.RescheduleAsWritten(near, 30, Time(0, 10));
  }

  lemma FortyIsLater()
    ensures Earlier(AddMilliseconds(Time(0, 0), 20), AddMilliseconds(Time(0, 10), 30))
  {
    hide AddMilliseconds;
    AddParts(Time(0, 0), 0, 20);
    AddParts(Time(0, 10), 0, 30);
  }

  method ForcedTimers() returns (t: Timers, near: TimeEvent, far: TimeEvent)
    ensures fresh(t) && fresh(near) && fresh(far) && near != far
    ensures t.Shape() && t.CacheOk() && t.list == [far, near] && t.latestTimeEvt == near
    ensures near.when == Time(0, 10) && far.when == Time(0, 20)
  {
    TenAndTwenty();
    hide Chained, Descending, AddMilliseconds;
    t, near, far := TwoTimers(10, 20);
    assert t.list[0] == far && t.list[1] == near;
    t.ForceDue();
  }

  // After the clock was set back: both timers are due and ask for a later time,
  // the one that is not cached first. As the step stands the cache stays on the
  // other, also with a clock past the epoch.
  method SetBackStaleWitness() returns (t: Timers)
    ensures t.Shape() && t.CacheMember() && !t.CacheOk()
  {
    var near, far;
    t, near, far := ForcedTimers();
    SecondIsLater();
    hide Chained, Descending, Earlier, AddMilliseconds, Timers.Shape;
    assert t.list[0] == far && t.list[1] == near;
    t.RescheduleAsWritten(far, 30, Time(5, 0));
    assert t.latestTimeEvt == near;
    hide IsNearest, Timers.CacheOk, Timers.CacheMember;
    t.RescheduleAsWritten(near, 1000, Time(5, 0));
  }

  lemma TenAndTwenty()
    ensures AddMilliseconds(Time(0, 0), 10) == Time(0, 10) && AddMilliseconds(Time(0, 0), 20) == Time(0, 20)
    ensures Earlier(Time(0, 10), Time(0, 20)) && !Earlier(Time(0, 20), Time(0, 10))
  {
    hide AddMilliseconds;
    AddParts(Time(0, 0), 0, 10);
    AddParts(Time(0, 0), 0, 20);
  }

  lemma SecondIsLater()
    ensures Earlier(AddMilliseconds(Time(5, 0), 30), AddMilliseconds(Time(5, 0), 1000))
    ensures Earlier(Time(0, 10), AddMilliseconds(Time(5, 0), 30))
  {
    hide AddMilliseconds;
    AddParts(Time(5, 0), 0, 30);
    AddParts(Time(5, 0), 1, 0);
  }

  // The clock is set back to before the epoch: nothing fires, and the forced
  // times are ordered by their milliseconds, 5 before 10.
  method BeforeEpochWitness() returns (t: Timers)
    ensures t.Shape() && t.CacheMember() && !t.CacheOk()
  {
    hide Chained, Descending, IsNearest, AddMilliseconds, Timers.LeastMs, Timers.DueSet;
    var near, far;
    t, near, far := TwoTimers(10, 1005);
    FewerMilliseconds(t, near, far);
    var _, _, _, _, _ := t.ProcessTimeEvents(-1, Time(-1, 0), true, []);
  }

  lemma FewerMilliseconds(t: Timers, near: TimeEvent, far: TimeEvent)
    requires t.list == [far, near] && t.latestTimeEvt == near
    requires near.when == AddMilliseconds(Time(0, 0), 10) && far.when == AddMilliseconds(Time(0, 0), 1005)
    ensures !t.LeastMs() && t.DueSet(true, Time(-1, 0)) == {}
  {
    hide AddMilliseconds;
    AddParts(Time(0, 0), 0, 10);
    AddParts(Time(0, 0), 1, 5);
    assert t.list[0].when == Time(1, 5) && near.when == Time(0, 10);
  }
}

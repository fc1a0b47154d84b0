/** The timer list of `timeouts.c`: sorted by 32-bit times that wrap around.

    Every pending timeout also has a deadline that does not wrap around, known to the proof only.  The list
    is sorted by deadlines, as long as the times compared lie less than half the range of `u32_t` apart. */
module Timeouts {

  const U32: nat := 0x1_0000_0000
  const MAX_TIMEOUT: nat := 0x7fff_ffff
  /** `LWIP_UINT32_MAX / 4`, the longest timeout that `sys_timeout` accepts */
  const LONGEST: nat := 0x3fff_ffff
  /** how far the clock may get ahead of a pending deadline */
  const GAP: nat := 0x4000_0000

  type u32 = n: nat | n < 0x1_0000_0000

  /** A moment as `sys_now` and the timer list represent it. */
  function Wrap(t: nat): u32 {
    t % U32
  }

  /** The macro `TIME_LESS_THAN`. */
  predicate TimeLessThan(t: u32, compareTo: u32) {
    (t - compareTo) % U32 > MAX_TIMEOUT
  }

  /** Comparing wrapped moments is right exactly if they are close enough. */
  lemma ComparesMoments(a: nat, b: nat)
    requires a < b + U32 && b < a + U32
    ensures (TimeLessThan(Wrap(a), Wrap(b)) <==> a < b) <==> (a < b + U32 / 2 && b <= a + U32 / 2)
  {
    assert (Wrap(a) - Wrap(b)) % U32 == (a - b) % U32;
  }

  /** Without such a bound the macro does not order moments at all: each of these is less than the next. */
  lemma NotTransitive()
    ensures TimeLessThan(0, 0x6000_0000) && TimeLessThan(0x6000_0000, 0xc000_0000) && TimeLessThan(0xc000_0000, 0)
  {
  }

  /** What a timeout calls: any handler, or `lwip_cyclic_timer` with a positive interval. */
  datatype Handler = Plain(id: int) | Cyclic(id: int, interval: nat)

  predicate GoodHandler(h: Handler) {
    h.Cyclic? ==> 0 < h.interval <= LONGEST
  }

  /** A call of `sys_timeout` by a handler, with the deadline that it sets. */
  datatype Request = Request(deadline: nat, h: Handler, arg: int)

  /** Requests with positive delays that a handler makes between the moments `now` and `after`. */
  ghost predicate GoodRequests(rs: seq<Request>, now: nat, after: nat) {
    forall i :: 0 <= i < |rs| ==> now < rs[i].deadline <= after + LONGEST && GoodHandler(rs[i].h)
  }

  /** `struct sys_timeo` */
  datatype Timeo = Timeo(time: u32, h: Handler, arg: int)

  // --- Sorted lists -----------------------------------------------------------------------------------------------

  ghost predicate Sorted(due: seq<nat>) {
    forall i, j :: 0 <= i < j < |due| ==> due[i] <= due[j]
  }

  /** The entries carry the deadlines, wrapped around. */
  ghost predicate Carries(list: seq<Timeo>, due: seq<nat>) {
    |list| == |due| && forall i :: 0 <= i < |list| ==> list[i].time == Wrap(due[i])
  }

  /** Where an entry with deadline `d` belongs: after all those that are due no later. */
  function Position(due: seq<nat>, d: nat): (p: nat)
    ensures p <= |due|
    ensures forall i :: 0 <= i < p ==> due[i] <= d
    ensures p < |due| ==> d < due[p]
  {
    if due == [] || d < due[0] then 0 else 1 + Position(due[1..], d)
  }

  function Inserted<T>(s: seq<T>, p: nat, x: T): seq<T>
    requires p <= |s|
  {
    s[..p] + [x] + s[p..]
  }

  function Removed<T>(s: seq<T>, p: nat): seq<T>
    requires p < |s|
  {
    s[..p] + s[p + 1..]
  }

  lemma InsertedSorted(due: seq<nat>, d: nat)
    requires Sorted(due)
    ensures Sorted(Inserted(due, Position(due, d), d))
  {
    var p := Position(due, d);
    forall i | p <= i < |due| ensures d <= due[i] {
      assert p < i ==> due[p] <= due[i];
    }
  }

  lemma InsertedCarries(list: seq<Timeo>, due: seq<nat>, p: nat, e: Timeo, d: nat)
    requires Carries(list, due) && p <= |list| && e.time == Wrap(d) && GoodHandler(e.h)
    requires forall i :: 0 <= i < |list| ==> GoodHandler(list[i].h)
    ensures Carries(Inserted(list, p, e), Inserted(due, p, d))
    ensures forall i :: 0 <= i <= |list| ==> GoodHandler(Inserted(list, p, e)[i].h)
  {
  }

  lemma {:induction false} PositionIs(due: seq<nat>, d: nat, m: nat)
    requires m <= |due| && (forall i :: 0 <= i < m ==> due[i] <= d) && (forall i :: m <= i < |due| ==> d < due[i])
    ensures Position(due, d) == m
  {
    if m > 0 {
      PositionIs(due[1..], d, m - 1);
    }
  }

  lemma PositionUnique(due: seq<nat>, d: nat, p: nat)
    requires p <= |due| && Sorted(due)
    requires p > 0 ==> due[p - 1] <= d
    requires p < |due| ==> d < due[p]
    ensures Position(due, d) == p
  {
    var q := Position(due, d);
    if q < p {
      assert false;
    }
  }

  /** The index of the first entry with the given handler and argument. */
  function FirstMatch(list: seq<Timeo>, h: Handler, arg: int): (k: nat)
    ensures k <= |list| && (k < |list| ==> list[k].h == h && list[k].arg == arg)
    ensures forall i :: 0 <= i < k ==> !(list[i].h == h && list[i].arg == arg)
  {
    if list == [] || (list[0].h == h && list[0].arg == arg) then 0 else 1 + FirstMatch(list[1..], h, arg)
  }

  /** All deadlines are close enough to the moment `now` for comparisons to be right. */
  ghost predicate Near(due: seq<nat>, now: nat) {
    forall i :: 0 <= i < |due| ==> now < due[i] + GAP && due[i] <= now + LONGEST
  }

  // --- The timer list ---------------------------------------------------------------------------------------------

  class Timers {
    var list: seq<Timeo>
    var currentDue: u32
    ghost var due: seq<nat>

    ghost predicate Valid()
      reads this
    {
      Carries(list, due) && Sorted(due) && forall i :: 0 <= i < |list| ==> GoodHandler(list[i].h)
    }

    /** `sys_timeout_abs`: a stable insertion. */
    method TimeoutAbs(absTime: u32, h: Handler, arg: int, ghost d: nat)
      requires Valid() && absTime == Wrap(d) && GoodHandler(h)
      requires forall i :: 0 <= i < |due| ==> d < due[i] + U32 / 2 && due[i] <= d + U32 / 2
      modifies this`list, this`due
      ensures Valid()
      ensures var p := Position(old(due), d);
        due == Inserted(old(due), p, d) && list == Inserted(old(list), p, Timeo(absTime, h, arg))
    {
      var timeout := Timeo(absTime, h, arg);
      var p := FindPosition(absTime, d);
      InsertedSorted(due, d);
      InsertedCarries(list, due, p, timeout, d);
      list, due := Inserted(list, p, timeout), Inserted(due, p, d);
    }

    /** The search loop of `sys_timeout_abs`: how many entries stay before the new one. */
    method FindPosition(time: u32, ghost d: nat) returns (p: nat)
      requires Valid() && time == Wrap(d)
      requires forall i :: 0 <= i < |due| ==> d < due[i] + U32 / 2 && due[i] <= d + U32 / 2
      ensures p == Position(due, d)
    {
      hide Wrap, TimeLessThan;
      if list == [] {
        return 0;
      }
      ComparesMoments(d, due[0]);
      if TimeLessThan(time, list[0].time) {
        PositionUnique(due, d, 0);
        return 0;
      }
      p := 1;
      while p < |list|
        invariant 1 <= p <= |list| && due[p - 1] <= d
      {
        ComparesMoments(d, due[p]);
        if TimeLessThan(time, list[p].time) {
          break;
        }
        p := p + 1;
      }
      PositionUnique(due, d, p);
    }

    /** `sys_timeout`, called at the moment `now`. */
    method Timeout(msecs: nat, h: Handler, arg: int, now: nat)
      requires Valid() && msecs <= LONGEST && GoodHandler(h) && Near(due, now)
      modifies this`list, this`due
      ensures Valid() && Near(due, now)
      ensures var p := Position(old(due), now + msecs);
        due == Inserted(old(due), p, now + msecs) && list == Inserted(old(list), p, Timeo(Wrap(now + msecs), h, arg))
    {
      TimeoutAbs(Wrap(now + msecs), h, arg, now + msecs);
    }

    /** `sys_untimeout` removes the first matching entry and nothing else. */
    method Untimeout(h: Handler, arg: int)
      requires Valid()
      modifies this`list, this`due
      ensures Valid()
      ensures var k := FirstMatch(old(list), h, arg);
        if k < |old(list)| then list == Removed(old(list), k) && due == Removed(old(due), k)
        else list == old(list) && due == old(due)
    {
      hide Wrap, Removed;
      ghost var k := FirstMatch(list, h, arg);
      var t := 0;
      while t < |list|
        invariant 0 <= t <= |list| && t <= k
      {
        if list[t].h == h && list[t].arg == arg {
          RemovedIsValid(list, due, t);
          list, due := Removed(list, t), Removed(due, t);
          return;
        }
        t := t + 1;
      }
    }

    /** `sys_restart_timeouts`: all deadlines move, by the same amount, so that the first is due now.  This
        needs no bound on how long ago the list was looked at. */
    method RestartTimeouts(now: nat)
      requires Valid() && (due != [] ==> due[|due| - 1] - due[0] < U32)
      modifies this`list, this`due
      ensures Valid() && |due| == |old(due)| && |list| == |old(list)|
      ensures forall i :: 0 <= i < |due| ==> due[i] == old(due)[i] - old(due)[0] + now
      ensures forall i :: 0 <= i < |list| ==> list[i] == old(list)[i].(time := Wrap(due[i]))
    {
      hide Wrap;
      if list == [] {
        return;
      }
      assert forall i :: 0 <= i < |due| ==> due[0] <= due[i] <= due[|due| - 1];
      var base := list[0].time;
      var t := 0;
      ghost var before, was := list, due;
      ghost var moved: seq<nat> := seq(|was|, i requires 0 <= i < |was| => was[i] - was[0] + now);
      due := moved;
      while t < |list|
        invariant due == moved && 0 <= t <= |list| == |before|
        invariant forall i :: 0 <= i < t ==> list[i] == before[i].(time := Wrap(due[i]))
        invariant forall i :: t <= i < |list| ==> list[i] == before[i]
      {
        Rebases(was[t], was[0], now);
        list := list[t := list[t].(time := ((list[t].time - base) % U32 + Wrap(now)) % U32)];
        t := t + 1;
      }
    }

    /** `sys_timeouts_sleeptime`: the time to the first deadline, so that no pending entry is slept past. */
    method SleepTime(now: nat) returns (r: u32)
      requires Valid() && Near(due, now)
      ensures due == [] ==> r == 0xffff_ffff
      ensures due != [] ==> r == if due[0] < now then 0 else due[0] - now
      ensures forall i :: 0 <= i < |due| && now < due[i] ==> now + r <= due[i]
    {
      if list == [] {
        return 0xffff_ffff;
      }
      ComparesMoments(due[0], now);
      Difference(due[0], now);
      if TimeLessThan(list[0].time, Wrap(now)) {
        return 0;
      } else {
        return (list[0].time - Wrap(now)) % U32;
      }
    }

    // --- Firing ---------------------------------------------------------------------------------------------------

    /** Run the first entry of the list.  Its handler makes the given requests and returns at the moment `after`. */
    method FireFirst(after: nat, requests: seq<Request>, ghost now: nat) returns (e: Timeo)
      requires Valid() && due != [] && due[0] <= now <= after < due[0] + GAP && GoodRequests(requests, now, after)
      requires forall i :: 0 <= i < |due| ==> due[i] <= after + LONGEST
      modifies this
      ensures Valid() && e == old(list)[0] && currentDue == e.time
      ensures Fires(old(list), old(due), after, requests, list, due)
    {
      hide Wrap, TimeLessThan, Position, Inserted, AllRequests;
      e := list[0];
      ghost var d := due[0];
      assert GoodHandler(e.h) && forall i :: 0 <= i < |due| ==> d <= due[i];
      TailIsValid(list, due);
      list, due := list[1..], due[1..];
      currentDue := e.time;
      ghost var tail := Stage(list, due);
      MakeRequests(requests, d, now, after);
      CallCyclic(e, after, d);
      AllRequestsIs(e, d, after, requests);
      AddAllConcat(tail, requests, CyclicRequest(e, d, after));
    }

    /** The calls of `sys_timeout` that a handler makes. */
    method MakeRequests(requests: seq<Request>, ghost d: nat, ghost now: nat, ghost after: nat)
      requires Valid() && d <= now <= after < d + GAP && GoodRequests(requests, now, after)
      requires forall i :: 0 <= i < |due| ==> d <= due[i] <= after + LONGEST
      modifies this`list, this`due
      ensures Valid() && Stage(list, due) == AddAll(old(Stage(list, due)), requests)
      ensures forall i :: 0 <= i < |due| ==> d <= due[i] <= after + LONGEST
    {
      hide Wrap, TimeLessThan, Position, Inserted, AddAll;
      ghost var st := Stage(list, due);
      AddNone(st);
      for i := 0 to |requests|
        invariant Valid() && Stage(list, due) == AddAll(st, requests[..i])
        invariant forall j :: 0 <= j < |due| ==> d <= due[j] <= after + LONGEST
      {
        var r := requests[i];
        ghost var before := Stage(list, due);
        AddSnoc(st, requests, i);
        TimeoutAbs(Wrap(r.deadline), r.h, r.arg, r.deadline);
        PutBounds(before, r, d, after + LONGEST);
      }
      assert requests[..|requests|] == requests;
    }

    /** What `lwip_cyclic_timer` does to the list after its handler, for an entry that was due at `d`. */
    method CallCyclic(e: Timeo, after: nat, ghost d: nat)
      requires Valid() && GoodHandler(e.h) && currentDue == Wrap(d) && d <= after < d + GAP
      requires forall i :: 0 <= i < |due| ==> d <= due[i] <= after + LONGEST
      modifies this`list, this`due
      ensures Valid() && Stage(list, due) == AddAll(old(Stage(list, due)), CyclicRequest(e, d, after))
      ensures e.h.Cyclic? ==>
        CyclicRequest(e, d, after) == [Request((if after <= d + e.h.interval then d else after) + e.h.interval, e.h, e.arg)]
      ensures !e.h.Cyclic? ==> list == old(list) && due == old(due)
    {
      hide Wrap, TimeLessThan, Position, Inserted, AddAll;
      AddNone(Stage(list, due));
      if e.h.Cyclic? {
        AddOne(Stage(list, due), CyclicRequest(e, d, after)[0]);
        var next := (currentDue + e.h.interval) % U32;
        WrapAdd(d, e.h.interval);
        ComparesMoments(d + e.h.interval, after);
        if TimeLessThan(next, Wrap(after)) {
          TimeoutAbs(Wrap(after + e.h.interval), e.h, e.arg, after + e.h.interval);
        } else {
          TimeoutAbs(next, e.h, e.arg, d + e.h.interval);
        }
      }
    }

    /** `sys_check_timeouts`.  `clock(0)` is the moment at which it is called and `clock(k)` the one at which
        the `k`-th handler returns; `script(k)` are the calls of `sys_timeout` that the next handler makes.

        Exactly the entries that are due at the start fire, in the order of the list.  After them, a cyclic
        timer among them fires once more if it became due again at just that moment.  So none fires more than
        twice, however long handlers take, and what is left is not due.  Nothing is lost: what is pending at
        the end is what was pending at the start, less what fired, plus what became due again later.  And cyclic
        timers stay pending, with the deadlines that follow from when their handlers returned. */
    method CheckTimeouts(clock: nat -> nat, script: nat -> seq<Request>) returns (fired: seq<Timeo>, ghost again: seq<Timeo>, ghost sources: seq<nat>)
      requires Valid() && forall i: nat, j: nat :: i <= j ==> clock(i) <= clock(j)
      requires forall i :: 0 <= i < |due| ==> due[i] <= clock(0) + LONGEST
      requires due != [] ==> forall k: nat :: k <= 2 * |due| ==> clock(k) < due[0] + GAP
      requires forall k: nat :: GoodRequests(script(k), clock(0), clock(k + 1))
      modifies this
      ensures Valid()
      ensures |old(list)| == |old(due)| && fired == old(list)[..Position(old(due), clock(0))] + again
      ensures FireAgain(old(list), old(due), clock(0), again, sources)
      ensures forall i :: 0 <= i < |due| ==> clock(0) < due[i]
      ensures Accounted(old(list), old(due), clock, script, fired, list, due)
      ensures Steady(old(list), old(due), clock, script, fired, list, due)
    {
      hide Checking, FireAgain, Accounted, Steady, Position, TimeLessThan, Wrap;
      var now := Wrap(clock(0));
      ghost var list0, due0 := list, due;
      ghost var q := Position(due, clock(0));
      fired, again, sources := [], [], [];
      StartsRight(list, due, clock, script);
      while true
        invariant Valid() && Checking(list0, due0, clock, script, fired, list, due, q, again, sources)
        decreases Position(due0, clock(0)) - |sources|, q
      {
        HeadIsComparable(list0, due0, clock, script, fired, list, due, q, again, sources);
        if list == [] {
          return;
        }
        if TimeLessThan(now, list[0].time) {
          return;
        }
        var e;
        e, q, again, sources := FireDue(list0, due0, clock, script, fired, q, again, sources);
        fired := fired + [e];
      }
    }

    /** One round of `sys_check_timeouts`. */
    method FireDue(ghost list0: seq<Timeo>, ghost due0: seq<nat>, clock: nat -> nat, script: nat -> seq<Request>, fired: seq<Timeo>,
                   ghost q0: nat, ghost again0: seq<Timeo>, ghost sources0: seq<nat>)
      returns (e: Timeo, ghost q: nat, ghost again: seq<Timeo>, ghost sources: seq<nat>)
      requires Valid() && Checking(list0, due0, clock, script, fired, list, due, q0, again0, sources0) && q0 > 0 && due != []
      requires due[0] <= clock(0) <= clock(|fired| + 1) < due[0] + GAP && clock(|fired|) <= clock(|fired| + 1)
      requires forall i :: 0 <= i < |due| ==> due[i] <= clock(|fired| + 1) + LONGEST
      requires GoodRequests(script(|fired|), clock(0), clock(|fired| + 1))
      modifies this
      ensures Valid() && Checking(list0, due0, clock, script, fired + [e], list, due, q, again, sources)
      ensures |sources| <= Position(due0, clock(0))
      ensures (sources == sources0 && q < q0) || |sources0| < |sources|
    {
      hide Progress, Bounded, Accounted, Steady, Position, Wrap, Reaction, Inserted, Fires, GoodRequests;
      assert GoodHandler(list[0].h);
      ghost var now, list1, due1 := clock(0), list, due;
      HeadDeadline(list0, due0, now, fired, list1, due1, q0, again0, sources0);
      var after := clock(|fired| + 1);
      var requests := script(|fired|);
      e := FireFirst(after, requests, now);
      BoundedKept(due0, list1, due1, now, clock(|fired|), after, requests, list, due);
      AccountStep(list0, due0, clock, script, fired, list1, due1, list, due);
      SteadyStep(list0, due0, clock, script, fired, list1, due1, list, due);
      StepKeeps(list0, due0, now, fired, list1, due1, q0, again0, sources0, after, requests, list, due);
      q, again, sources := q0 - 1, again0, sources0;
      if Reaction(e.h, due1[0], after) == At(now) {
        q, again, sources := q0, again0 + [e.(time := Wrap(now))], sources0 + [|fired|];
      }
      SourcesBound(list0, due0, now, fired + [e], list, due, q, again, sources);
    }
  }

  // --- The argument for `CheckTimeouts` --------------------------------------------------------------------------

  /** The entries that fire a second time: cyclic timers among those due at the start, each at most once,
      that are due again exactly now. */
  ghost predicate FireAgain(list0: seq<Timeo>, due0: seq<nat>, now: nat, again: seq<Timeo>, sources: seq<nat>) {
    && |again| == |sources| && |list0| == |due0|
    && (forall i :: 0 <= i < |sources| ==>
        && sources[i] < Position(due0, now) && list0[sources[i]].h.Cyclic?
        && due0[sources[i]] + list0[sources[i]].h.interval == now
        && again[i] == list0[sources[i]].(time := Wrap(now)))
    && (forall i, j :: 0 <= i < j < |sources| ==> sources[i] < sources[j])
  }

  /** While timeouts fire: the first `q` entries of the list are the ones still to fire, in order. */
  ghost predicate Progress(list0: seq<Timeo>, due0: seq<nat>, now: nat, fired: seq<Timeo>,
                           list: seq<Timeo>, due: seq<nat>, q: nat, again: seq<Timeo>, sources: seq<nat>) {
    var n := Position(due0, now);
    && n <= |list0| && q <= |list| && |list| == |due|
    && fired + list[..q] == list0[..n] + again
    && FireAgain(list0, due0, now, again, sources)
    && |sources| <= |fired| && |sources| <= n && (forall i :: 0 <= i < |sources| ==> sources[i] < |fired|)
    && (forall i :: 0 <= i < q ==> due[i] == if |fired| + i < n then due0[|fired| + i] else now)
    && (forall i :: q <= i < |due| ==> now < due[i])
  }

  /** Deadlines lie between the first one at the start and what can be set by now. */
  ghost predicate Bounded(due0: seq<nat>, due: seq<nat>, reading: nat) {
    && (due0 == [] ==> due == [])
    && (due0 != [] ==> forall i :: 0 <= i < |due| ==> due0[0] <= due[i])
    && (forall i :: 0 <= i < |due| ==> due[i] <= reading + LONGEST)
  }

  datatype Next = None | At(deadline: nat)

  /** When a timeout that was due at `d` and whose handler returned at `after` puts itself back. */
  function Reaction(h: Handler, d: nat, after: nat): Next {
    match h
    case Plain(_) => None
    case Cyclic(_, interval) => At(if d + interval < after then after + interval else d + interval)
  }

  function CyclicRequest(e: Timeo, d: nat, after: nat): seq<Request> {
    match Reaction(e.h, d, after)
    case None => []
    case At(deadline) => [Request(deadline, e.h, e.arg)]
  }

  /** All that firing an entry adds to the list. */
  function AllRequests(e: Timeo, d: nat, after: nat, rs: seq<Request>): seq<Request> {
    rs + CyclicRequest(e, d, after)
  }

  lemma AllRequestsIs(e: Timeo, d: nat, after: nat, rs: seq<Request>)
    ensures AllRequests(e, d, after, rs) == rs + CyclicRequest(e, d, after)
  {
  }

  // --- Adding timeouts one after the other --------------------------------------------------------------------------

  datatype Stage = Stage(list: seq<Timeo>, due: seq<nat>)

  function Put(st: Stage, r: Request): (st': Stage)
    requires |st.list| == |st.due|
    ensures |st'.list| == |st'.due| == |st.list| + 1
  {
    var p := Position(st.due, r.deadline);
    Stage(Inserted(st.list, p, Timeo(Wrap(r.deadline), r.h, r.arg)), Inserted(st.due, p, r.deadline))
  }

  function AddAll(st: Stage, rs: seq<Request>): (st': Stage)
    requires |st.list| == |st.due|
    ensures |st'.list| == |st'.due|
    decreases |rs|
  {
    if rs == [] then st else Put(AddAll(st, rs[..|rs| - 1]), rs[|rs| - 1])
  }

  lemma AddNone(st: Stage)
    requires |st.list| == |st.due|
    ensures AddAll(st, []) == st
  {
  }

  lemma AddOne(st: Stage, r: Request)
    requires |st.list| == |st.due|
    ensures AddAll(st, [r]) == Put(st, r)
  {
    assert [r][..0] == [];
  }

  lemma AddSnoc(st: Stage, rs: seq<Request>, i: nat)
    requires |st.list| == |st.due| && i < |rs|
    ensures AddAll(st, rs[..i + 1]) == Put(AddAll(st, rs[..i]), rs[i])
  {
    assert rs[..i + 1][..i] == rs[..i];
  }

  lemma {:induction false} AddAllConcat(st: Stage, a: seq<Request>, b: seq<Request>)
    requires |st.list| == |st.due|
    ensures AddAll(st, a + b) == AddAll(AddAll(st, a), b)
    decreases |b|
  {
    hide Put;
    if b == [] {
      assert a + b == a;
    } else {
      var n := |b| - 1;
      AddAllConcat(st, a, b[..n]);
      assert (a + b)[..|a + b| - 1] == a + b[..n];
    }
  }

  lemma PutBounds(st: Stage, r: Request, lo: nat, hi: nat)
    requires |st.list| == |st.due| && lo <= r.deadline <= hi
    requires forall i :: 0 <= i < |st.due| ==> lo <= st.due[i] <= hi
    ensures forall i :: 0 <= i < |Put(st, r).due| ==> lo <= Put(st, r).due[i] <= hi
  {
    hide Position, Wrap;
  }

  lemma {:induction false} AddAllBounds(st: Stage, rs: seq<Request>, lo: nat, hi: nat)
    requires |st.list| == |st.due| && forall i :: 0 <= i < |rs| ==> lo <= rs[i].deadline <= hi
    requires forall i :: 0 <= i < |st.due| ==> lo <= st.due[i] <= hi
    ensures forall i :: 0 <= i < |AddAll(st, rs).due| ==> lo <= AddAll(st, rs).due[i] <= hi
    decreases |rs|
  {
    hide Put;
    if rs != [] {
      var n := |rs| - 1;
      AddAllBounds(st, rs[..n], lo, hi);
      PutBounds(AddAll(st, rs[..n]), rs[n], lo, hi);
    }
  }

  /** The first `m` entries are due at `now`, and no others. */
  ghost predicate DueFirst(st: Stage, m: nat, now: nat) {
    && m <= |st.list| == |st.due|
    && (forall i :: 0 <= i < m ==> st.due[i] <= now)
    && (forall i :: m <= i < |st.due| ==> now < st.due[i])
  }

  lemma PutLater(st: Stage, r: Request, m: nat, now: nat)
    requires DueFirst(st, m, now) && now < r.deadline
    ensures DueFirst(Put(st, r), m, now)
    ensures Put(st, r).list[..m] == st.list[..m] && Put(st, r).due[..m] == st.due[..m]
  {
    hide Wrap;
    assert m <= Position(st.due, r.deadline);
  }

  /** Later deadlines go behind the entries that are still to fire. */
  lemma {:induction false} AddLater(st: Stage, rs: seq<Request>, m: nat, now: nat)
    requires |st.list| == |st.due| && DueFirst(st, m, now) && forall i :: 0 <= i < |rs| ==> now < rs[i].deadline
    ensures DueFirst(AddAll(st, rs), m, now)
    ensures AddAll(st, rs).list[..m] == st.list[..m] && AddAll(st, rs).due[..m] == st.due[..m]
    decreases |rs|
  {
    hide Put, DueFirst;
    if rs != [] {
      var n := |rs| - 1;
      AddLater(st, rs[..n], m, now);
      PutLater(AddAll(st, rs[..n]), rs[n], m, now);
    }
  }

  /** A handler that removes an entry which is still to fire keeps it from firing, and leaves the order of the
      others; removing one that is not due changes nothing for this call. */
  lemma CancelledDoesNotFire(st: Stage, k: nat, m: nat, now: nat)
    requires DueFirst(st, m, now) && k < |st.list|
    ensures var st' := Stage(Removed(st.list, k), Removed(st.due, k));
      if k < m then DueFirst(st', m - 1, now) && st'.list[..m - 1] == Removed(st.list[..m], k)
      else DueFirst(st', m, now) && st'.list[..m] == st.list[..m]
  {
    var st' := Stage(Removed(st.list, k), Removed(st.due, k));
    assert forall i :: 0 <= i < |st'.due| ==> st'.due[i] == if i < k then st.due[i] else st.due[i + 1];
    if k < m {
      assert st'.list[..m - 1] == Removed(st.list[..m], k);
    } else {
      assert st'.list[..m] == st.list[..m];
    }
  }

  /** What firing the head of the list does to the list. */
  ghost predicate Fires(list: seq<Timeo>, due: seq<nat>, after: nat, rs: seq<Request>, list': seq<Timeo>, due': seq<nat>) {
    && list != [] && |list| == |due|
    && Stage(list', due') == AddAll(Stage(list[1..], due[1..]), AllRequests(list[0], due[0], after, rs))
  }

  lemma RemovedIsValid(list: seq<Timeo>, due: seq<nat>, k: nat)
    requires Carries(list, due) && Sorted(due) && k < |list|
    requires forall i :: 0 <= i < |list| ==> GoodHandler(list[i].h)
    ensures Carries(Removed(list, k), Removed(due, k)) && Sorted(Removed(due, k))
    ensures forall i :: 0 <= i < |Removed(list, k)| ==> GoodHandler(Removed(list, k)[i].h)
  {
    hide Wrap;
  }

  lemma TailIsValid(list: seq<Timeo>, due: seq<nat>)
    requires Carries(list, due) && Sorted(due) && list != []
    requires forall i :: 0 <= i < |list| ==> GoodHandler(list[i].h)
    ensures Carries(list[1..], due[1..]) && Sorted(due[1..])
    ensures forall i :: 0 <= i < |list[1..]| ==> GoodHandler(list[1..][i].h)
  {
  }

  lemma WrapAdd(d: nat, n: nat)
    ensures (Wrap(d) + n) % U32 == Wrap(d + n)
  {
  }

  lemma Rebases(d: nat, base: nat, now: nat)
    requires base <= d < base + U32
    ensures ((Wrap(d) - Wrap(base)) % U32 + Wrap(now)) % U32 == Wrap(d - base + now)
  {
    Difference(d, base);
  }

  lemma Difference(a: nat, b: nat)
    ensures b <= a < b + U32 ==> (Wrap(a) - Wrap(b)) % U32 == a - b
  {
  }

  /** The invariant of `CheckTimeouts`. */
  ghost predicate Checking(list0: seq<Timeo>, due0: seq<nat>, clock: nat -> nat, script: nat -> seq<Request>, fired: seq<Timeo>,
                           list: seq<Timeo>, due: seq<nat>, q: nat, again: seq<Timeo>, sources: seq<nat>) {
    && Progress(list0, due0, clock(0), fired, list, due, q, again, sources)
    && Bounded(due0, due, clock(|fired|))
    && Accounted(list0, due0, clock, script, fired, list, due)
    && Steady(list0, due0, clock, script, fired, list, due)
  }

  lemma StartsRight(list: seq<Timeo>, due: seq<nat>, clock: nat -> nat, script: nat -> seq<Request>)
    requires Carries(list, due) && Sorted(due)
    requires forall i :: 0 <= i < |due| ==> due[i] <= clock(0) + LONGEST
    ensures Checking(list, due, clock, script, [], list, due, Position(due, clock(0)), [], [])
  {
    hide Wrap, Progress, Accounted, Steady;
    StartsInOrder(list, due, clock(0));
    StartsAccounted(list, due, clock, script);
    StartsSteady(list, due, clock, script);
  }

  lemma StartsInOrder(list: seq<Timeo>, due: seq<nat>, now: nat)
    requires Carries(list, due) && Sorted(due)
    ensures Progress(list, due, now, [], list, due, Position(due, now), [], [])
  {
    hide Wrap;
    var n := Position(due, now);
    forall i | n <= i < |due| ensures now < due[i] {
      assert n < i ==> due[n] <= due[i];
    }
  }

  lemma StartsAccounted(list: seq<Timeo>, due: seq<nat>, clock: nat -> nat, script: nat -> seq<Request>)
    requires |list| == |due|
    ensures Accounted(list, due, clock, script, [], list, due)
  {
    hide Position;
  }

  /** The head of the list can be compared with the clock, and is due exactly if entries are left to fire. */
  lemma HeadIsComparable(list0: seq<Timeo>, due0: seq<nat>, clock: nat -> nat, script: nat -> seq<Request>, fired: seq<Timeo>,
                         list: seq<Timeo>, due: seq<nat>, q: nat, again: seq<Timeo>, sources: seq<nat>)
    requires Carries(list, due) && Checking(list0, due0, clock, script, fired, list, due, q, again, sources)
    requires forall i: nat, j: nat :: i <= j ==> clock(i) <= clock(j)
    requires due0 != [] ==> forall k: nat :: k <= 2 * |due0| ==> clock(k) < due0[0] + GAP
    ensures q == 0 ==> fired == list0[..Position(due0, clock(0))] + again
    ensures FireAgain(list0, due0, clock(0), again, sources) && Accounted(list0, due0, clock, script, fired, list, due)
    ensures Steady(list0, due0, clock, script, fired, list, due)
    ensures |sources| <= Position(due0, clock(0)) <= |list0|
    ensures |list0| == |due0| && (forall i :: q <= i < |due| ==> clock(0) < due[i])
    ensures list == [] ==> q == 0
    ensures list != [] ==> (TimeLessThan(Wrap(clock(0)), list[0].time) <==> q == 0)
    ensures q > 0 ==> due[0] <= clock(0) <= clock(|fired| + 1) < due[0] + GAP && clock(|fired|) <= clock(|fired| + 1)
    ensures q > 0 ==> forall i :: 0 <= i < |due| ==> due[i] <= clock(|fired| + 1) + LONGEST
  {
    hide TimeLessThan, Wrap, Accounted, Steady;
    var now := clock(0);
    SourcesBound(list0, due0, now, fired, list, due, q, again, sources);
    FiredCount(list0, due0, now, fired, list, due, q, again, sources);
    hide Progress;
    if list != [] {
      assert clock(0) <= clock(|fired|) <= clock(|fired| + 1);
      assert clock(|fired|) < due0[0] + GAP && due0[0] <= due[0] <= clock(|fired|) + LONGEST;
      assert |fired| > 0 ==> due0[0] <= now;
      ComparesMoments(now, due[0]);
    }
  }

  /** No more than twice as many entries fire as were due at the start. */
  lemma FiredCount(list0: seq<Timeo>, due0: seq<nat>, now: nat, fired: seq<Timeo>,
                   list: seq<Timeo>, due: seq<nat>, q: nat, again: seq<Timeo>, sources: seq<nat>)
    requires Progress(list0, due0, now, fired, list, due, q, again, sources)
    ensures |fired| + (if q > 0 then 1 else 0) <= 2 * Position(due0, now) && Position(due0, now) <= |due0|
    ensures |fired| > 0 ==> due0 != [] && due0[0] <= now
    ensures q <= |due| == |list| && FireAgain(list0, due0, now, again, sources)
    ensures q == 0 ==> fired == list0[..Position(due0, now)] + again
    ensures (forall i :: q <= i < |due| ==> now < due[i]) && (q > 0 ==> due[0] <= now)
  {
    assert |fired + list[..q]| == |fired| + q;
    assert |list0[..Position(due0, now)] + again| == Position(due0, now) + |again|;
    if q == 0 {
      assert fired + list[..q] == fired;
    }
  }

  lemma BoundedKept(due0: seq<nat>, list: seq<Timeo>, due: seq<nat>, now: nat, reading: nat, after: nat,
                    rs: seq<Request>, list': seq<Timeo>, due': seq<nat>)
    requires Bounded(due0, due, reading) && due != [] && due[0] <= now <= after && reading <= after
    requires Fires(list, due, after, rs, list', due') && GoodHandler(list[0].h) && GoodRequests(rs, now, after)
    ensures Bounded(due0, due', after)
  {
    hide AddAll;
    AddAllBounds(Stage(list[1..], due[1..]), AllRequests(list[0], due[0], after, rs), due0[0], after + LONGEST);
  }

  lemma StepKeeps(list0: seq<Timeo>, due0: seq<nat>, now: nat, fired: seq<Timeo>,
                  list: seq<Timeo>, due: seq<nat>, q: nat, again: seq<Timeo>, sources: seq<nat>,
                  after: nat, rs: seq<Request>, list': seq<Timeo>, due': seq<nat>)
    requires Progress(list0, due0, now, fired, list, due, q, again, sources) && q > 0 && now <= after
    requires GoodHandler(list[0].h) && GoodRequests(rs, now, after) && Fires(list, due, after, rs, list', due')
    ensures var e := list[0];
      if Reaction(e.h, due[0], after) == At(now) then
        |sources| < Position(due0, now) &&
        Progress(list0, due0, now, fired + [e], list', due', q, again + [e.(time := Wrap(now))], sources + [|fired|])
      else Progress(list0, due0, now, fired + [e], list', due', q - 1, again, sources)
  {
    if Reaction(list[0].h, due[0], after) == At(now) {
      StepAgain(list0, due0, now, fired, list, due, q, again, sources, after, rs, list', due');
    } else {
      StepOnce(list0, due0, now, fired, list, due, q, again, sources, after, rs, list', due');
    }
  }

  /** The entry is not due again before the call ends: the entries left to fire are the same but for it. */
  lemma StepOnce(list0: seq<Timeo>, due0: seq<nat>, now: nat, fired: seq<Timeo>,
                 list: seq<Timeo>, due: seq<nat>, q: nat, again: seq<Timeo>, sources: seq<nat>,
                 after: nat, rs: seq<Request>, list': seq<Timeo>, due': seq<nat>)
    requires Progress(list0, due0, now, fired, list, due, q, again, sources) && q > 0 && now <= after
    requires GoodHandler(list[0].h) && GoodRequests(rs, now, after) && Fires(list, due, after, rs, list', due')
    requires Reaction(list[0].h, due[0], after) != At(now)
    ensures Progress(list0, due0, now, fired + [list[0]], list', due', q - 1, again, sources)
  {
    hide FireAgain, Position, Wrap, Fires, Reaction, GoodRequests;
    StillDue(list0, due0, now, fired, list, due, q, again, sources);
    RestKept(list, due, q, now, after, rs, list', due');
    assert fired + list[..q] == fired + [list[0]] + list[1..q];
    forall i | 0 <= i < q - 1
      ensures due'[i] == if |fired| + 1 + i < Position(due0, now) then due0[|fired| + 1 + i] else now
    {
      assert due'[i] == due'[..q - 1][i] == due[1..q][i] == due[i + 1];
    }
  }

  lemma SourcesBound(list0: seq<Timeo>, due0: seq<nat>, now: nat, fired: seq<Timeo>,
                     list: seq<Timeo>, due: seq<nat>, q: nat, again: seq<Timeo>, sources: seq<nat>)
    requires Progress(list0, due0, now, fired, list, due, q, again, sources)
    ensures |sources| <= Position(due0, now) <= |list0| && |list0| == |due0|
  {
  }

  lemma HeadDeadline(list0: seq<Timeo>, due0: seq<nat>, now: nat, fired: seq<Timeo>,
                     list: seq<Timeo>, due: seq<nat>, q: nat, again: seq<Timeo>, sources: seq<nat>)
    requires Progress(list0, due0, now, fired, list, due, q, again, sources) && q > 0
    ensures due[0] == DeadlineOf(due0, now, |fired|)
  {
  }

  lemma StillDue(list0: seq<Timeo>, due0: seq<nat>, now: nat, fired: seq<Timeo>,
                 list: seq<Timeo>, due: seq<nat>, q: nat, again: seq<Timeo>, sources: seq<nat>)
    requires Progress(list0, due0, now, fired, list, due, q, again, sources)
    ensures forall i :: 0 <= i < q ==> due[i] <= now
    ensures forall i :: q <= i < |due| ==> now < due[i]
  {
  }

  /** Nothing that firing adds is due, unless the entry itself is due again. */
  lemma RestKept(list: seq<Timeo>, due: seq<nat>, q: nat, now: nat, after: nat, rs: seq<Request>, list': seq<Timeo>, due': seq<nat>)
    requires Fires(list, due, after, rs, list', due') && 0 < q <= |list| && now <= after && GoodHandler(list[0].h)
    requires GoodRequests(rs, now, after) && Reaction(list[0].h, due[0], after) != At(now)
    requires forall i :: 0 <= i < q ==> due[i] <= now
    requires forall i :: q <= i < |due| ==> now < due[i]
    ensures |list'| == |due'| && q - 1 <= |list'| && list'[..q - 1] == list[1..q] && due'[..q - 1] == due[1..q]
    ensures forall i :: q - 1 <= i < |due'| ==> now < due'[i]
  {
    hide AddAll;
    var st := Stage(list[1..], due[1..]);
    assert DueFirst(st, q - 1, now);
    AddLater(st, AllRequests(list[0], due[0], after, rs), q - 1, now);
    assert due[1..][..q - 1] == due[1..q] && list[1..][..q - 1] == list[1..q];
  }

  /** The entry is due again now: it goes right after the entries left to fire. */
  lemma StepAgain(list0: seq<Timeo>, due0: seq<nat>, now: nat, fired: seq<Timeo>,
                  list: seq<Timeo>, due: seq<nat>, q: nat, again: seq<Timeo>, sources: seq<nat>,
                  after: nat, rs: seq<Request>, list': seq<Timeo>, due': seq<nat>)
    requires Progress(list0, due0, now, fired, list, due, q, again, sources) && q > 0 && now <= after
    requires GoodHandler(list[0].h) && GoodRequests(rs, now, after) && Fires(list, due, after, rs, list', due')
    requires Reaction(list[0].h, due[0], after) == At(now)
    ensures |sources| < Position(due0, now)
    ensures Progress(list0, due0, now, fired + [list[0]], list', due', q, again + [list[0].(time := Wrap(now))], sources + [|fired|])
  {
    hide Wrap, FireAgain, Position, Fires, Reaction, GoodRequests;
    var e, n := list[0], Position(due0, now);
    var e' := e.(time := Wrap(now));
    StillDue(list0, due0, now, fired, list, due, q, again, sources);
    HeadIsSource(list0, due0, now, fired, list, due, q, again, sources, after);
    GoesLast(list, due, q, now, after, rs, list', due');
    assert fired + [e] + list'[..q] == fired + list[..q] + [e'];
    assert list0[..n] + (again + [e']) == list0[..n] + again + [e'];
    SourceAdded(list0, due0, now, again, sources, |fired|);
    forall i | 0 <= i < q
      ensures due'[i] == if |fired| + 1 + i < n then due0[|fired| + 1 + i] else now
    {
      assert due'[i] == due'[..q][i] == (due[1..q] + [now])[i];
    }
  }

  /** An entry that is due again now is a cyclic timer, and fires for the first time. */
  lemma HeadIsSource(list0: seq<Timeo>, due0: seq<nat>, now: nat, fired: seq<Timeo>,
                     list: seq<Timeo>, due: seq<nat>, q: nat, again: seq<Timeo>, sources: seq<nat>, after: nat)
    requires Progress(list0, due0, now, fired, list, due, q, again, sources) && q > 0 && now <= after
    requires GoodHandler(list[0].h) && Reaction(list[0].h, due[0], after) == At(now)
    ensures |sources| <= |fired| < Position(due0, now) <= |list0| && |list0| == |due0|
    ensures list[0] == list0[|fired|] && due0[|fired|] == due[0] && list[0].h.Cyclic? && due[0] + list[0].h.interval == now
  {
    hide Wrap;
    assert (fired + list[..q])[|fired|] == list[0];
  }

  lemma GoesLast(list: seq<Timeo>, due: seq<nat>, q: nat, now: nat, after: nat, rs: seq<Request>, list': seq<Timeo>, due': seq<nat>)
    requires Fires(list, due, after, rs, list', due') && 0 < q <= |list| && now <= after && GoodRequests(rs, now, after)
    requires Reaction(list[0].h, due[0], after) == At(now)
    requires forall i :: 0 <= i < q ==> due[i] <= now
    requires forall i :: q <= i < |due| ==> now < due[i]
    ensures |list'| == |due'| && q <= |list'|
    ensures list'[..q] == list[1..q] + [list[0].(time := Wrap(now))] && due'[..q] == due[1..q] + [now]
    ensures forall i :: q <= i < |due'| ==> now < due'[i]
  {
    hide AddAll, Wrap, Put;
    var st, own := Stage(list[1..], due[1..]), Request(now, list[0].h, list[0].arg);
    assert DueFirst(st, q - 1, now);
    AddLater(st, rs, q - 1, now);
    assert CyclicRequest(list[0], due[0], after) == [own];
    AddAllConcat(st, rs, [own]);
    AddOne(AddAll(st, rs), own);
    PutNow(AddAll(st, rs), own, q - 1, now);
    assert due[1..][..q - 1] == due[1..q] && list[1..][..q - 1] == list[1..q];
  }

  lemma PutNow(st: Stage, r: Request, m: nat, now: nat)
    requires DueFirst(st, m, now) && r.deadline == now
    ensures DueFirst(Put(st, r), m + 1, now)
    ensures Put(st, r).list[..m + 1] == st.list[..m] + [Timeo(Wrap(now), r.h, r.arg)]
    ensures Put(st, r).due[..m + 1] == st.due[..m] + [now]
  {
    hide Wrap;
    PositionIs(st.due, now, m);
  }

  lemma SourceAdded(list0: seq<Timeo>, due0: seq<nat>, now: nat, again: seq<Timeo>, sources: seq<nat>, k: nat)
    requires FireAgain(list0, due0, now, again, sources) && forall i :: 0 <= i < |sources| ==> sources[i] < k
    requires k < Position(due0, now) && list0[k].h.Cyclic? && due0[k] + list0[k].h.interval == now
    ensures FireAgain(list0, due0, now, again + [list0[k].(time := Wrap(now))], sources + [k])
  {
    hide Wrap;
  }

  // --- Nothing is lost --------------------------------------------------------------------------------------------

  /** A pending timeout: its deadline, and what it calls. */
  type Item = (nat, Handler, int)

  function Items(list: seq<Timeo>, due: seq<nat>): (items: seq<Item>)
    requires |list| == |due|
    ensures |items| == |list| && forall i :: 0 <= i < |list| ==> items[i] == (due[i], list[i].h, list[i].arg)
  {
    seq(|list|, i requires 0 <= i < |list| => (due[i], list[i].h, list[i].arg))
  }

  /** The deadline of the `k`-th entry that fires in a call at `now`. */
  function DeadlineOf(due0: seq<nat>, now: nat, k: nat): nat {
    if k < Position(due0, now) then due0[k] else now
  }

  function Deadlines(due0: seq<nat>, now: nat, k: nat): (ds: seq<nat>)
    ensures |ds| == k && forall i :: 0 <= i < k ==> ds[i] == DeadlineOf(due0, now, i)
  {
    seq(k, i requires 0 <= i < k => DeadlineOf(due0, now, i))
  }

  function ItemsOf(rs: seq<Request>): multiset<Item>
    decreases |rs|
  {
    if rs == [] then multiset{}
    else
      var n := |rs| - 1;
      ItemsOf(rs[..n]) + multiset{(rs[n].deadline, rs[n].h, rs[n].arg)}
  }

  /** What the entries that fired have added to the list. */
  ghost function Returned(due0: seq<nat>, clock: nat -> nat, script: nat -> seq<Request>, fired: seq<Timeo>): multiset<Item>
    decreases |fired|
  {
    if fired == [] then multiset{}
    else
      var k, e := |fired| - 1, fired[|fired| - 1];
      Returned(due0, clock, script, fired[..k])
        + ItemsOf(AllRequests(e, DeadlineOf(due0, clock(0), k), clock(|fired|), script(k)))
  }

  ghost predicate Accounted(list0: seq<Timeo>, due0: seq<nat>, clock: nat -> nat, script: nat -> seq<Request>, fired: seq<Timeo>,
                            list: seq<Timeo>, due: seq<nat>) {
    && |list0| == |due0| && |list| == |due|
    && multiset(Items(list, due)) + multiset(Items(fired, Deadlines(due0, clock(0), |fired|))) ==
       multiset(Items(list0, due0)) + Returned(due0, clock, script, fired)
  }

  lemma InsertedItems(list: seq<Timeo>, due: seq<nat>, p: nat, e: Timeo, d: nat)
    requires |list| == |due| && p <= |list|
    ensures multiset(Items(Inserted(list, p, e), Inserted(due, p, d))) == multiset(Items(list, due)) + multiset{(d, e.h, e.arg)}
  {
    var items := Items(list, due);
    assert Items(Inserted(list, p, e), Inserted(due, p, d)) == items[..p] + [(d, e.h, e.arg)] + items[p..];
    assert items == items[..p] + items[p..];
  }

  lemma {:induction false} AddedItems(st: Stage, rs: seq<Request>)
    requires |st.list| == |st.due|
    ensures var st' := AddAll(st, rs);
      multiset(Items(st'.list, st'.due)) == multiset(Items(st.list, st.due)) + ItemsOf(rs)
    decreases |rs|
  {
    if rs != [] {
      var n := |rs| - 1;
      AddedItems(st, rs[..n]);
      var before, r := AddAll(st, rs[..n]), rs[n];
      hide Position, Wrap, Inserted;
      InsertedItems(before.list, before.due, Position(before.due, r.deadline), Timeo(Wrap(r.deadline), r.h, r.arg), r.deadline);
    }
  }

  /** Firing the head removes its item and adds what is requested. */
  lemma FiresItems(list: seq<Timeo>, due: seq<nat>, after: nat, rs: seq<Request>, list': seq<Timeo>, due': seq<nat>)
    requires Fires(list, due, after, rs, list', due')
    ensures |list'| == |due'|
    ensures multiset(Items(list', due')) + multiset{(due[0], list[0].h, list[0].arg)} ==
            multiset(Items(list, due)) + ItemsOf(AllRequests(list[0], due[0], after, rs))
  {
    hide AddAll, AllRequests;
    assert Items(list, due) == [(due[0], list[0].h, list[0].arg)] + Items(list[1..], due[1..]);
    AddedItems(Stage(list[1..], due[1..]), AllRequests(list[0], due[0], after, rs));
  }

  lemma AccountStep(list0: seq<Timeo>, due0: seq<nat>, clock: nat -> nat, script: nat -> seq<Request>, fired: seq<Timeo>,
                    list: seq<Timeo>, due: seq<nat>, list': seq<Timeo>, due': seq<nat>)
    requires Accounted(list0, due0, clock, script, fired, list, due)
    requires Fires(list, due, clock(|fired| + 1), script(|fired|), list', due') && due[0] == DeadlineOf(due0, clock(0), |fired|)
    ensures Accounted(list0, due0, clock, script, fired + [list[0]], list', due')
  {
    hide AddAll, AllRequests, DeadlineOf;
    var fired', now, after := fired + [list[0]], clock(0), clock(|fired| + 1);
    FiresItems(list, due, after, script(|fired|), list', due');
    assert fired'[..|fired|] == fired;
    var item := (due[0], list[0].h, list[0].arg);
    assert Items(fired', Deadlines(due0, now, |fired'|)) == Items(fired, Deadlines(due0, now, |fired|)) + [item];
    Balances(multiset(Items(list, due)), multiset(Items(list', due')), multiset(Items(fired, Deadlines(due0, now, |fired|))),
             multiset(Items(list0, due0)), Returned(due0, clock, script, fired), multiset{item},
             ItemsOf(AllRequests(list[0], due[0], after, script(|fired|))));
  }

  lemma Balances(pending: multiset<Item>, pending': multiset<Item>, fired: multiset<Item>, start: multiset<Item>,
                 returned: multiset<Item>, out: multiset<Item>, back: multiset<Item>)
    requires pending + fired == start + returned
    requires pending' + out == pending + back
    ensures pending' + (fired + out) == start + (returned + back)
  {
    assert pending' + (fired + out) == pending' + out + fired == pending + fired + back;
  }

  // --- The deadlines of a cyclic timer -------------------------------------------------------------------------------

  predicate Calls(e: Timeo, h: Handler, arg: int) {
    e.h == h && e.arg == arg
  }

  ghost predicate OnceAt(list: seq<Timeo>, due: seq<nat>, h: Handler, arg: int, p: nat) {
    p < |list| == |due| && forall i :: 0 <= i < |list| ==> (Calls(list[i], h, arg) <==> i == p)
  }

  /** Exactly one pending timeout calls `h` with `arg`, and it is due at `d`. */
  ghost predicate Once(list: seq<Timeo>, due: seq<nat>, h: Handler, arg: int, d: nat) {
    exists p: nat :: OnceAt(list, due, h, arg, p) && due[p] == d
  }

  /** The moments at which the handler of the timer returned. */
  ghost function Returns(clock: nat -> nat, fired: seq<Timeo>, h: Handler, arg: int): seq<nat>
    decreases |fired|
  {
    if fired == [] then []
    else
      var n := |fired| - 1;
      Returns(clock, fired[..n], h, arg) + if Calls(fired[n], h, arg) then [clock(|fired|)] else []
  }

  /** When a timer that was first due at `d` is due after its handler has returned at the given moments. */
  function Due(d: nat, moments: seq<nat>, interval: nat): nat
    decreases |moments|
  {
    if moments == [] then d
    else
      var n := |moments| - 1;
      var before := Due(d, moments[..n], interval);
      if before + interval < moments[n] then moments[n] + interval else before + interval
  }

  /** No handler set the timer a second time. */
  ghost predicate Undisturbed(script: nat -> seq<Request>, fired: seq<Timeo>, h: Handler, arg: int) {
    forall k :: 0 <= k < |fired| ==> NotRequested(script(k), h, arg)
  }

  ghost predicate NotRequested(rs: seq<Request>, h: Handler, arg: int) {
    forall i :: 0 <= i < |rs| ==> !(rs[i].h == h && rs[i].arg == arg)
  }

  /** A cyclic timer stays pending once, with the deadline that follows from when its handler returned. */
  ghost predicate Steady(list0: seq<Timeo>, due0: seq<nat>, clock: nat -> nat, script: nat -> seq<Request>, fired: seq<Timeo>,
                         list: seq<Timeo>, due: seq<nat>) {
    forall h: Handler, arg, d: nat :: h.Cyclic? && Once(list0, due0, h, arg, d) && Undisturbed(script, fired, h, arg) ==>
      Once(list, due, h, arg, Due(d, Returns(clock, fired, h, arg), h.interval))
  }

  lemma StartsSteady(list: seq<Timeo>, due: seq<nat>, clock: nat -> nat, script: nat -> seq<Request>)
    ensures Steady(list, due, clock, script, [], list, due)
  {
    hide Once, Position;
  }

  lemma OnceInserted(list: seq<Timeo>, due: seq<nat>, q: nat, e: Timeo, r: nat, h: Handler, arg: int, d: nat)
    requires Once(list, due, h, arg, d) && q <= |list| && !Calls(e, h, arg)
    ensures Once(Inserted(list, q, e), Inserted(due, q, r), h, arg, d)
  {
    var p: nat :| OnceAt(list, due, h, arg, p) && due[p] == d;
    var list', due', p' := Inserted(list, q, e), Inserted(due, q, r), if p < q then p else p + 1;
    forall i | 0 <= i < |list'| ensures Calls(list'[i], h, arg) <==> i == p' {
      assert i < q ==> list'[i] == list[i];
      assert i > q ==> list'[i] == list[i - 1];
    }
    assert OnceAt(list', due', h, arg, p') && due'[p'] == d;
  }

  lemma OnceRemoved(list: seq<Timeo>, due: seq<nat>, q: nat, h: Handler, arg: int, d: nat)
    requires Once(list, due, h, arg, d) && q < |list| && !Calls(list[q], h, arg)
    ensures Once(Removed(list, q), Removed(due, q), h, arg, d)
  {
    var p: nat :| OnceAt(list, due, h, arg, p) && due[p] == d;
    var list', due', p' := Removed(list, q), Removed(due, q), if p < q then p else p - 1;
    forall i | 0 <= i < |list'| ensures Calls(list'[i], h, arg) <==> i == p' {
      assert list'[i] == if i < q then list[i] else list[i + 1];
    }
    assert OnceAt(list', due', h, arg, p') && due'[p'] == d;
  }

  lemma OnceAdded(list: seq<Timeo>, due: seq<nat>, q: nat, e: Timeo, r: nat, h: Handler, arg: int)
    requires |list| == |due| && q <= |list| && Calls(e, h, arg)
    requires Nowhere(list, h, arg)
    ensures Once(Inserted(list, q, e), Inserted(due, q, r), h, arg, r)
  {
    var list', due' := Inserted(list, q, e), Inserted(due, q, r);
    forall i | 0 <= i < |list'| ensures Calls(list'[i], h, arg) <==> i == q {
      assert i < q ==> list'[i] == list[i];
      assert i > q ==> list'[i] == list[i - 1];
    }
    assert OnceAt(list', due', h, arg, q) && due'[q] == r;
  }

  lemma {:induction false} OnceAddAll(st: Stage, rs: seq<Request>, h: Handler, arg: int, d: nat)
    requires |st.list| == |st.due| && Once(st.list, st.due, h, arg, d) && NotRequested(rs, h, arg)
    ensures Once(AddAll(st, rs).list, AddAll(st, rs).due, h, arg, d)
    decreases |rs|
  {
    hide Once, Position, Wrap, Inserted;
    if rs != [] {
      var n := |rs| - 1;
      OnceAddAll(st, rs[..n], h, arg, d);
      var before, r := AddAll(st, rs[..n]), rs[n];
      OnceInserted(before.list, before.due, Position(before.due, r.deadline), Timeo(Wrap(r.deadline), r.h, r.arg), r.deadline, h, arg, d);
    }
  }

  ghost predicate Nowhere(list: seq<Timeo>, h: Handler, arg: int) {
    forall i :: 0 <= i < |list| ==> !Calls(list[i], h, arg)
  }

  lemma {:induction false} NowhereAddAll(st: Stage, rs: seq<Request>, h: Handler, arg: int)
    requires |st.list| == |st.due| && Nowhere(st.list, h, arg) && NotRequested(rs, h, arg)
    ensures Nowhere(AddAll(st, rs).list, h, arg)
    decreases |rs|
  {
    hide Position, Wrap;
    if rs != [] {
      NowhereAddAll(st, rs[..|rs| - 1], h, arg);
    }
  }

  /** Firing another entry leaves the timer alone; firing the timer moves it by one interval, or puts it one interval
      after the return of its handler if that was too late. */
  lemma OnceFires(list: seq<Timeo>, due: seq<nat>, after: nat, rs: seq<Request>, list': seq<Timeo>, due': seq<nat>, h: Handler, arg: int, d: nat)
    requires Fires(list, due, after, rs, list', due') && h.Cyclic? && Once(list, due, h, arg, d) && NotRequested(rs, h, arg)
    ensures Once(list', due', h, arg, Due(d, if Calls(list[0], h, arg) then [after] else [], h.interval))
  {
    hide Once, AddAll, AllRequests;
    if Calls(list[0], h, arg) {
      OwnFires(list, due, after, rs, h, arg, d);
    } else {
      OtherFires(list, due, after, rs, h, arg, d);
    }
  }

  lemma OtherFires(list: seq<Timeo>, due: seq<nat>, after: nat, rs: seq<Request>, h: Handler, arg: int, d: nat)
    requires list != [] && |list| == |due| && Once(list, due, h, arg, d) && NotRequested(rs, h, arg) && !Calls(list[0], h, arg)
    ensures var st := AddAll(Stage(list[1..], due[1..]), AllRequests(list[0], due[0], after, rs)); Once(st.list, st.due, h, arg, d)
  {
    hide Once, AddAll;
    OnceRemoved(list, due, 0, h, arg, d);
    assert Removed(list, 0) == list[1..] && Removed(due, 0) == due[1..];
    OnceAddAll(Stage(list[1..], due[1..]), AllRequests(list[0], due[0], after, rs), h, arg, d);
  }

  lemma OwnFires(list: seq<Timeo>, due: seq<nat>, after: nat, rs: seq<Request>, h: Handler, arg: int, d: nat)
    requires list != [] && |list| == |due| && Once(list, due, h, arg, d) && NotRequested(rs, h, arg) && Calls(list[0], h, arg)
    requires h.Cyclic?
    ensures var st := AddAll(Stage(list[1..], due[1..]), AllRequests(list[0], due[0], after, rs));
      Once(st.list, st.due, h, arg, Due(d, [after], h.interval))
  {
    hide AddAll, Inserted, Position, Wrap;
    DueOnce(d, after, h.interval);
    var st, own := Stage(list[1..], due[1..]), Request(Due(d, [after], h.interval), h, arg);
    OwnIsFirst(list, due, h, arg, d);
    NowhereAddAll(st, rs, h, arg);
    assert CyclicRequest(list[0], due[0], after) == [own];
    AddAllConcat(st, rs, [own]);
    hide Once, Nowhere;
    var before := AddAll(st, rs);
    AddOne(before, own);
    OnceAdded(before.list, before.due, Position(before.due, own.deadline), Timeo(Wrap(own.deadline), h, arg), own.deadline, h, arg);
  }

  lemma OwnIsFirst(list: seq<Timeo>, due: seq<nat>, h: Handler, arg: int, d: nat)
    requires list != [] && |list| == |due| && Once(list, due, h, arg, d) && Calls(list[0], h, arg)
    ensures due[0] == d && Nowhere(list[1..], h, arg)
  {
    var p: nat :| OnceAt(list, due, h, arg, p) && due[p] == d;
    assert forall i :: 0 <= i < |list[1..]| ==> list[1..][i] == list[i + 1];
  }

  lemma DueOnce(d: nat, after: nat, interval: nat)
    ensures Due(d, [after], interval) == if d + interval < after then after + interval else d + interval
  {
    var one := [after];
    assert one[..|one| - 1] == [];
  }

  lemma {:induction false} DueConcat(d: nat, a: seq<nat>, b: seq<nat>, interval: nat)
    ensures Due(d, a + b, interval) == Due(Due(d, a, interval), b, interval)
    decreases |b|
  {
    if b == [] {
      assert a + b == a;
    } else {
      var n := |b| - 1;
      DueConcat(d, a, b[..n], interval);
      assert (a + b)[..|a + b| - 1] == a + b[..n];
    }
  }

  lemma ReturnsSnoc(clock: nat -> nat, script: nat -> seq<Request>, fired: seq<Timeo>, e: Timeo, h: Handler, arg: int)
    requires Undisturbed(script, fired + [e], h, arg)
    ensures Undisturbed(script, fired, h, arg) && NotRequested(script(|fired|), h, arg)
    ensures Returns(clock, fired + [e], h, arg)
         == Returns(clock, fired, h, arg) + if Calls(e, h, arg) then [clock(|fired| + 1)] else []
  {
    hide NotRequested;
    assert (fired + [e])[..|fired|] == fired;
  }

  lemma SteadyStep(list0: seq<Timeo>, due0: seq<nat>, clock: nat -> nat, script: nat -> seq<Request>, fired: seq<Timeo>,
                   list: seq<Timeo>, due: seq<nat>, list': seq<Timeo>, due': seq<nat>)
    requires Steady(list0, due0, clock, script, fired, list, due)
    requires list != [] && due != [] && Fires(list, due, clock(|fired| + 1), script(|fired|), list', due')
    ensures Steady(list0, due0, clock, script, fired + [list[0]], list', due')
  {
    hide Once, Undisturbed, Fires, Returns, Due;
    forall h: Handler, arg, d: nat | h.Cyclic? && Once(list0, due0, h, arg, d) && Undisturbed(script, fired + [list[0]], h, arg)
      ensures Once(list', due', h, arg, Due(d, Returns(clock, fired + [list[0]], h, arg), h.interval))
    {
      var after, before := clock(|fired| + 1), Returns(clock, fired, h, arg);
      ReturnsSnoc(clock, script, fired, list[0], h, arg);
      DueConcat(d, before, if Calls(list[0], h, arg) then [after] else [], h.interval);
      OnceFires(list, due, after, script(|fired|), list', due', h, arg, Due(d, before, h.interval));
    }
  }

  /** What happens to the list from one moment to the next: `sys_check_timeouts` is called, or another timeout is
      added or removed. */
  datatype Change = Checked(clock: nat -> nat, script: nat -> seq<Request>, fired: seq<Timeo>) | Added(p: nat, e: Timeo, d: nat) | Dropped(p: nat)

  /** A change that does not set or remove the timer; a check is known by what `CheckTimeouts` promises of it. */
  ghost predicate Changes(a: Stage, c: Change, b: Stage, h: Handler, arg: int) {
    |a.list| == |a.due| &&
    match c
    case Checked(clock, script, fired) =>
      Steady(a.list, a.due, clock, script, fired, b.list, b.due) && Undisturbed(script, fired, h, arg)
    case Added(p, e, d) => p <= |a.list| && !Calls(e, h, arg) && b == Stage(Inserted(a.list, p, e), Inserted(a.due, p, d))
    case Dropped(p) => p < |a.list| && !Calls(a.list[p], h, arg) && b == Stage(Removed(a.list, p), Removed(a.due, p))
  }

  ghost function ChangeReturns(c: Change, h: Handler, arg: int): seq<nat> {
    if c.Checked? then Returns(c.clock, c.fired, h, arg) else []
  }

  /** The moments at which the handler of the timer has returned during the first `n` changes. */
  ghost function AllReturns(changes: seq<Change>, h: Handler, arg: int, n: nat): seq<nat>
    requires n <= |changes|
  {
    if n == 0 then [] else AllReturns(changes, h, arg, n - 1) + ChangeReturns(changes[n - 1], h, arg)
  }

  /** Over any number of checks, a cyclic timer stays pending once, its deadline follows from the moments at which its
      handler has returned, and the list holds that deadline wrapped around. */
  lemma {:induction false} TimerStaysPending(stages: seq<Stage>, changes: seq<Change>, h: Handler, arg: int, d: nat, n: nat)
    requires h.Cyclic? && |stages| == |changes| + 1 && n < |stages|
    requires forall i :: 0 <= i < |changes| ==> Changes(stages[i], changes[i], stages[i + 1], h, arg)
    requires Once(stages[0].list, stages[0].due, h, arg, d)
    ensures var deadline := Due(d, AllReturns(changes, h, arg, n), h.interval);
      && Once(stages[n].list, stages[n].due, h, arg, deadline)
      && (Carries(stages[n].list, stages[n].due) ==>
            exists p: nat :: OnceAt(stages[n].list, stages[n].due, h, arg, p) && stages[n].list[p].time == Wrap(deadline))
  {
    hide Wrap, Inserted, Removed, Steady, Due, Changes, ChangeReturns;
    if n > 0 {
      var before := AllReturns(changes, h, arg, n - 1);
      TimerStaysPending(stages, changes, h, arg, d, n - 1);
      OnceChanges(stages[n - 1], changes[n - 1], stages[n], h, arg, Due(d, before, h.interval));
      DueConcat(d, before, ChangeReturns(changes[n - 1], h, arg), h.interval);
    } else {
      DueAtFirst(d, h.interval);
    }
    var p: nat :| OnceAt(stages[n].list, stages[n].due, h, arg, p)
                  && stages[n].due[p] == Due(d, AllReturns(changes, h, arg, n), h.interval);
  }

  lemma DueAtFirst(d: nat, interval: nat)
    ensures Due(d, [], interval) == d
  {
  }

  lemma OnceChanges(a: Stage, c: Change, b: Stage, h: Handler, arg: int, d: nat)
    requires h.Cyclic? && Changes(a, c, b, h, arg) && Once(a.list, a.due, h, arg, d)
    ensures Once(b.list, b.due, h, arg, Due(d, ChangeReturns(c, h, arg), h.interval))
  {
    hide Once, Undisturbed;
    DueAtFirst(d, h.interval);
    match c
    case Checked(_, _, _) =>
    case Added(p, e, r) => OnceInserted(a.list, a.due, p, e, r, h, arg, d);
    case Dropped(p) => OnceRemoved(a.list, a.due, p, h, arg, d);
  }

  /** A timer whose handler returns before it would be due again is due one interval after its last deadline; otherwise
      one interval after the return of its handler, so that it does not fire again any earlier. */
  lemma SuccessiveDeadlines(d: nat, moments: seq<nat>, interval: nat, i: nat)
    requires i < |moments|
    ensures var last, next := Due(d, moments[..i], interval), Due(d, moments[..i + 1], interval);
      && (moments[i] <= last + interval ==> next == last + interval)
      && (moments[i] > last + interval ==> next == moments[i] + interval)
  {
    assert moments[..i + 1][..i] == moments[..i];
  }

  /** Without overload, a cyclic timer is due at exact multiples of its interval after its first deadline, whatever
      delays there were. */
  lemma {:induction false} NoDrift(d: nat, moments: seq<nat>, interval: nat, n: nat)
    requires n <= |moments|
    requires forall i :: 0 <= i < n ==> moments[i] <= Due(d, moments[..i], interval) + interval
    ensures Due(d, moments[..n], interval) == d + n * interval
  {
    if n > 0 {
      NoDrift(d, moments, interval, n - 1);
      SuccessiveDeadlines(d, moments, interval, n - 1);
      Distributes(n - 1, interval);
    }
  }

  lemma Distributes(n: nat, m: nat)
    ensures (n + 1) * m == n * m + m
  {
  }
}

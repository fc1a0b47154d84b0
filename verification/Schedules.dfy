/** Which routes a packet may take, said by schedules: when its first byte leaves over each hop. */
module Schedules {
  import opened Contacts
  import opened Routes
  import opened Forwarding
  import opened Volumes

  /** When a packet that leaves at `d[i]`, and takes `t[i]` to send, is through hop `i`; or `ready` before the first. */
  function Through(hops: seq<Contact>, d: seq<real>, t: seq<real>, ready: real, i: nat): real
    requires i <= |hops| == |d| == |t|
  {
    if i == 0 then ready else d[i - 1] + t[i - 1] + hops[i - 1].owlt
  }

  /** Sending takes as long as the rate says. */
  ghost predicate Durations(hops: seq<Contact>, t: seq<real>, size: real) {
    |t| == |hops| && forall i :: 0 <= i < |hops| ==> t[i] * hops[i].rate == size
  }

  /** A packet of the given size can leave over hop `i` at time `d[i]`: not before the contact starts, nor before all of
      it has arrived over the hop before. */
  ghost predicate Schedule(hops: seq<Contact>, d: seq<real>, t: seq<real>, ready: real, size: real) {
    && |d| == |hops| && Durations(hops, t, size)
    && (forall i :: 0 <= i < |hops| ==> hops[i].start <= d[i])
    && (forall i :: 0 <= i < |hops| ==> Through(hops, d, t, ready, i) <= d[i])
  }

  ghost predicate Sendable(hops: seq<Contact>) {
    hops != [] && Distinct(hops) && forall c :: c in hops ==> c.rate > 0.0
  }

  // --- The earliest schedule --------------------------------------------------------------------------------------

  function SendingTimes(hops: seq<Contact>, size: real): (t: seq<real>)
    requires forall c :: c in hops ==> c.rate != 0.0
    ensures |t| == |hops| && forall i :: 0 <= i < |hops| ==> t[i] == size / hops[i].rate
  {
    seq(|hops|, i requires 0 <= i < |hops| => size / hops[i].rate)
  }

  function LeaveTimes(hops: seq<Contact>, ready: real, size: real): (d: seq<real>)
    requires forall c :: c in hops ==> c.rate != 0.0
    ensures |d| == |hops| && forall i :: 0 <= i < |hops| ==> d[i] == Leaves(hops, i, ready, size)
  {
    seq(|hops|, i requires 0 <= i < |hops| => Leaves(hops, i, ready, size))
  }

  lemma Quotient(size: real, rate: real, t: real)
    requires rate > 0.0
    ensures t * rate == size <==> t == size / rate
  {
    if t * rate == size {
      assert t == (t * rate) / rate;
    }
  }

  /** Durations are determined by the size of the packet. */
  lemma DurationIs(hops: seq<Contact>, t: seq<real>, size: real, i: nat)
    requires Sendable(hops) && Durations(hops, t, size) && i < |hops|
    ensures t[i] == size / hops[i].rate
  {
    assert hops[i] in hops;
    Quotient(size, hops[i].rate, t[i]);
  }

  lemma SendingTimesLast(hops: seq<Contact>, size: real)
    requires Sendable(hops)
    ensures Durations(hops, SendingTimes(hops, size), size)
  {
    var t := SendingTimes(hops, size);
    forall i | 0 <= i < |hops| ensures t[i] * hops[i].rate == size {
      assert hops[i] in hops;
      Quotient(size, hops[i].rate, t[i]);
    }
  }

  lemma LeavesNext(hops: seq<Contact>, i: nat, ready: real, size: real)
    requires Sendable(hops) && 0 < i < |hops|
    ensures Leaves(hops, i, ready, size) == Max(hops[i].start, Reaches(hops, i - 1, ready, size))
  {
    assert hops[i] != hops[0];
  }

  /** No schedule leaves earlier than the projected times, over any hop. */
  lemma {:induction false} LeavesIsLeast(hops: seq<Contact>, d: seq<real>, t: seq<real>, ready: real, size: real, i: nat)
    requires Sendable(hops) && Schedule(hops, d, t, ready, size) && i < |hops|
    ensures Leaves(hops, i, ready, size) <= d[i]
    ensures Reaches(hops, i, ready, size) <= d[i] + t[i] + hops[i].owlt
  {
    DurationIs(hops, t, size, i);
    assert Through(hops, d, t, ready, i) <= d[i];
    if i > 0 {
      LeavesIsLeast(hops, d, t, ready, size, i - 1);
      LeavesNext(hops, i, ready, size);
    }
  }

  lemma EarliestThrough(hops: seq<Contact>, ready: real, size: real, i: nat)
    requires Sendable(hops) && i < |hops|
    ensures Through(hops, LeaveTimes(hops, ready, size), SendingTimes(hops, size), ready, i + 1) == Reaches(hops, i, ready, size)
  {
  }

  /** The projected times are a schedule themselves. */
  lemma LeavesIsSchedule(hops: seq<Contact>, ready: real, size: real)
    requires Sendable(hops) && ready >= hops[0].start
    ensures Schedule(hops, LeaveTimes(hops, ready, size), SendingTimes(hops, size), ready, size)
  {
    hide Leaves, Reaches, Through;
    SendingTimesLast(hops, size);
    var d, t := LeaveTimes(hops, ready, size), SendingTimes(hops, size);
    forall i | 0 <= i < |hops| ensures hops[i].start <= d[i] && Through(hops, d, t, ready, i) <= d[i] {
      LeavesAt(hops, ready, size, i);
    }
  }

  lemma LeavesAt(hops: seq<Contact>, ready: real, size: real, i: nat)
    requires Sendable(hops) && ready >= hops[0].start && i < |hops|
    ensures hops[i].start <= Leaves(hops, i, ready, size)
    ensures Through(hops, LeaveTimes(hops, ready, size), SendingTimes(hops, size), ready, i) <= Leaves(hops, i, ready, size)
  {
    if i > 0 {
      EarliestThrough(hops, ready, size, i - 1);
      LeavesNext(hops, i, ready, size);
    }
  }

  // --- Enough volume ------------------------------------------------------------------------------------------------

  lemma {:induction false} EarliestEndIs(hops: seq<Contact>, i: nat, j: nat, x: real)
    requires i <= j <= |hops|
    ensures x < EarliestEnd(hops, i, j) <==> x < MAX_TIME && forall k :: i <= k < j ==> x < hops[k].end
    decreases j
  {
    if i < j {
      EarliestEndIs(hops, i, j - 1, x);
    }
  }

  /** The contact can be used for a packet that leaves at `x`. */
  ghost predicate Accepts(hops: seq<Contact>, i: nat, x: real, priority: nat)
    requires i < |hops|
  {
    && x < MAX_TIME && (forall k :: i <= k < |hops| ==> x < hops[k].end)
    && (priority == 0 ==> hops[i].mav.0 > 0.0) && (priority == 1 ==> hops[i].mav.1 > 0.0) && (priority == 2 ==> hops[i].mav.2 > 0.0)
  }

  lemma HopHasVolume(hops: seq<Contact>, i: nat, x: real, priority: nat)
    requires Sendable(hops) && i < |hops| && priority < 3
    ensures var stop := Min(hops[i].end, EarliestEnd(hops, i, |hops|));
      Min(Carries(hops[i], x, stop), ResidualVolume(hops[i], priority)) > 0.0 <==> Accepts(hops, i, x, priority)
  {
    hide Carries, EarliestEnd;
    assert hops[i] in hops;
    var stop := Min(hops[i].end, EarliestEnd(hops, i, |hops|));
    EarliestEndIs(hops, i, |hops|, x);
    CarriesPositive(hops[i], x, stop);
  }

  lemma CarriesPositive(c: Contact, first: real, stop: real)
    requires c.rate > 0.0
    ensures Carries(c, first, stop) > 0.0 <==> first < stop
  {
    PositiveFactor(c.rate, stop - first);
    assert Carries(c, first, stop) == c.rate * (stop - first);
  }

  lemma {:induction false} VolumeIff(hops: seq<Contact>, ready: real, p: Packet, n: nat)
    requires Sendable(hops) && n <= |hops| && p.priority < 3
    ensures VolumeLimit(hops, ready, p, n) > 0.0 <==>
      forall i :: 0 <= i < n && hops[i].volume > 0.0 ==> Accepts(hops, i, Leaves(hops, i, ready, p.size), p.priority)
  {
    hide Carries, EarliestEnd, Leaves, Accepts, ResidualVolume;
    if n > 0 {
      VolumeIff(hops, ready, p, n - 1);
      IndicesOf(hops, n - 1);
      HopHasVolume(hops, n - 1, Leaves(hops, n - 1, ready, p.size), p.priority);
    }
  }

  // --- The rules, said by schedules --------------------------------------------------------------------------------

  /** There is a schedule by which the packet leaves over every hop that has volume before that contact and all later
      ones end, finds volume for its priority there, and arrives by its deadline. */
  ghost predicate InTime(hops: seq<Contact>, d: seq<real>, t: seq<real>, ready: real, p: Packet) {
    && hops != [] && Schedule(hops, d, t, ready, p.size)
    && d[0] <= hops[0].end && Through(hops, d, t, ready, |hops|) <= p.deadline
    && (forall i :: 0 <= i < |hops| && hops[i].volume > 0.0 ==> Accepts(hops, i, d[i], p.priority))
  }

  lemma AcceptsEarlier(hops: seq<Contact>, i: nat, x: real, y: real, priority: nat)
    requires i < |hops| && Accepts(hops, i, y, priority) && x <= y
    ensures Accepts(hops, i, x, priority)
  {
  }

  /** A route gets past steps d) to f) exactly if there is such a schedule from the first opportunity on. */
  lemma ReachableIff(hops: seq<Contact>, currTime: real, plan: seq<Contact>, p: Packet)
    requires Sendable(hops) && Divisible(hops, currTime, plan) && p.priority < 3
    ensures Reachable(hops, currTime, plan, p) <==>
      exists d, t :: InTime(hops, d, t, EarliestTransmission(hops[0], plan, currTime), p)
  {
    var ready := EarliestTransmission(hops[0], plan, currTime);
    assert hops[0] in hops;
    OpportunityBounds(hops[0], plan, currTime);
    VolumeIff(hops, ready, p, |hops|);
    if Reachable(hops, currTime, plan, p) {
      EarliestInTime(hops, ready, p);
    }
    forall d, t | InTime(hops, d, t, ready, p) ensures Reachable(hops, currTime, plan, p) {
      InTimeIsReachable(hops, d, t, ready, p);
    }
  }

  lemma EarliestInTime(hops: seq<Contact>, ready: real, p: Packet)
    requires Sendable(hops) && ready >= hops[0].start && ready <= hops[0].end
    requires Reaches(hops, |hops| - 1, ready, p.size) <= p.deadline
    requires forall i :: 0 <= i < |hops| && hops[i].volume > 0.0 ==> Accepts(hops, i, Leaves(hops, i, ready, p.size), p.priority)
    ensures InTime(hops, LeaveTimes(hops, ready, p.size), SendingTimes(hops, p.size), ready, p)
  {
    hide Accepts, Through, Schedule;
    LeavesIsSchedule(hops, ready, p.size);
    EarliestThrough(hops, ready, p.size, |hops| - 1);
  }

  lemma InTimeIsReachable(hops: seq<Contact>, d: seq<real>, t: seq<real>, ready: real, p: Packet)
    requires Sendable(hops) && InTime(hops, d, t, ready, p)
    ensures ready <= hops[0].end && Reaches(hops, |hops| - 1, ready, p.size) <= p.deadline
    ensures forall i :: 0 <= i < |hops| && hops[i].volume > 0.0 ==> Accepts(hops, i, Leaves(hops, i, ready, p.size), p.priority)
  {
    hide Accepts, Reaches;
    assert Through(hops, d, t, ready, 0) <= d[0];
    LeavesIsLeast(hops, d, t, ready, p.size, |hops| - 1);
    forall i | 0 <= i < |hops| && hops[i].volume > 0.0 ensures Accepts(hops, i, Leaves(hops, i, ready, p.size), p.priority) {
      LeavesIsLeast(hops, d, t, ready, p.size, i);
      AcceptsEarlier(hops, i, Leaves(hops, i, ready, p.size), d[i], p.priority);
    }
  }

  /** For distinct hops with positive rates, a route is a candidate exactly if it leads neither to the sender nor to an
      excluded node, its delivery time and a schedule meet the deadline, and the schedule finds volume. */
  lemma CandidateIff(r: Route, currTime: real, plan: seq<Contact>, p: Packet, excluded: seq<int>)
    requires Usable(r, currTime, plan, p, excluded) && Sendable(r.hops) && p.priority < 3
    ensures IsCandidate(r, currTime, plan, p, excluded) <==>
      && r.hops[0].to != p.sender && r.hops[0].to !in excluded && Arrival(0.0, r.hops) <= p.deadline
      && exists d, t :: InTime(r.hops, d, t, EarliestTransmission(r.hops[0], plan, currTime), p)
  {
    hide Reachable, Volume, Divisible, InTime;
    if Suits(r, p, excluded) {
      ReachableIff(r.hops, currTime, plan, p);
    }
  }

  // --- The first opportunity ---------------------------------------------------------------------------------------

  function Total(xs: seq<real>): real {
    if xs == [] then 0.0 else xs[0] + Total(xs[1..])
  }

  lemma {:induction false} TotalSnoc(xs: seq<real>, x: real)
    ensures Total(xs + [x]) == Total(xs) + x
    decreases |xs|
  {
    if xs == [] {
      assert [x][1..] == [];
    } else {
      TotalSnoc(xs[1..], x);
      assert (xs + [x])[1..] == xs[1..] + [x];
    }
  }

  /** What contact `e` sends from `currTime` on, if it joins the nodes of `c` and starts before it. */
  ghost predicate Share(c: Contact, e: Contact, currTime: real, x: real) {
    if e.frm != c.frm || e.to != c.to || e.end <= currTime || c.start <= e.start then x == 0.0
    else if currTime <= e.start then x == (e.end - e.start) * e.rate
    else x == (e.end - currTime) * e.rate
  }

  lemma {:induction false} ReliefIsTotal(c: Contact, plan: seq<Contact>, currTime: real, shares: seq<real>)
    requires |shares| == |plan| && forall i :: 0 <= i < |plan| ==> Share(c, plan[i], currTime, shares[i])
    ensures Relief(c, plan, currTime) == Total(shares)
    decreases |plan|
  {
    if plan != [] {
      var n := |plan| - 1;
      ReliefIsTotal(c, plan[..n], currTime, shares[..n]);
      TotalSnoc(shares[..n], shares[n]);
      assert shares == shares[..n] + [shares[n]];
      assert Share(c, plan[n], currTime, shares[n]);
    }
  }

  /** The first opportunity is the start of the contact, or now; and later only if earlier contacts between the same
      nodes add up to less than nothing, by the time it takes to make up for that. */
  lemma OpportunityIs(c: Contact, plan: seq<Contact>, currTime: real, shares: seq<real>, delay: real)
    requires |shares| == |plan| && forall i :: 0 <= i < |plan| ==> Share(c, plan[i], currTime, shares[i])
    requires c.rate > 0.0 && delay * c.rate == if Total(shares) < 0.0 then 0.0 - Total(shares) else 0.0
    ensures EarliestTransmission(c, plan, currTime) == (if currTime < c.start then c.start else currTime) + delay
  {
    ReliefIsTotal(c, plan, currTime, shares);
    Quotient(Max(0.0, 0.0 - Relief(c, plan, currTime)), c.rate, delay);
  }

  /** The first bytes by which a route is measured leave like a packet of no size. */
  lemma {:induction false} FirstByteIsLeaves(hops: seq<Contact>, i: nat)
    requires Sendable(hops) && i < |hops|
    ensures FirstByte(hops, i) == Leaves(hops, i, hops[0].start, 0.0)
  {
    if i > 0 {
      FirstByteIsLeaves(hops, i - 1);
      LeavesNext(hops, i, hops[0].start, 0.0);
      assert hops[i - 1] in hops && 0.0 / hops[i - 1].rate == 0.0;
    }
  }
}

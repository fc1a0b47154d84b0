/** `fwd_candidate`: which routes a packet may take, by the rules of section 3.2.6.9 of CCSDS 734.3-B-1. */
module Forwarding {
  import opened Contacts
  import opened Routes

  /** The fields of `ipv6_packet` that matter here; `priority` is an index into the residual volumes. */
  datatype Packet = Packet(size: real, deadline: real, priority: nat, sender: int)

  // --- When a packet would travel ------------------------------------------------------------------------------

  /** What a contact can send between two points in time. */
  function Carries(c: Contact, first: real, stop: real): real {
    (stop - first) * c.rate
  }

  /** What a contact between the same nodes can send before the first contact `c` of a route starts. */
  function ReliefOf(c: Contact, d: Contact, currTime: real): real {
    if d.frm == c.frm && d.to == c.to && d.end > currTime && d.start < c.start
    then Carries(d, Max(currTime, d.start), d.end) else 0.0
  }

  function Relief(c: Contact, plan: seq<Contact>, currTime: real): real
    decreases |plan|
  {
    if plan == [] then 0.0
    else Relief(c, plan[..|plan| - 1], currTime) + ReliefOf(c, plan[|plan| - 1], currTime)
  }

  /** The earliest transmission opportunity.  The backlog itself is taken to be 0. */
  function EarliestTransmission(c: Contact, plan: seq<Contact>, currTime: real): real
    requires c.rate != 0.0
  {
    Max(currTime, c.start) + Max(0.0, 0.0 - Relief(c, plan, currTime)) / c.rate
  }

  /** When the first byte of the packet leaves over hop `i`. */
  function Leaves(hops: seq<Contact>, i: nat, opportunity: real, size: real): real
    requires i < |hops| && forall c :: c in hops ==> c.rate != 0.0
    decreases i, 0
  {
    if i == 0 || hops[i] == hops[0] then opportunity
    else Max(hops[i].start, Reaches(hops, i - 1, opportunity, size))
  }

  /** When the last byte of the packet has arrived over hop `i`. */
  function Reaches(hops: seq<Contact>, i: nat, opportunity: real, size: real): real
    requires i < |hops| && forall c :: c in hops ==> c.rate != 0.0
    decreases i, 1
  {
    Leaves(hops, i, opportunity, size) + size / hops[i].rate + hops[i].owlt
  }

  /** The position at which a contact last occurs: times kept on a contact are those of its last use. */
  function LastIndexOf(hops: seq<Contact>, c: Contact): (i: nat)
    requires c in hops
    ensures i < |hops| && hops[i] == c && c !in hops[i + 1..]
    decreases |hops|
  {
    var n := |hops| - 1;
    if hops[n] == c then n
    else
      assert hops == hops[..n] + [hops[n]];
      LastIndexOf(hops[..n], c)
  }

  /** `contact.mav[priority]` */
  function ResidualVolume(c: Contact, priority: nat): real {
    if priority == 0 then c.mav.0 else if priority == 1 then c.mav.1 else c.mav.2
  }

  /** The least volume that the first `n` hops can still carry; contacts without volume do not count. */
  function VolumeLimit(hops: seq<Contact>, opportunity: real, p: Packet, n: nat): real
    requires n <= |hops| && forall c :: c in hops ==> c.rate != 0.0
  {
    if n == 0 then MAX_TIME
    else
      var c, least := hops[n - 1], VolumeLimit(hops, opportunity, p, n - 1);
      if 0.0 >= c.volume then least
      else
        var stop := Min(c.end, EarliestEnd(hops, IndexOf(hops, c), |hops|));
        var leaves := Leaves(hops, LastIndexOf(hops, c), opportunity, p.size);
        Min(least, Min(Carries(c, leaves, stop), ResidualVolume(c, p.priority)))
  }

  /** The rates that steps d) to f) divide by are not 0. */
  ghost predicate Divisible(hops: seq<Contact>, currTime: real, plan: seq<Contact>) {
    && hops != [] && hops[0].rate != 0.0
    && (EarliestTransmission(hops[0], plan, currTime) <= hops[0].end ==> forall c :: c in hops ==> c.rate != 0.0)
  }

  /** There is time to use the first contact, to arrive by the deadline, and volume for the packet. */
  ghost predicate Reachable(hops: seq<Contact>, currTime: real, plan: seq<Contact>, p: Packet)
    requires Divisible(hops, currTime, plan)
  {
    var opportunity := EarliestTransmission(hops[0], plan, currTime);
    && opportunity <= hops[0].end
    && Reaches(hops, |hops| - 1, opportunity, p.size) <= p.deadline
    && VolumeLimit(hops, opportunity, p, |hops|) > 0.0
  }

  /** The rules before c): the route leads to a node that is not excluded, and is early enough at best. */
  ghost predicate Suits(r: Route, p: Packet, excluded: seq<int>)
    reads r
  {
    r.nextNode != p.sender && r.nextNode !in excluded && r.bestDeliveryTime <= p.deadline
  }

  /** A route that can be handed to `fwd_candidate`. */
  ghost predicate Usable(r: Route, currTime: real, plan: seq<Contact>, p: Packet, excluded: seq<int>)
    reads r
  {
    r.Current() && (Suits(r, p, excluded) ==> Divisible(r.hops, currTime, plan))
  }

  /** What makes a route a candidate.  Excluded nodes are those excluded at the start. */
  ghost predicate IsCandidate(r: Route, currTime: real, plan: seq<Contact>, p: Packet, excluded: seq<int>)
    reads r
    requires Usable(r, currTime, plan, p, excluded)
  {
    Suits(r, p, excluded) && Reachable(r.hops, currTime, plan, p)
  }

  ghost function Candidates(routes: seq<Route>, currTime: real, plan: seq<Contact>, p: Packet, excluded: seq<int>): seq<Route>
    requires forall r :: r in routes ==> Usable(r, currTime, plan, p, excluded)
    reads routes
    decreases |routes|
  {
    if routes == [] then []
    else
      var r, rest := routes[|routes| - 1], Candidates(routes[..|routes| - 1], currTime, plan, p, excluded);
      if IsCandidate(r, currTime, plan, p, excluded) then rest + [r] else rest
  }

  // --- The loops -------------------------------------------------------------------------------------------------

  method ComputeOpportunity(c: Contact, plan: seq<Contact>, currTime: real) returns (opportunity: real)
    requires c.rate != 0.0
    ensures opportunity == EarliestTransmission(c, plan, currTime)
  {
    var relief := 0.0;
    for i := 0 to |plan|
      invariant relief == Relief(c, plan[..i], currTime)
    {
      var d := plan[i];
      assert plan[..i + 1][..i] == plan[..i];
      if d.frm == c.frm && d.to == c.to {
        if d.end > currTime && d.start < c.start {
          relief := relief + Carries(d, Max(currTime, d.start), d.end);
        }
      }
    }
    assert plan[..|plan|] == plan;
    var residualBacklog := Max(0.0, 0.0 - relief);
    opportunity := Max(currTime, c.start) + residualBacklog / c.rate;
  }

  /** Step e): when the packet leaves over each contact, and when it arrives. */
  method ComputeArrival(hops: seq<Contact>, opportunity: real, size: real) returns (leaves: map<Contact, real>, arrival: real)
    requires hops != [] && forall c :: c in hops ==> c.rate != 0.0
    ensures forall c :: c in hops ==> c in leaves && leaves[c] == Leaves(hops, LastIndexOf(hops, c), opportunity, size)
    ensures arrival == Reaches(hops, |hops| - 1, opportunity, size)
  {
    leaves, arrival := map[], 0.0;
    for i := 0 to |hops|
      invariant forall c :: c in hops[..i] ==>
        c in leaves && leaves[c] == Leaves(hops, LastIndexOf(hops[..i], c), opportunity, size)
      invariant i > 0 ==> arrival == Reaches(hops, i - 1, opportunity, size)
    {
      var c := hops[i];
      assert hops[..i + 1][..i] == hops[..i] && hops[..i + 1] == hops[..i] + [c];
      var first := if c == hops[0] then opportunity else Max(c.start, arrival);
      leaves := leaves[c := first];
      arrival := first + size / c.rate + c.owlt;
    }
    assert hops[..|hops|] == hops;
  }

  /** Step f): the volume left for the priority of the packet. */
  method ComputeVolumeLimit(hops: seq<Contact>, leaves: map<Contact, real>, ghost opportunity: real, p: Packet)
    returns (limit: real)
    requires forall c :: c in hops ==> c.rate != 0.0
    requires forall c :: c in hops ==> c in leaves && leaves[c] == Leaves(hops, LastIndexOf(hops, c), opportunity, p.size)
    ensures limit == VolumeLimit(hops, opportunity, p, |hops|)
  {
    hide Carries, Leaves;
    limit := MAX_TIME;
    for i := 0 to |hops|
      invariant limit == VolumeLimit(hops, opportunity, p, i)
    {
      var c := hops[i];
      if 0.0 >= c.volume {
        continue;
      }
      var minSuccStopTime := SuccessorStopTime(hops, IndexOf(hops, c));
      var stop := Min(c.end, minSuccStopTime);
      var volume := Min(Carries(c, leaves[c], stop), ResidualVolume(c, p.priority));
      if volume < limit {
        limit := volume;
      }
    }
  }

  /** Steps c) to f), for a route that passed the earlier ones.  That a hop leads to the current node is
      looked at, but does not reject the route. */
  method Assess(route: Route, currTime: real, currNode: int, plan: seq<Contact>, p: Packet) returns (ok: bool)
    requires Divisible(route.hops, currTime, plan) && p.priority < 3
    ensures ok <==> Reachable(route.hops, currTime, plan, p)
  {
    for j := 0 to |route.hops| {
      if route.hops[j].to == currNode {
        continue;
      }
    }
    var opportunity := ComputeOpportunity(route.hops[0], plan, currTime);
    if opportunity > route.hops[0].end {
      return false;
    }
    var leaves, arrival := ComputeArrival(route.hops, opportunity, p.size);
    if arrival > p.deadline {
      return false;
    }
    var limit := ComputeVolumeLimit(route.hops, leaves, opportunity, p);
    return limit > 0.0;
  }

  /** The candidates are the routes that satisfy the rules, in order of rank.  The nodes that get excluded
      while routes are looked at make no difference to the routes looked at later. */
  method FwdCandidate(currTime: real, currNode: int, plan: seq<Contact>, p: Packet, routes: seq<Route>, excluded0: seq<int>)
    returns (candidates: seq<Route>, excluded: seq<int>)
    requires p.priority < 3 && forall r :: r in routes ==> Usable(r, currTime, plan, p, excluded0)
    ensures multiset(candidates) == multiset(Candidates(routes, currTime, plan, p, excluded0))
    ensures Sorted(candidates)
    ensures excluded0 <= excluded && forall n :: n in excluded ==> n in excluded0 || n == p.sender
  {
    hide Reachable, Divisible, Route.Current;
    var found: seq<Route> := [];
    excluded := excluded0;
    for i := 0 to |routes|
      invariant found == Candidates(routes[..i], currTime, plan, p, excluded0)
      invariant excluded0 <= excluded && forall n :: n in excluded ==> n in excluded0 || n == p.sender
    {
      var route := routes[i];
      assert route in routes && routes[..i + 1][..i] == routes[..i];
      if route.nextNode == p.sender {
        excluded := excluded + [route.nextNode];
        continue;
      }
      if route.bestDeliveryTime > p.deadline {
        continue;
      }
      if route.nextNode in excluded {
        continue;
      }
      var ok := Assess(route, currTime, currNode, plan, p);
      if ok {
        found := found + [route];
      }
    }
    assert routes[..|routes|] == routes;
    candidates := Sort(found);
  }

  // --- What the candidates are good for ------------------------------------------------------------------------

  lemma {:induction false} EarliestEndBounds(hops: seq<Contact>, i: nat, j: nat, k: nat)
    requires i <= k < j <= |hops|
    ensures EarliestEnd(hops, i, j) <= hops[k].end
    decreases j
  {
    if k < j - 1 {
      EarliestEndBounds(hops, i, j - 1, k);
    }
  }

  lemma IndicesOf(hops: seq<Contact>, i: nat)
    requires Distinct(hops) && i < |hops|
    ensures IndexOf(hops, hops[i]) == i == LastIndexOf(hops, hops[i])
  {
  }

  lemma {:induction false} VolumeLimitBounds(hops: seq<Contact>, opportunity: real, p: Packet, n: nat, i: nat)
    requires i < n <= |hops| && p.priority < 3 && Distinct(hops) && forall c :: c in hops ==> c.rate > 0.0
    requires VolumeLimit(hops, opportunity, p, n) > 0.0 && hops[i].volume > 0.0
    ensures Leaves(hops, i, opportunity, p.size) < EarliestEnd(hops, i, |hops|)
    ensures ResidualVolume(hops[i], p.priority) > 0.0
    decreases n
  {
    hide Carries, Leaves;
    if i < n - 1 {
      VolumeLimitBounds(hops, opportunity, p, n - 1, i);
    } else {
      IndicesOf(hops, i);
      var stop := Min(hops[i].end, EarliestEnd(hops, i, |hops|));
      CarriesSign(hops[i], Leaves(hops, i, opportunity, p.size), stop);
    }
  }

  /** A packet sent over a candidate makes every contact: its first byte is there no earlier than the contact
      starts, leaves before the contact and all later ones end, and finds volume left for its priority. */
  lemma CandidateMakesContacts(r: Route, currTime: real, plan: seq<Contact>, p: Packet, excluded: seq<int>, i: nat, k: nat)
    requires Usable(r, currTime, plan, p, excluded) && p.priority < 3 && IsCandidate(r, currTime, plan, p, excluded)
    requires Distinct(r.hops) && forall c :: c in r.hops ==> c.rate > 0.0
    requires i <= k < |r.hops| && r.hops[i].volume > 0.0
    ensures var leaves := Leaves(r.hops, i, EarliestTransmission(r.hops[0], plan, currTime), p.size);
            r.hops[i].start <= leaves < r.hops[k].end && ResidualVolume(r.hops[i], p.priority) > 0.0
  {
    assert r.hops[0] in r.hops;
    var opportunity := EarliestTransmission(r.hops[0], plan, currTime);
    VolumeLimitBounds(r.hops, opportunity, p, |r.hops|, i);
    EarliestEndBounds(r.hops, i, |r.hops|, k);
    OpportunityBounds(r.hops[0], plan, currTime);
  }

  lemma OpportunityBounds(c: Contact, plan: seq<Contact>, currTime: real)
    requires c.rate > 0.0
    ensures EarliestTransmission(c, plan, currTime) >= Max(currTime, c.start)
  {
    var lien := Max(0.0, 0.0 - Relief(c, plan, currTime));
    assert lien / c.rate >= 0.0;
  }

  /** A plan without inverted or negative contacts never delays the first transmission. */
  lemma {:induction false} ReliefIsPositive(c: Contact, plan: seq<Contact>, currTime: real)
    requires forall d :: d in plan ==> d.start <= d.end && d.rate >= 0.0
    ensures Relief(c, plan, currTime) >= 0.0
    decreases |plan|
  {
    hide Carries;
    if plan != [] {
      var d := plan[|plan| - 1];
      assert d in plan;
      ReliefIsPositive(c, plan[..|plan| - 1], currTime);
      CarriesSign(d, Max(currTime, d.start), d.end);
    }
  }

  lemma NothingDelays(c: Contact, plan: seq<Contact>, currTime: real)
    requires c.rate > 0.0 && forall d :: d in plan ==> d.start <= d.end && d.rate >= 0.0
    ensures EarliestTransmission(c, plan, currTime) == Max(currTime, c.start)
  {
    ReliefIsPositive(c, plan, currTime);
  }

  lemma CarriesSign(c: Contact, first: real, stop: real)
    requires c.rate >= 0.0
    ensures first <= stop ==> Carries(c, first, stop) >= 0.0
    ensures stop <= first ==> Carries(c, first, stop) <= 0.0
  {
  }

  /** The projected arrival is never before the best delivery time that ranks the route. */
  lemma {:induction false} ArrivalNotBeforeBest(hops: seq<Contact>, i: nat, opportunity: real, size: real)
    requires i < |hops| && size >= 0.0 && opportunity >= 0.0 && opportunity >= hops[0].start
    requires Distinct(hops) && forall c :: c in hops ==> c.rate > 0.0
    ensures Arrival(0.0, hops[..i + 1]) <= Reaches(hops, i, opportunity, size)
    decreases i
  {
    assert hops[i] in hops && size / hops[i].rate >= 0.0;
    assert hops[..i + 1][..i] == hops[..i];
    if i > 0 {
      ArrivalNotBeforeBest(hops, i - 1, opportunity, size);
    }
  }

  /** So a route that reaches the destination by the deadline also passes rule a). */
  lemma DeadlineImpliesBest(r: Route, currTime: real, plan: seq<Contact>, p: Packet)
    requires r.Current() && currTime >= 0.0 && p.size >= 0.0
    requires Distinct(r.hops) && forall c :: c in r.hops ==> c.rate > 0.0
    requires Divisible(r.hops, currTime, plan)
    requires Reachable(r.hops, currTime, plan, p)
    ensures r.bestDeliveryTime <= p.deadline
  {
    assert r.hops[0] in r.hops;
    var opportunity := EarliestTransmission(r.hops[0], plan, currTime);
    OpportunityBounds(r.hops[0], plan, currTime);
    ArrivalNotBeforeBest(r.hops, |r.hops| - 1, opportunity, p.size);
    assert r.hops[..|r.hops|] == r.hops;
  }

  /** Rule c), which the code does not enforce, holds of every route that the search found. */
  lemma NeverBack(s: Search, w: seq<Contact>, i: nat)
    requires SimpleJourney(s, w) && s.root.to in s.avoid && i < |w|
    ensures w[i].to != s.root.to
  {
    WalkStep(s, w, i);
  }
}

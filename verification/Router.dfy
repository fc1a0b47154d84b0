/** The router as the node calls it: several routes are found, and those that suit the packet are kept. */
module Router {
  import opened Contacts
  import opened Routes
  import opened Volumes
  import opened KBest
  import opened Yen
  import opened Forwarding
  import opened Schedules

  /** A plan of sensible contacts: they carry data, and none ends before it starts. */
  ghost predicate GoodPlan(plan: seq<Contact>) {
    RegularPlan(plan) && forall c :: c in plan ==> c.start <= c.end
  }

  /** By the schedule `d` the packet leaves over every contact of `w` while it and all later ones are open, finds volume
      for its priority there, and arrives by its deadline. */
  ghost predicate Serves(w: seq<Contact>, d: seq<real>, t: seq<real>, currTime: real, p: Packet) {
    && w != [] && Schedule(w, d, t, if currTime < w[0].start then w[0].start else currTime, p.size)
    && d[|w| - 1] + t[|w| - 1] + w[|w| - 1].owlt <= p.deadline
    && forall i :: 0 <= i < |w| ==> Accepts(w, i, d[i], p.priority)
  }

  /** The packet can be sent over `w`. */
  ghost predicate Delivers(w: seq<Contact>, currTime: real, p: Packet) {
    exists d, t :: Serves(w, d, t, currTime, p)
  }

  lemma JourneyIsUsable(s: Search, w: seq<Contact>)
    requires GoodPlan(s.plan) && SimpleJourney(s, w) && s.root.to in s.avoid
    ensures Distinct(w) && forall c :: c in w ==> Regular(c) && c.rate > 0.0 && c.volume > 0.0 && c.to != s.root.to
  {
    ContactsDistinct(s, w);
    forall i | 0 <= i < |w| ensures Regular(w[i]) && w[i].volume > 0.0 && w[i].to != s.root.to {
      StepIsRegular(s, w, i);
      OpenWindow(w[i]);
      NeverBack(s, w, i);
    }
  }

  /** Over the contacts of a journey, schedules in time are those that serve the packet. */
  lemma InTimeIffServes(w: seq<Contact>, d: seq<real>, t: seq<real>, currTime: real, p: Packet)
    requires w != [] && forall c :: c in w ==> c.volume > 0.0
    ensures InTime(w, d, t, Max(currTime, w[0].start), p) <==> Serves(w, d, t, currTime, p)
  {
    hide Accepts;
    assert forall i :: 0 <= i < |w| ==> w[i] in w;
    if Serves(w, d, t, currTime, p) {
      AcceptsBeforeEnd(w, d[0], p.priority);
    }
  }

  lemma AcceptsBeforeEnd(w: seq<Contact>, x: real, priority: nat)
    requires w != [] && Accepts(w, 0, x, priority)
    ensures x < w[0].end
  {
  }

  /** On the journeys of the search, a route is a candidate exactly if it does not lead to the sender and delivers the
      packet. */
  lemma CandidateIffDelivers(s: Search, r: Route, currTime: real, p: Packet)
    requires GoodPlan(s.plan) && SimpleJourney(s, r.hops) && s.root.to in s.avoid && p.priority < 3
    requires Usable(r, currTime, s.plan, p, []) && currTime >= 0.0
    ensures IsCandidate(r, currTime, s.plan, p, []) ==> r.hops[0].to != p.sender && Delivers(r.hops, currTime, p)
    ensures r.hops[0].to != p.sender && Delivers(r.hops, currTime, p) && p.size >= 0.0 ==> IsCandidate(r, currTime, s.plan, p, [])
  {
    hide SimpleJourney, RegularPlan, InTime, Serves, IsCandidate, Reachable;
    JourneyIsUsable(s, r.hops);
    var w := r.hops;
    assert w[0] in w;
    PlanNeverDelays(s.plan, w[0], currTime);
    CandidateIff(r, currTime, s.plan, p, []);
    forall d, t ensures InTime(w, d, t, Max(currTime, w[0].start), p) <==> Serves(w, d, t, currTime, p) {
      InTimeIffServes(w, d, t, currTime, p);
    }
    if Delivers(w, currTime, p) && p.size >= 0.0 {
      DeliveredIsEarly(r, currTime, s.plan, p);
    }
  }

  /** Then its delivery time meets the deadline too. */
  lemma DeliveredIsEarly(r: Route, currTime: real, plan: seq<Contact>, p: Packet)
    requires r.Current() && Sendable(r.hops) && p.priority < 3 && currTime >= 0.0 && p.size >= 0.0
    requires EarliestTransmission(r.hops[0], plan, currTime) == Max(currTime, r.hops[0].start)
    requires exists d, t :: InTime(r.hops, d, t, Max(currTime, r.hops[0].start), p)
    ensures Arrival(0.0, r.hops) <= p.deadline
  {
    hide InTime, Reachable, Volume;
    assert r.hops[0] in r.hops;
    ReachableIff(r.hops, currTime, plan, p);
    DeadlineImpliesBest(r, currTime, plan, p);
  }

  lemma PlanNeverDelays(plan: seq<Contact>, c: Contact, currTime: real)
    requires GoodPlan(plan) && c.rate > 0.0
    ensures EarliestTransmission(c, plan, currTime) == Max(currTime, c.start)
  {
    NothingDelays(c, plan, currTime);
  }

  /** The candidates are the routes that satisfy the rules, and all of them. */
  lemma {:induction false} CandidatesAreRoutes(routes: seq<Route>, currTime: real, plan: seq<Contact>, p: Packet, excluded: seq<int>, r: Route)
    requires forall x :: x in routes ==> Usable(x, currTime, plan, p, excluded)
    ensures r in Forwarding.Candidates(routes, currTime, plan, p, excluded) <==>
      r in routes && IsCandidate(r, currTime, plan, p, excluded)
    decreases |routes|
  {
    hide IsCandidate, Usable;
    if routes != [] {
      var n := |routes| - 1;
      assert routes == routes[..n] + [routes[n]];
      CandidatesAreRoutes(routes[..n], currTime, plan, p, excluded, r);
    }
  }

  /** Earlier delivery first; then more volume; then no less confidence. */
  ghost predicate InOrderOfRank(routes: seq<Route>)
    reads routes
  {
    forall i, j :: 0 <= i < j < |routes| ==>
      && routes[i].bestDeliveryTime <= routes[j].bestDeliveryTime
      && (routes[i].bestDeliveryTime == routes[j].bestDeliveryTime ==> routes[i].volume >= routes[j].volume)
      && (routes[i].bestDeliveryTime == routes[j].bestDeliveryTime && routes[i].volume == routes[j].volume ==>
            routes[i].confidence >= routes[j].confidence)
  }

  /** The routes that are returned for a packet are journeys with positive volume that never come back and do not lead to
      the sender, and over which the packet can be delivered; in order of rank.  If the search found fewer routes
      than requested, all such journeys are among them. */
  method RoutePacket(source: int, destination: int, currTime: real, plan: seq<Contact>, p: Packet, numRoutes: int)
    returns (candidates: seq<Route>, ghost s: Search, ghost found: nat)
    requires currTime >= 0.0 && GoodPlan(plan) && p.priority < 3
    requires exists c :: c in plan && (c.frm == source || c.to == source)
    modifies plan
    ensures s.root.to == source && s == Search(s.root, destination, plan, currTime, [source], {}, {})
    ensures InOrderOfRank(candidates)
    ensures forall r :: r in candidates ==>
      && SimpleJourney(s, r.hops) && r.Current() && r.volume > 0.0 && r.nextNode != p.sender
      && (forall c :: c in r.hops ==> c.to != source) && Delivers(r.hops, currTime, p)
    ensures found < numRoutes && p.size >= 0.0 ==>
      forall w: seq<Contact> :: SimpleJourney(s, w) && w != [] && w[0].to != p.sender && Delivers(w, currTime, p) ==>
        exists r :: r in candidates && r.hops == w
  {
    hide SimpleJourney, Delivers, IsCandidate, BestJourneys, Volume, Forwarding.Candidates, InOrderOfRank;
    var routes;
    ghost var journeys;
    routes, s, journeys := CgrYen(currTime, source, destination, currTime, plan, numRoutes);
    found := |routes|;
    forall r | r in routes ensures Fit(s, r, currTime, p) && Usable(r, currTime, plan, p, []) {
      RouteIsUsable(s, routes, journeys, numRoutes, r, currTime, p);
    }
    ghost var excluded: seq<int> := [];
    candidates, excluded := FwdCandidate(currTime, source, plan, p, routes, []);
    SortedIsRanked(candidates);
    forall r | r in candidates
      ensures SimpleJourney(s, r.hops) && r.Current() && r.volume > 0.0 && r.nextNode != p.sender
      ensures (forall c :: c in r.hops ==> c.to != source) && Delivers(r.hops, currTime, p)
    {
      assert r in multiset(candidates) && r in multiset(Forwarding.Candidates(routes, currTime, plan, p, []));
      ChosenDelivers(s, routes, r, currTime, p);
    }
    if found < numRoutes && p.size >= 0.0 {
      forall w: seq<Contact> | SimpleJourney(s, w) && w != [] && w[0].to != p.sender && Delivers(w, currTime, p)
        ensures exists r :: r in candidates && r.hops == w
      {
        var r := NoneMissing(s, routes, journeys, numRoutes, w, currTime, p);
        assert r in multiset(Forwarding.Candidates(routes, currTime, plan, p, [])) && r in multiset(candidates);
      }
    }
  }

  lemma SortedIsRanked(routes: seq<Route>)
    requires Sorted(routes)
    ensures InOrderOfRank(routes)
  {
    forall i, j | 0 <= i < j < |routes| ensures Less(routes[i], routes[j]) {
    }
  }

  /** What the routes of the search bring along for the choice of candidates. */
  ghost predicate Fit(s: Search, r: Route, currTime: real, p: Packet)
    reads r
  {
    SimpleJourney(s, r.hops) && Usable(r, currTime, s.plan, p, []) && r.volume > 0.0
  }

  lemma ChosenDelivers(s: Search, routes: seq<Route>, r: Route, currTime: real, p: Packet)
    requires GoodPlan(s.plan) && s.root.to in s.avoid && p.priority < 3 && currTime >= 0.0
    requires forall x :: x in routes ==> Fit(s, x, currTime, p) && Usable(x, currTime, s.plan, p, [])
    requires r in Forwarding.Candidates(routes, currTime, s.plan, p, [])
    ensures SimpleJourney(s, r.hops) && r.Current() && r.volume > 0.0 && r.nextNode != p.sender
    ensures (forall c :: c in r.hops ==> c.to != s.root.to) && Delivers(r.hops, currTime, p)
  {
    hide SimpleJourney, Delivers, IsCandidate, Divisible, Volume, Forwarding.Candidates;
    CandidatesAreRoutes(routes, currTime, s.plan, p, [], r);
    CandidateIffDelivers(s, r, currTime, p);
    JourneyIsUsable(s, r.hops);
  }

  lemma RouteIsUsable(s: Search, routes: seq<Route>, journeys: seq<seq<Contact>>, numRoutes: int, r: Route, currTime: real, p: Packet)
    requires GoodPlan(s.plan) && s.root.to in s.avoid && s.departure >= 0.0
    requires Holds(routes, journeys) && BestJourneys(s, journeys, numRoutes) && r in routes && r.Current()
    ensures Fit(s, r, currTime, p)
  {
    hide SimpleJourney, Journey, Volume;
    JourneyIsUsable(s, r.hops);
    RoutesAreUseful(s, r.hops);
    assert r.hops[0] in r.hops;
  }

  lemma NoneMissing(s: Search, routes: seq<Route>, journeys: seq<seq<Contact>>, numRoutes: int, w: seq<Contact>, currTime: real, p: Packet)
    returns (r: Route)
    requires GoodPlan(s.plan) && s.root.to in s.avoid && p.priority < 3 && currTime >= 0.0 && p.size >= 0.0
    requires Holds(routes, journeys) && BestJourneys(s, journeys, numRoutes) && |routes| < numRoutes
    requires forall x :: x in routes ==> Fit(s, x, currTime, p) && Usable(x, currTime, s.plan, p, [])
    requires SimpleJourney(s, w) && w[0].to != p.sender && Delivers(w, currTime, p)
    ensures r in Forwarding.Candidates(routes, currTime, s.plan, p, []) && r.hops == w
  {
    hide SimpleJourney, BestJourneys, Delivers, Fit, Usable, IsCandidate, Forwarding.Candidates;
    AllAreFound(s, journeys, numRoutes, w);
    var k :| 0 <= k < |journeys| && journeys[k] == w;
    r := routes[k];
    CandidateIffDelivers(s, r, currTime, p);
    CandidatesAreRoutes(routes, currTime, s.plan, p, [], r);
  }

  lemma AllAreFound(s: Search, journeys: seq<seq<Contact>>, numRoutes: int, w: seq<Contact>)
    requires BestJourneys(s, journeys, numRoutes) && |journeys| < numRoutes && SimpleJourney(s, w)
    ensures w in journeys
  {
    hide SimpleJourney, Journey;
  }
}

/** `cgr_yen`: the best routes from a source to a destination, in order. */
module Yen {
  import opened Contacts
  import opened Routes
  import opened Dijkstra
  import opened KBest

  // --- The ghost view of the two containers -----------------------------------------------------------

  /** The hops of the accepted routes (container A) are `known`. */
  ghost predicate Holds(routes: seq<Route>, known: seq<seq<Contact>>)
    reads routes`hops
  {
    |routes| == |known| && forall k :: 0 <= k < |routes| ==> routes[k].hops == known[k]
  }

  /** The hops of the potential routes (container B). */
  ghost function Candidates(potential: seq<Route>): set<seq<Contact>>
    reads potential`hops
  {
    set r | r in potential :: r.hops
  }

  /** Potential routes are routes, with metrics up to date. */
  ghost predicate GoodCandidates(s: Search, potential: seq<Route>)
    reads potential
  {
    forall r :: r in potential ==> r.Current() && IsRoute(s, r.hops)
  }

  ghost predicate Unique(ms: multiset<Route>) {
    forall r :: r in ms ==> ms[r] == 1
  }

  lemma UniqueIsDistinct(rs: seq<Route>)
    requires Unique(multiset(rs))
    ensures Distinct(rs)
  {
    forall i, j | 0 <= i < j < |rs| ensures rs[i] != rs[j] {
      assert rs == rs[..j] + [rs[j]] + rs[j + 1..];
      assert rs[i] in rs[..j];
      assert multiset(rs)[rs[j]] == 1;
    }
  }

  /** The search that `cgr_yen` answers, for a root contact made by it. */
  ghost predicate FromRoot(s: Search) {
    && Unrestricted(s)
    && s.root.frm == s.root.to && s.root.owlt == 0.0 && s.root.start == s.departure >= 0.0
    && (exists c :: c in s.plan && (c.frm == s.root.to || c.to == s.root.to))
    && (forall c :: c in s.plan ==> c.owlt >= 0.0)
  }

  /** Metrics with the root contact included give the arrival time of the journey. */
  lemma BestDeliveryIsDelivery(s: Search, h: seq<Contact>)
    requires FromRoot(s) && h != [] && h[0] == s.root
    ensures BestDelivery(h) == Delivery(s, h)
  {
    assert h == [s.root] + h[1..];
    ArrivalAppend(0.0, [s.root], h[1..]);
    assert [s.root][..0] == [];
  }

  lemma PrefixIsChainable(h: seq<Contact>, n: nat)
    requires Chainable(h) && 1 <= n <= |h|
    ensures Chainable(h[..n])
  {
    forall k | 0 < k < n ensures h[..n][k].to !in Touched(h[..n][..k]) {
      assert h[..n][..k] == h[..k];
    }
  }

  lemma RouteIsChainable(s: Search, h: seq<Contact>)
    requires FromRoot(s) && IsRoute(s, h)
    ensures Chainable(h)
  {
    RootedJourneyIsChainable(s, h[1..]);
    assert [s.root] + h[1..] == h;
  }

  lemma RouteIsDistinct(s: Search, h: seq<Contact>)
    requires FromRoot(s) && IsRoute(s, h)
    ensures Distinct(h) && forall k :: 1 <= k < |h| ==> h[k] in s.plan
  {
    WalkOpen(s, h[1..]);
    forall k | 1 <= k < |h| ensures h[k] in s.plan {
      assert h[k] == h[1..][k - 1] && h[1..][k - 1] in h[1..];
    }
    forall i, j | 0 <= i < j < |h| ensures h[i] != h[j] {
      if i > 0 {
        assert Nodes(h[1..])[i - 1] != Nodes(h[1..])[j - 1];
      }
    }
  }

  // --- Preparing a spur search --------------------------------------------------------------------------

  method ResetContacts(plan: seq<Contact>)
    modifies plan`arrivalTime, plan`visited, plan`predecessor, plan`visitedNodes
    modifies plan`suppressed, plan`suppressedNextHop
    ensures forall c :: c in plan ==> !c.suppressed && c.suppressedNextHop == []
  {
    for i := 0 to |plan|
      invariant forall j :: 0 <= j < i ==> !plan[j].suppressed && plan[j].suppressedNextHop == []
    {
      plan[i].ClearDijkstraWorkingArea();
      plan[i].ClearManagementWorkingArea();
    }
  }

  method Suppress(contacts: seq<Contact>)
    modifies contacts`suppressed
    ensures forall c :: c in contacts ==> c.suppressed
  {
    for i := 0 to |contacts|
      invariant forall j :: 0 <= j < i ==> contacts[j].suppressed
    {
      contacts[i].suppressed := true;
    }
  }

  /** Suppress the edges out of the spur contact that known routes with the same prefix use. */
  method SuppressKnownEdges(routes: seq<Route>, ghost known: seq<seq<Contact>>, prefix: seq<Contact>, spur: Contact)
    requires Holds(routes, known)
    requires forall r :: r in known ==> r != prefix
    modifies spur`suppressedNextHop
    ensures (set c | c in spur.suppressedNextHop) == (set c | c in old(spur.suppressedNextHop)) + NextHops(known, prefix)
  {
    for k := 0 to |routes|
      invariant (set c | c in spur.suppressedNextHop) ==
        (set c | c in old(spur.suppressedNextHop)) + NextHops(known[..k], prefix)
    {
      var hops := routes[k].hops;
      ghost var before := set c | c in spur.suppressedNextHop;
      assert known[..k + 1] == known[..k] + [hops];
      NextHopsSnoc(known[..k], hops, prefix);
      if prefix <= hops {
        assert hops == known[k] && known[k] in known;
        if hops[|prefix|] !in spur.suppressedNextHop {
          spur.suppressedNextHop := spur.suppressedNextHop + [hops[|prefix|]];
        }
        assert (set c | c in spur.suppressedNextHop) == before + {hops[|prefix|]};
      }
    }
    assert known[..|known|] == known;
  }

  lemma NextHopsSnoc(known: seq<seq<Contact>>, h: seq<Contact>, p: seq<Contact>)
    ensures NextHops(known + [h], p) == NextHops(known, p) + if p < h then {h[|p|]} else {}
  {
  }

  /** The state of the root contact: what it suppresses are first hops of known routes. */
  ghost predicate RootState(s: Search, known: seq<seq<Contact>>)
    reads s.root`suppressedNextHop
  {
    forall c :: c in s.root.suppressedNextHop ==> c in NextHops(known, [s.root])
  }

  /** Set up the working areas for the search of the best deviation after contact number `i`. */
  method PrepareSpur(ghost s: Search, routes: seq<Route>, ghost known: seq<seq<Contact>>, plan: seq<Contact>,
                     last: seq<Contact>, i: nat, departure: real)
    requires FromRoot(s) && s.plan == plan && Holds(routes, known) && AreRoutes(s, known) && RootState(s, known)
    requires IsRoute(s, last) && i + 1 < |last| && departure == Delivery(s, last[..i + 1])
    modifies plan, s.root
    ensures SearchFrom(last[i], s.destination, plan) == SpurSearch(s, known, last, i)
    ensures Searchable(last[i], plan) && RootState(s, known)
  {
    hide SearchFrom, SpurSearch, Searchable;
    RouteIsDistinct(s, last);
    NotAPrefix(s, known, last, i);
    assert last[..1] == [s.root];
    var prefix, spur := last[..i + 1], last[i];
    ResetAndSuppress(s, plan, last[..i]);
    ghost var before := set c | c in spur.suppressedNextHop;
    assert before <= NextHops(known, prefix) by {
      assert i == 0 ==> before <= NextHops(known, [s.root]);
    }
    SuppressKnownEdges(routes, known, prefix, spur);
    MarkSpur(prefix, spur, departure);
    SpurReady(s, known, last, i);
  }

  lemma SpurReady(s: Search, known: seq<seq<Contact>>, last: seq<Contact>, i: nat)
    requires FromRoot(s) && IsRoute(s, last) && i + 1 < |last|
    requires forall c :: c in s.plan ==> (c.suppressed <==> c in last[..i])
    requires forall c :: c in s.plan && c != last[i] ==> c.suppressedNextHop == []
    requires (set c | c in last[i].suppressedNextHop) == NextHops(known, last[..i + 1])
    requires last[i].arrivalTime == Delivery(s, last[..i + 1]) && last[i].visitedNodes == Nodes(last[..i + 1])
    ensures SearchFrom(last[i], s.destination, s.plan) == SpurSearch(s, known, last, i)
    ensures Searchable(last[i], s.plan)
  {
    SpurIsSearchable(s, last, i);
  }

  method ResetAndSuppress(ghost s: Search, plan: seq<Contact>, contacts: seq<Contact>)
    requires s.root !in plan && forall k :: 0 <= k < |contacts| ==> contacts[k] == s.root || contacts[k] in plan
    modifies plan`arrivalTime, plan`visited, plan`predecessor, plan`visitedNodes
    modifies plan`suppressed, plan`suppressedNextHop, s.root`suppressed
    ensures forall c :: c in plan ==> (c.suppressed <==> c in contacts) && c.suppressedNextHop == []
  {
    ResetContacts(plan);
    Suppress(contacts);
  }

  /** The spur contact takes the part of the root contact. */
  method MarkSpur(prefix: seq<Contact>, spur: Contact, departure: real)
    modifies spur`arrivalTime, spur`visited, spur`predecessor, spur`visitedNodes
    ensures spur.arrivalTime == departure && spur.visitedNodes == Nodes(prefix)
  {
    spur.ClearDijkstraWorkingArea();
    spur.arrivalTime := departure;
    for k := 0 to |prefix|
      invariant spur.arrivalTime == departure && spur.visitedNodes == Nodes(prefix)[..k]
    {
      spur.visitedNodes := spur.visitedNodes + [prefix[k].to];
    }
  }

  lemma NotAPrefix(s: Search, known: seq<seq<Contact>>, last: seq<Contact>, i: nat)
    requires AreRoutes(s, known) && IsRoute(s, last) && i + 1 < |last|
    ensures forall r :: r in known ==> r != last[..i + 1]
  {
    forall r | r in known ensures r != last[..i + 1] {
      NoRouteExtendsAnother(s, r, last);
    }
  }

  /** The spur contact leads to a node of the plan and comes from a node that is avoided. */
  lemma SpurIsSearchable(s: Search, last: seq<Contact>, i: nat)
    requires FromRoot(s) && IsRoute(s, last) && i + 1 < |last|
    ensures exists c :: c in s.plan && (c.frm == last[i].to || c.to == last[i].to)
    ensures last[i].to in Nodes(last[..i + 1]) && last[i].frm in Nodes(last[..i + 1])
  {
    var ns := Nodes(last[..i + 1]);
    assert ns[i] == last[i].to;
    RouteIsDistinct(s, last);
    if i > 0 {
      assert last[1..][i - 1] == last[i];
      WalkStep(s, last[1..], i - 1);
      assert ns[i - 1] == last[i - 1].to == last[i].frm;
    }
  }

  // --- Searching deviations -----------------------------------------------------------------------------

  /** The hops of the last route from the root contact to the spur contact, as a route. */
  method RootPath(ghost s: Search, last: seq<Contact>, i: nat) returns (rootPath: Route)
    requires FromRoot(s) && IsRoute(s, last) && i + 1 < |last|
    ensures fresh(rootPath) && rootPath.hops == last[..i + 1]
    ensures rootPath.bestDeliveryTime == Delivery(s, last[..i + 1])
  {
    hide Chainable, FromRoot, SimpleJourney, Delivery, BestDelivery;
    RouteIsChainable(s, last);
    RouteIsDistinct(s, last);
    PrefixIsChainable(last, i + 1);
    BestDeliveryIsDelivery(s, last[..i + 1]);
    var spurContactIndex := IndexOf(last, last[i]);
    assert spurContactIndex == i;
    rootPath := BuildRoute(last[..spurContactIndex + 1]);
  }

  /** The root path continued by the spur path, if there is one. */
  method TotalPath(ghost s: Search, ghost known: seq<seq<Contact>>, ghost last: seq<Contact>, ghost i: nat,
                   rootPath: Route, spurPath: Route?)
    returns (cand: Route?)
    requires FromRoot(s) && IsRoute(s, last) && i + 1 < |last| && rootPath.hops == last[..i + 1]
    requires spurPath != null ==> SimpleJourney(SpurSearch(s, known, last, i), spurPath.hops)
    requires var t := SpurSearch(s, known, last, i);
      forall w :: Journey(t, w) ==> spurPath != null && Arrival(t.departure, spurPath.hops) <= Arrival(t.departure, w)
    ensures cand != null ==> fresh(cand) && cand.Current() && IsRoute(s, cand.hops) && cand.hops !in known
    ensures Settled(s, known, if cand == null then {} else {cand.hops}, last[..i + 1])
  {
    cand := null;
    ghost var v := [];
    hide FromRoot, IsRoute, SpurSearch, Settled, Route.Current;
    if spurPath != null {
      v := spurPath.hops;
      FromRootIsUnrestricted(s);
      SpurMakesRoute(s, known, last, i, v);
      RouteIsChainable(s, last[..i + 1] + v);
      cand := BuildRoute(rootPath.hops + spurPath.hops);
    }
    FromRootIsUnrestricted(s);
    SpurSettles(s, known, if cand == null then {} else {cand.hops}, last, i, v);
  }

  lemma FromRootIsUnrestricted(s: Search)
    requires FromRoot(s)
    ensures Unrestricted(s)
  {
  }

  /** The best route that deviates from the last one right after its contact number `i`, if any.  It
      differs from every route accepted so far. */
  method SpurCandidate(ghost s: Search, routes: seq<Route>, ghost known: seq<seq<Contact>>, plan: seq<Contact>,
                       destination: int, last: seq<Contact>, i: nat)
    returns (cand: Route?)
    requires FromRoot(s) && s.plan == plan && s.destination == destination
    requires Holds(routes, known) && AreRoutes(s, known) && RootState(s, known)
    requires IsRoute(s, last) && i + 1 < |last|
    modifies plan, s.root
    ensures RootState(s, known)
    ensures cand != null ==> fresh(cand) && cand.Current() && IsRoute(s, cand.hops) && cand.hops !in known
    ensures Settled(s, known, if cand == null then {} else {cand.hops}, last[..i + 1])
  {
    RouteIsDistinct(s, last);
    hide FromRoot, RootState, IsRoute, Searchable, SearchFrom, SpurSearch, Settled, Route.Current, SimpleJourney, Journey;
    var rootPath := RootPath(s, last, i);
    PrepareSpur(s, routes, known, plan, last, i, rootPath.bestDeliveryTime);
    var spurPath := CgrDijkstra(last[i], destination, plan);
    cand := TotalPath(s, known, last, i, rootPath, spurPath);
  }

  /** What holds between acceptances: the prefixes of known routes up to length `n` of the last one
      are settled by the potential routes, which are all distinct objects. */
  ghost predicate Between(s: Search, routes: seq<Route>, known: seq<seq<Contact>>, potential: seq<Route>, n: int)
    reads routes`hops, potential
  {
    && known != [] && Holds(routes, known) && AreRoutes(s, known)
    && GoodCandidates(s, potential)
    && Unique(multiset(routes) + multiset(potential))
    && SettledUpTo(s, known, Candidates(potential), n)
  }

  lemma BetweenStep(s: Search, routes: seq<Route>, known: seq<seq<Contact>>, potential: seq<Route>, i: nat, cand: Route?)
    requires Between(s, routes, known, potential, i) && i + 1 < |known[|known| - 1]|
    requires cand != null ==> cand !in routes && cand !in potential && cand.Current() && IsRoute(s, cand.hops)
    requires Settled(s, known, if cand == null then {} else {cand.hops}, known[|known| - 1][..i + 1])
    ensures Between(s, routes, known, if cand == null then potential else potential + [cand], i + 1)
  {
    var found := if cand == null then {} else {cand.hops};
    SpurKeeps(s, known, Candidates(potential), found, i);
    if cand == null {
      assert Candidates(potential) + found == Candidates(potential);
    } else {
      CandidatesSnoc(potential, cand);
      UniqueSnoc(multiset(routes), potential, cand);
    }
  }

  lemma UniqueSnoc(routes: multiset<Route>, potential: seq<Route>, cand: Route)
    requires Unique(routes + multiset(potential)) && cand !in routes && cand !in potential
    ensures Unique(routes + multiset(potential + [cand]))
  {
    var ms, ms' := routes + multiset(potential), routes + multiset(potential + [cand]);
    assert ms' == ms + multiset{cand};
    forall r | r in ms' ensures ms'[r] == 1 {
      assert r != cand ==> r in ms;
    }
  }

  lemma CandidatesSnoc(potential: seq<Route>, cand: Route)
    ensures Candidates(potential + [cand]) == Candidates(potential) + {cand.hops}
  {
    assert forall r :: r in potential + [cand] <==> r in potential || r == cand;
  }

  lemma LastRoute(s: Search, routes: seq<Route>, known: seq<seq<Contact>>, potential: seq<Route>, n: int)
    requires Between(s, routes, known, potential, n)
    ensures known != [] && |routes| == |known|
    ensures routes[|routes| - 1].hops == known[|known| - 1] && |known[|known| - 1]| > 1
    ensures Holds(routes, known) && AreRoutes(s, known) && IsRoute(s, known[|known| - 1])
  {
    assert IsRoute(s, known[|known| - 1]);
  }

  /** One round of the inner loop: look for a deviation after contact number `i` of the last route. */
  method SpurStep(ghost s: Search, routes: seq<Route>, ghost known: seq<seq<Contact>>, plan: seq<Contact>,
                  destination: int, potential0: seq<Route>, last: seq<Contact>, i: nat)
    returns (potential: seq<Route>)
    requires FromRoot(s) && s.plan == plan && s.destination == destination
    requires Between(s, routes, known, potential0, i) && RootState(s, known)
    requires last == known[|known| - 1] && i + 1 < |last|
    modifies plan, s.root
    ensures Between(s, routes, known, potential, i + 1) && RootState(s, known)
    ensures potential == potential0 || (|potential| > 0 && potential[..|potential| - 1] == potential0 &&
      var cand := potential[|potential| - 1]; fresh(cand) && cand.hops !in known)
  {
    hide Between, RootState, IsRoute, FromRoot, Settled, Route.Current;
    LastRoute(s, routes, known, potential0, i);
    var cand := SpurCandidate(s, routes, known, plan, destination, last, i);
    BetweenStep(s, routes, known, potential0, i, cand);
    potential := if cand == null then potential0 else potential0 + [cand];
  }

  /** The inner loop: one spur search for every contact of the last route but its final one. */
  method Deviations(ghost s: Search, routes: seq<Route>, ghost known: seq<seq<Contact>>, plan: seq<Contact>,
                    destination: int, potential0: seq<Route>)
    returns (potential: seq<Route>)
    requires FromRoot(s) && s.plan == plan && s.destination == destination
    requires Between(s, routes, known, potential0, 0) && RootState(s, known)
    modifies plan, s.root
    ensures Between(s, routes, known, potential, Spurs(known)) && RootState(s, known)
    ensures potential0 <= potential
    ensures forall k :: |potential0| <= k < |potential| ==> fresh(potential[k]) && potential[k].hops !in known
    ensures forall r :: r in potential ==> r in potential0 || fresh(r)
  {
    hide Between, RootState, FromRoot;
    potential := potential0;
    LastRoute(s, routes, known, potential, 0);
    var last := routes[|routes| - 1].hops;
    for i := 0 to |last| - 1
      invariant Between(s, routes, known, potential, i) && RootState(s, known)
      invariant potential0 <= potential
      invariant forall k :: |potential0| <= k < |potential| ==> fresh(potential[k]) && potential[k].hops !in known
    {
      potential := SpurStep(s, routes, known, plan, destination, potential, last, i);
    }
  }

  // --- Accepting the best candidate ---------------------------------------------------------------------

  lemma DeviationsInOrder(s: Search, routes: seq<Route>, known: seq<seq<Contact>>, potential0: seq<Route>, potential: seq<Route>, n: int)
    requires Between(s, routes, known, potential, n) && InOrder(s, known, Candidates(potential0))
    requires potential0 <= potential
    requires forall k :: |potential0| <= k < |potential| ==> potential[k].hops !in known
    ensures InOrder(s, known, Candidates(potential))
  {
    forall c | c in Candidates(potential) ensures c in Candidates(potential0) || (IsRoute(s, c) && c !in known) {
      var k :| 0 <= k < |potential| && potential[k].hops == c;
      assert potential[k] in potential;
      assert k < |potential0| ==> potential0[k] in potential0;
    }
    NewCandidatesInOrder(s, known, Candidates(potential0), Candidates(potential));
  }

  /** Rank the potential routes and accept the first. */
  method AcceptBest(ghost s: Search, routes0: seq<Route>, ghost known0: seq<seq<Contact>>, potential0: seq<Route>)
    returns (routes: seq<Route>, potential: seq<Route>, ghost known: seq<seq<Contact>>)
    requires FromRoot(s) && potential0 != []
    requires Between(s, routes0, known0, potential0, Spurs(known0))
    requires InOrder(s, known0, Candidates(potential0))
    ensures |routes| == |routes0| + 1 && routes[..|routes0|] == routes0 && known0 <= known
    ensures Between(s, routes, known, potential, 0) && InOrder(s, known, Candidates(potential))
    ensures forall r :: r in routes || r in potential ==> r in routes0 || r in potential0
  {
    var sorted := Sort(potential0);
    SortedIsBetween(s, routes0, known0, potential0, sorted, Spurs(known0));
    routes, potential, known := routes0 + [sorted[0]], sorted[1..], known0 + [sorted[0].hops];
    AcceptFirst(s, routes0, known0, sorted);
    SameElements(sorted, potential0);
  }

  lemma SortedIsBetween(s: Search, routes: seq<Route>, known: seq<seq<Contact>>, potential: seq<Route>, sorted: seq<Route>, n: int)
    requires Between(s, routes, known, potential, n) && multiset(sorted) == multiset(potential)
    ensures Between(s, routes, known, sorted, n) && Candidates(sorted) == Candidates(potential) && |sorted| == |potential|
  {
    SameElements(sorted, potential);
    assert |multiset(sorted)| == |multiset(potential)|;
  }

  lemma SameElements(a: seq<Route>, b: seq<Route>)
    requires multiset(a) == multiset(b)
    ensures forall r :: r in a <==> r in b
  {
    forall r ensures r in a <==> r in b {
      assert r in a <==> r in multiset(a);
      assert r in b <==> r in multiset(b);
    }
  }

  lemma AcceptFirst(s: Search, routes: seq<Route>, known: seq<seq<Contact>>, sorted: seq<Route>)
    requires FromRoot(s) && sorted != [] && Sorted(sorted)
    requires Between(s, routes, known, sorted, Spurs(known))
    requires InOrder(s, known, Candidates(sorted))
    ensures Between(s, routes + [sorted[0]], known + [sorted[0].hops], sorted[1..], 0)
    ensures InOrder(s, known + [sorted[0].hops], Candidates(sorted[1..]))
  {
    hide Route.Current, IsRoute, Sorted, SettledUpTo, InOrder, FromRoot;
    var first, rest := sorted[0], sorted[1..];
    assert sorted == [first] + rest;
    assert first in sorted;
    assert Candidates(sorted) == {first.hops} + Candidates(rest);
    forall d | d in Candidates(sorted) ensures Delivery(s, first.hops) <= Delivery(s, d) {
      FirstIsEarliest(s, sorted, d);
    }
    AcceptInOrder(s, known, Candidates(sorted), first.hops, Candidates(rest));
    AcceptKeeps(s, known, Candidates(sorted), first.hops, Candidates(rest));
    assert multiset(routes + [first]) + multiset(rest) == multiset(routes) + multiset(sorted);
  }

  lemma FirstIsEarliest(s: Search, sorted: seq<Route>, d: seq<Contact>)
    requires FromRoot(s) && sorted != [] && Sorted(sorted) && GoodCandidates(s, sorted) && d in Candidates(sorted)
    ensures Delivery(s, sorted[0].hops) <= Delivery(s, d)
  {
    var k :| 0 <= k < |sorted| && sorted[k].hops == d;
    assert sorted[0] in sorted && sorted[k] in sorted;
    BestDeliveryIsDelivery(s, sorted[0].hops);
    BestDeliveryIsDelivery(s, d);
    assert k > 0 ==> Less(sorted[0], sorted[k]);
  }

  // --- The whole search ---------------------------------------------------------------------------------

  lemma FirstIsBetween(s: Search, first: Route)
    requires IsRoute(s, first.hops)
    requires forall w :: Journey(s, w) ==> Delivery(s, first.hops) <= Arrival(s.departure, w)
    ensures Between(s, [first], [first.hops], [], 0) && InOrder(s, [first.hops], Candidates([]))
  {
    var h := first.hops;
    var known := [h];
    assert forall r, m :: r in [h] && 1 <= m < |r| ==> r[..m] <= h;
    assert BestBut(s, known[..0], h);
  }

  /** Without potential routes, every route is known. */
  lemma NothingLeft(s: Search, routes: seq<Route>, known: seq<seq<Contact>>)
    requires Between(s, routes, known, [], Spurs(known))
    ensures forall h :: IsRoute(s, h) ==> h in known
  {
    forall h | IsRoute(s, h) && h !in known ensures false {
      CandidatesCover(s, known, Candidates([]), h);
    }
  }

  /** One round of the outer loop: accept the best deviation from the routes so far, if any. */
  method NextRoute(ghost s: Search, routes0: seq<Route>, ghost known0: seq<seq<Contact>>, potential0: seq<Route>,
                   destination: int, plan: seq<Contact>)
    returns (routes: seq<Route>, potential: seq<Route>, ghost known: seq<seq<Contact>>, found: bool)
    requires FromRoot(s) && s.plan == plan && s.destination == destination
    requires Between(s, routes0, known0, potential0, 0) && InOrder(s, known0, Candidates(potential0))
    requires RootState(s, known0)
    modifies plan, s.root
    ensures Between(s, routes, known, potential, 0) && InOrder(s, known, Candidates(potential)) && RootState(s, known)
    ensures |routes| == |routes0| + if found then 1 else 0
    ensures known0 <= known && |known| == |routes|
    ensures !found ==> forall h :: IsRoute(s, h) ==> h in known
    ensures forall r :: r in routes || r in potential ==> r in routes0 || r in potential0 || fresh(r)
  {
    hide RootState, FromRoot, IsRoute, Between, InOrder;
    LastRoute(s, routes0, known0, potential0, 0);
    routes, known, found := routes0, known0, false;
    potential := Deviations(s, routes, known, plan, destination, potential0);
    DeviationsInOrder(s, routes, known, potential0, potential, Spurs(known));
    if potential == [] {
      NothingLeft(s, routes, known);
      return;
    }
    found := true;
    routes, potential, known := AcceptBest(s, routes, known, potential);
    LastRoute(s, routes, known, potential, 0);
    RootStateKept(s, known0, known);
  }

  /** The outer loop: accept further routes until there are enough or none is left. */
  method MoreRoutes(ghost s: Search, first: Route, destination: int, plan: seq<Contact>, numRoutes: int)
    returns (routes: seq<Route>, ghost known: seq<seq<Contact>>)
    requires FromRoot(s) && s.plan == plan && s.destination == destination
    requires IsRoute(s, first.hops) && s.root.suppressedNextHop == []
    requires forall w :: Journey(s, w) ==> Delivery(s, first.hops) <= Arrival(s.departure, w)
    modifies plan, s.root
    ensures forall r :: r in routes ==> r == first || fresh(r)
    ensures known != [] && known[0] == first.hops && Holds(routes, known) && AreRoutes(s, known)
    ensures Ranked(s, known) && Ascending(s, known) && Unique(multiset(routes))
    ensures |known| <= 1 || |known| <= numRoutes
    ensures |known| < numRoutes ==> forall h :: IsRoute(s, h) ==> h in known
  {
    assert RootState(s, [first.hops]);
    hide RootState, FromRoot, IsRoute, Journey, Between, InOrder, Unique, Ranked, Ascending;
    FirstIsBetween(s, first);
    routes, known := [first], [first.hops];
    var potential: seq<Route> := [];
    var k := 0;
    while k < numRoutes - 1
      invariant |routes| == |known| == k + 1 && (k == 0 || k < numRoutes) && known[0] == first.hops
      invariant Between(s, routes, known, potential, 0) && InOrder(s, known, Candidates(potential))
      invariant RootState(s, known)
      invariant forall r :: r in routes || r in potential ==> r == first || fresh(r)
    {
      var found;
      routes, potential, known, found := NextRoute(s, routes, known, potential, destination, plan);
      if !found {
        break;
      }
      k := k + 1;
    }
    UniqueRoutes(s, routes, known, potential, 0);
  }

  lemma UniqueRoutes(s: Search, routes: seq<Route>, known: seq<seq<Contact>>, potential: seq<Route>, n: int)
    requires Between(s, routes, known, potential, n) && InOrder(s, known, Candidates(potential))
    ensures Unique(multiset(routes)) && Holds(routes, known) && AreRoutes(s, known)
    ensures Ranked(s, known) && Ascending(s, known)
  {
    var ms := multiset(routes) + multiset(potential);
    forall r | r in multiset(routes) ensures multiset(routes)[r] == 1 {
      assert r in ms && ms[r] == 1;
    }
  }

  lemma RootStateKept(s: Search, known: seq<seq<Contact>>, known': seq<seq<Contact>>)
    requires RootState(s, known) && known <= known'
    ensures RootState(s, known')
  {
    forall c | c in s.root.suppressedNextHop ensures c in NextHops(known', [s.root]) {
      var r :| r in known && [s.root] < r && r[1] == c;
      assert r in known';
    }
  }

  method PopRoot(route: Route)
    requires |route.hops| > 1
    modifies route
    ensures route.hops == Tail(old(route.hops)) && route.Current()
  {
    route.hops := route.hops[1..];
    route.RefreshMetrics();
  }

  /** Take the root contact off all routes and refresh their metrics. */
  method PopRoots(routes: seq<Route>, ghost known: seq<seq<Contact>>)
    requires Holds(routes, known) && Unique(multiset(routes)) && forall h :: h in known ==> |h| > 1
    modifies routes
    ensures Holds(routes, Tails(known)) && forall r :: r in routes ==> r.Current()
  {
    hide Route.Current, Unique;
    UniqueIsDistinct(routes);
    assert forall k :: 0 <= k < |known| ==> |known[k]| > 1;
    for k := 0 to |routes|
      invariant forall j :: 0 <= j < k ==> routes[j].hops == Tail(known[j]) && routes[j].Current()
      invariant forall j :: k <= j < |routes| ==> routes[j].hops == known[j]
    {
      PopRoot(routes[k]);
    }
  }

  /** The journeys of the routes returned are the best ones, in the sense of `BestJourneys`. */
  method CgrYen(timeNow: real, source: int, destination: int, currTime: real, plan: seq<Contact>, numRoutes: int)
    returns (routes: seq<Route>, ghost s: Search, ghost journeys: seq<seq<Contact>>)
    requires timeNow == currTime >= 0.0
    requires forall c :: c in plan ==> c.owlt >= 0.0
    requires exists c :: c in plan && (c.frm == source || c.to == source)
    modifies plan
    ensures fresh(s.root) && s.root.to == source && s == Search(s.root, destination, plan, currTime, [source], {}, {})
    ensures forall r :: r in routes ==> fresh(r) && r.Current()
    ensures Holds(routes, journeys) && BestJourneys(s, journeys, numRoutes)
    ensures source != destination ==> forall w :: Journey(Unconfined(s), w) ==>
      routes != [] && Arrival(s.departure, journeys[0]) <= Arrival(s.departure, w)
  {
    hide FromRoot, IsRoute, BestJourneys, Route.Current, Unique, Ranked, Ascending;
    var first;
    first, s := FirstRoute(timeNow, source, destination, currTime, plan);
    routes, journeys := [], [];
    if first != null {
      ghost var known;
      routes, known := MoreRoutes(s, first, destination, plan, numRoutes);
      RankedTails(s, known, numRoutes);
      RoutesAreLong(s, known);
      journeys := Tails(known);
      assert forall k :: 0 <= k < |routes| ==> routes[k] in routes && fresh(routes[k]);
      PopRoots(routes, known);
    } else {
      NoJourneys(s, numRoutes);
    }
    if source != destination {
      forall w | Journey(Unconfined(s), w)
        ensures routes != [] && Arrival(s.departure, journeys[0]) <= Arrival(s.departure, w)
      {
        BeatsReturns(s, journeys, numRoutes, w);
      }
    }
  }

  /** The first route is no later than any walk to the destination, even through the source. */
  lemma BeatsReturns(s: Search, ws: seq<seq<Contact>>, requested: int, w: seq<Contact>)
    requires BestJourneys(s, ws, requested) && s.avoid == [s.root.to] && s.blocked == {} && s.root.to != s.destination
    requires Journey(Unconfined(s), w) && forall c :: c in s.plan ==> c.owlt >= 0.0
    ensures ws != [] && Arrival(s.departure, ws[0]) <= Arrival(s.departure, w)
  {
    var v := ReturnsLose(s, w);
    assert Journey(s, v);
  }

  lemma RoutesAreLong(s: Search, known: seq<seq<Contact>>)
    requires AreRoutes(s, known)
    ensures forall h :: h in known ==> |h| > 1
  {
  }

  lemma NoJourneys(s: Search, numRoutes: int)
    requires forall w :: !Journey(s, w)
    ensures BestJourneys(s, [], numRoutes)
  {
  }

  /** The first route, with the root contact added as its first hop. */
  method FirstRoute(timeNow: real, source: int, destination: int, currTime: real, plan: seq<Contact>)
    returns (first: Route?, ghost s: Search)
    requires timeNow == currTime >= 0.0
    requires forall c :: c in plan ==> c.owlt >= 0.0
    requires exists c :: c in plan && (c.frm == source || c.to == source)
    modifies plan
    ensures fresh(s.root) && s.root.to == source && s == Search(s.root, destination, plan, currTime, [source], {}, {})
    ensures FromRoot(s) && s.root.suppressedNextHop == []
    ensures first != null ==> fresh(first) && IsRoute(s, first.hops)
    ensures forall w :: Journey(s, w) ==> first != null && Delivery(s, first.hops) <= Arrival(s.departure, w)
  {
    var root := new Contact(timeNow, source, source, 0.0, MAX_TIME, 100.0, 1.0, 0.0);
    root.arrivalTime := currTime;
    s := Search(root, destination, plan, currTime, [source], {}, {});
    ResetContacts(plan);
    assert SearchFrom(root, destination, plan) == s;
    first := CgrDijkstra(root, destination, plan);
    if first != null {
      ghost var w := first.hops;
      first.hops := [root] + first.hops;
      assert Tail(first.hops) == w;
    }
  }
}

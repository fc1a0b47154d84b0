/** Routes: sequences of contacts with the metrics that rank them. */
module Routes {
  import opened Contacts

  // --- Metrics of a sequence of hops ------------------------------------------------------------

  function ToTime(hops: seq<Contact>): real
    decreases |hops|
  {
    if hops == [] then MAX_TIME else Min(ToTime(hops[..|hops| - 1]), hops[|hops| - 1].end)
  }

  function Confidence(hops: seq<Contact>): real
    decreases |hops|
  {
    if hops == [] then 1.0 else Confidence(hops[..|hops| - 1]) * hops[|hops| - 1].confidence
  }

  /** When the first byte can leave over hop `i`, if transmission itself takes no time. */
  function FirstByte(hops: seq<Contact>, i: nat): real
    requires i < |hops|
  {
    if i == 0 || hops[i] == hops[0] then hops[i].start
    else Max(hops[i].start, FirstByte(hops, i - 1) + hops[i - 1].owlt)
  }

  /** The position at which a contact first occurs. */
  function IndexOf(hops: seq<Contact>, c: Contact): (i: nat)
    requires c in hops
    ensures i < |hops| && hops[i] == c && c !in hops[..i]
  {
    if hops[0] == c then 0 else 1 + IndexOf(hops[1..], c)
  }

  /** The earliest end among hops `i` to `j`. */
  function EarliestEnd(hops: seq<Contact>, i: nat, j: nat): real
    requires i <= j <= |hops|
    decreases j
  {
    if i == j then MAX_TIME else Min(EarliestEnd(hops, i, j - 1), hops[j - 1].end)
  }

  /** What a contact can carry between two points in time. */
  function VolumeWithin(c: Contact, first: real, stop: real): real {
    Min((stop - first) * c.rate, c.volume)
  }

  function EffectiveVolume(hops: seq<Contact>, i: nat): real
    requires i < |hops|
  {
    var stop := Min(hops[i].end, EarliestEnd(hops, IndexOf(hops, hops[i]), |hops|));
    VolumeWithin(hops[i], FirstByte(hops, i), stop)
  }

  /** The least effective volume among the first `n` hops. */
  function LeastVolume(hops: seq<Contact>, n: nat): real
    requires n <= |hops|
  {
    if n == 0 then MAX_TIME else Min(LeastVolume(hops, n - 1), EffectiveVolume(hops, n - 1))
  }

  function Volume(hops: seq<Contact>): real {
    LeastVolume(hops, |hops|)
  }

  function BestDelivery(hops: seq<Contact>): real {
    Arrival(0.0, hops)
  }

  // --- Routes -----------------------------------------------------------------------------------

  /** The nodes that a sequence of hops touches. */
  function Touched(hops: seq<Contact>): (ns: set<int>)
    decreases |hops|
  {
    if hops == [] then {}
    else Touched(hops[..|hops| - 1]) + {hops[|hops| - 1].frm, hops[|hops| - 1].to}
  }

  lemma {:induction false} TouchedByHop(hops: seq<Contact>, n: int) returns (i: nat)
    requires n in Touched(hops)
    ensures i < |hops| && (hops[i].frm == n || hops[i].to == n)
    decreases |hops|
  {
    i := |hops| - 1;
    if n != hops[i].frm && n != hops[i].to {
      i := TouchedByHop(hops[..i], n);
    }
  }

  class Route {
    var hops: seq<Contact>
    var visited: set<int>
    var toNode: int
    var nextNode: int
    var fromTime: real
    var toTime: real
    var bestDeliveryTime: real
    var volume: real
    var confidence: real

    /** The stored metrics are those of the present hops. */
    ghost predicate Current()
      reads this
    {
      && hops != []
      && toNode == hops[|hops| - 1].to
      && nextNode == hops[0].to
      && fromTime == hops[0].start
      && toTime == ToTime(hops)
      && bestDeliveryTime == BestDelivery(hops)
      && confidence == Confidence(hops)
      && volume == Volume(hops)
    }

    constructor (contact: Contact)
      ensures hops == [contact] && visited == {contact.frm, contact.to} && Current()
    {
      hops, visited := [contact], {contact.frm, contact.to};
      new;
      RefreshMetrics();
    }

    /** Whether a contact can be inserted in this path. */
    predicate Eligible(contact: Contact)
      reads this
    {
      && contact.to !in visited
      && (hops != [] ==> contact.end > hops[|hops| - 1].start + hops[|hops| - 1].owlt)
    }

    method Append(contact: Contact)
      requires Eligible(contact)
      modifies this
      ensures hops == old(hops) + [contact]
      ensures visited == old(visited) + {contact.frm, contact.to}
      ensures Current()
    {
      hops := hops + [contact];
      visited := visited + {contact.frm, contact.to};
      RefreshMetrics();
    }

    method RefreshMetrics()
      requires hops != []
      modifies this`toNode, this`nextNode, this`fromTime, this`toTime,
               this`bestDeliveryTime, this`volume, this`confidence
      ensures Current()
    {
      toNode, nextNode, fromTime := hops[|hops| - 1].to, hops[0].to, hops[0].start;
      toTime, bestDeliveryTime, confidence := MAX_TIME, 0.0, 1.0;
      for i := 0 to |hops|
        invariant toNode == hops[|hops| - 1].to && nextNode == hops[0].to && fromTime == hops[0].start
        invariant toTime == ToTime(hops[..i])
        invariant bestDeliveryTime == Arrival(0.0, hops[..i])
        invariant confidence == Confidence(hops[..i])
      {
        var contact := hops[i];
        assert hops[..i + 1][..i] == hops[..i];
        toTime := Min(toTime, contact.end);
        bestDeliveryTime := Max(bestDeliveryTime + contact.owlt, contact.start + contact.owlt);
        confidence := confidence * contact.confidence;
      }
      assert hops[..|hops|] == hops;
      volume := RouteVolume(hops);
    }
  }

  /** The inner loop of `refresh_metrics` and `fwd_candidate`: when the first hop from `index` on ends. */
  method SuccessorStopTime(hops: seq<Contact>, index: nat) returns (stop: real)
    requires index <= |hops|
    ensures stop == EarliestEnd(hops, index, |hops|)
  {
    stop := MAX_TIME;
    for j := index to |hops|
      invariant stop == EarliestEnd(hops, index, j)
    {
      if hops[j].end < stop {
        stop := hops[j].end;
      }
    }
  }

  /** The volume loop of `refresh_metrics`. */
  method RouteVolume(hops: seq<Contact>) returns (volume: real)
    requires hops != []
    ensures volume == Volume(hops)
  {
    var prevLastByteArrTime := 0.0;
    volume := MAX_TIME;
    for i := 0 to |hops|
      invariant i > 0 ==> prevLastByteArrTime == FirstByte(hops, i - 1) + hops[i - 1].owlt
      invariant volume == LeastVolume(hops, i)
    {
      var contact := hops[i];
      var firstByteTxTime :=
        if contact == hops[0] then contact.start else Max(contact.start, prevLastByteArrTime);
      prevLastByteArrTime := firstByteTxTime + contact.owlt;

      var minSuccStopTime := SuccessorStopTime(hops, IndexOf(hops, contact));
      var effectiveStopTime := Min(contact.end, minSuccStopTime);
      var effectiveVolumeLimit := VolumeWithin(contact, firstByteTxTime, effectiveStopTime);
      if effectiveVolumeLimit < volume {
        volume := effectiveVolumeLimit;
      }
    }
  }

  /** Contacts that can be appended one after the other without failing the eligibility check. */
  ghost predicate Chainable(hops: seq<Contact>) {
    && hops != []
    && (forall n :: 0 < n < |hops| ==> hops[n].to !in Touched(hops[..n]))
    && (forall n :: 0 < n < |hops| ==> hops[n].end > hops[n - 1].start + hops[n - 1].owlt)
  }

  /** A route made from its first hop by appending the others; no append fails its assertion. */
  method BuildRoute(hops: seq<Contact>) returns (route: Route)
    requires Chainable(hops)
    ensures fresh(route) && route.hops == hops && route.Current()
  {
    route := new Route(hops[0]);
    assert hops[..1] == [hops[0]] && hops[..1][..0] == [];
    for n := 1 to |hops|
      invariant fresh(route) && route.Current()
      invariant route.hops == hops[..n] && route.visited == Touched(hops[..n])
    {
      assert hops[..n + 1] == hops[..n] + [hops[n]] && hops[..n + 1][..n] == hops[..n];
      route.Append(hops[n]);
    }
    assert hops[..|hops|] == hops;
  }

  // --- Ranking ----------------------------------------------------------------------------------

  /** `__lt__`: earlier delivery, then more volume, then at least as much confidence. */
  predicate Less(a: Route, b: Route)
    reads a, b
  {
    || a.bestDeliveryTime < b.bestDeliveryTime
    || (a.bestDeliveryTime == b.bestDeliveryTime
        && (a.volume > b.volume || (a.volume == b.volume && a.confidence >= b.confidence)))
  }

  ghost predicate Sorted(routes: seq<Route>)
    reads routes
  {
    forall i, j :: 0 <= i < j < |routes| ==> Less(routes[i], routes[j])
  }

  /** `list.sort()`: some permutation in which every route ranks no worse than the ones after it. */
  method Sort(routes: seq<Route>) returns (sorted: seq<Route>)
    ensures multiset(sorted) == multiset(routes)
    ensures Sorted(sorted)
  {
    sorted := [];
    for i := 0 to |routes|
      invariant multiset(sorted) == multiset(routes[..i])
      invariant Sorted(sorted)
    {
      assert routes[..i + 1] == routes[..i] + [routes[i]];
      sorted := Insert(sorted, routes[i]);
    }
    assert routes[..|routes|] == routes;
  }

  method Insert(routes: seq<Route>, r: Route) returns (sorted: seq<Route>)
    requires Sorted(routes)
    ensures multiset(sorted) == multiset(routes) + multiset{r}
    ensures Sorted(sorted)
  {
    var k := 0;
    while k < |routes| && Less(routes[k], r)
      invariant 0 <= k <= |routes|
      invariant forall i :: 0 <= i < k ==> Less(routes[i], r)
    {
      k := k + 1;
    }
    sorted := routes[..k] + [r] + routes[k..];
    assert routes == routes[..k] + routes[k..];
    InsertKeepsSorted(routes, k, r);
  }

  lemma InsertKeepsSorted(routes: seq<Route>, k: nat, r: Route)
    requires Sorted(routes) && k <= |routes|
    requires forall i :: 0 <= i < k ==> Less(routes[i], r)
    requires k < |routes| ==> Less(r, routes[k])
    ensures Sorted(routes[..k] + [r] + routes[k..])
  {
    var sorted := routes[..k] + [r] + routes[k..];
    forall i | k < i < |routes| ensures Less(r, routes[i]) {
      assert Less(routes[k], routes[i]);
    }
    forall i, j | 0 <= i < j < |sorted| ensures Less(sorted[i], sorted[j]) {
      var i' := if i < k then i else i - 1;
      var j' := if j < k then j else j - 1;
      assert i != k ==> sorted[i] == routes[i'];
      assert j != k ==> sorted[j] == routes[j'];
    }
  }

  // --- Routes of journeys -----------------------------------------------------------------------

  lemma NodesAreNew(s: Search, w: seq<Contact>, n: nat)
    requires SimpleJourney(s, w) && s.root.to in s.avoid && n < |w|
    ensures w[n].to !in Touched(w[..n])
  {
    WalkStep(s, w, n);
    forall i | 0 <= i < n ensures w[i].to != w[n].to && w[i].frm != w[n].to {
      WalkStep(s, w, i);
      assert Nodes(w)[i] != Nodes(w)[n];
      assert i > 0 ==> Nodes(w)[i - 1] != Nodes(w)[n];
    }
    if w[n].to in Touched(w[..n]) {
      var i := TouchedByHop(w[..n], w[n].to);
      assert false;
    }
  }

  /** The hops of a node-simple journey can be appended one by one. */
  lemma JourneyIsChainable(s: Search, w: seq<Contact>)
    requires SimpleJourney(s, w) && s.root.to in s.avoid
    ensures Chainable(w)
  {
    forall n | 0 < n < |w| ensures w[n].to !in Touched(w[..n]) {
      NodesAreNew(s, w, n);
    }
    forall n | 0 < n < |w| ensures w[n].end > w[n - 1].start + w[n - 1].owlt {
      WalkStep(s, w, n);
      assert w[..n][..n - 1] == w[..n - 1];
    }
  }

  /** The root contact of a search followed by the hops of a journey, as `cgr_yen` keeps routes. */
  lemma RootedJourneyIsChainable(s: Search, w: seq<Contact>)
    requires SimpleJourney(s, w) && s.root.to in s.avoid
    requires s.root.frm == s.root.to && s.root.start + s.root.owlt <= s.departure
    ensures Chainable([s.root] + w)
  {
    JourneyIsChainable(s, w);
    var hops := [s.root] + w;
    forall n | 0 < n < |hops| ensures hops[n].to !in Touched(hops[..n]) {
      WalkStep(s, w, n - 1);
      NodesAreNew(s, w, n - 1);
      assert hops[..n] == [s.root] + w[..n - 1];
      TouchedRooted(s.root, w[..n - 1]);
    }
    WalkStep(s, w, 0);
  }

  lemma {:induction false} TouchedRooted(root: Contact, w: seq<Contact>)
    ensures Touched([root] + w) == Touched(w) + {root.frm, root.to}
    decreases |w|
  {
    var hops := [root] + w;
    if w == [] {
      assert hops[..0] == [];
    } else {
      TouchedRooted(root, w[..|w| - 1]);
      assert hops[..|hops| - 1] == [root] + w[..|w| - 1];
    }
  }
}

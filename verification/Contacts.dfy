/** Contacts of a contact plan, and the journeys a packet can make over them.

    A contact is a transmission window from one node to another.  Everything in this module reads
    only the fixed parameters of contacts, so that journeys mean the same thing before, during and
    after a route search. */
module Contacts {

  /** `sys.maxsize`, which the route search uses as "not reached". */
  const MAX_TIME: real := 9223372036854775807.0

  function Max(x: real, y: real): real {
    if x < y then y else x
  }

  function Min(x: real, y: real): real {
    if y < x then y else x
  }

  class Contact {
    // fixed parameters
    const frm: int
    const to: int
    const start: real
    const end: real
    const rate: real
    const owlt: real
    const volume: real
    const confidence: real
    const mav: (real, real, real)

    // route search working area
    var arrivalTime: real
    var visited: bool
    var visitedNodes: seq<int>
    var predecessor: Contact?

    // route management working area
    var suppressed: bool
    var suppressedNextHop: seq<Contact>

    constructor (timeNow: real, frm: int, to: int, start: real, end: real,
                 rate: real, confidence: real, owlt: real)
      ensures this.frm == frm && this.to == to && this.rate == rate && this.owlt == owlt
      ensures this.confidence == confidence
      ensures this.start == start + timeNow && this.end == end + timeNow
      ensures volume == rate * (end - start) && mav == (volume, volume, volume)
      ensures arrivalTime == MAX_TIME && !visited && visitedNodes == [] && predecessor == null
      ensures !suppressed && suppressedNextHop == []
    {
      this.frm, this.to := frm, to;
      this.start, this.end := start + timeNow, end + timeNow;
      this.rate, this.owlt, this.confidence := rate, owlt, confidence;
      var v := rate * (end - start);
      this.volume, this.mav := v, (v, v, v);
      arrivalTime, visited, visitedNodes, predecessor := MAX_TIME, false, [], null;
      suppressed, suppressedNextHop := false, [];
    }

    method ClearDijkstraWorkingArea()
      modifies this`arrivalTime, this`visited, this`predecessor, this`visitedNodes
      ensures arrivalTime == MAX_TIME && !visited && predecessor == null && visitedNodes == []
    {
      arrivalTime, visited, predecessor, visitedNodes := MAX_TIME, false, null, [];
    }

    method ClearManagementWorkingArea()
      modifies this`suppressed, this`suppressedNextHop
      ensures !suppressed && suppressedNextHop == []
    {
      suppressed, suppressedNextHop := false, [];
    }
  }

  /** `max(contact.mav) > 0` */
  predicate HasResidualVolume(c: Contact) {
    Max(c.mav.0, Max(c.mav.1, c.mav.2)) > 0.0
  }

  /** What a loaded contact plan provides: signals do not travel back in time, links carry data,
      and the volume of a contact is what fits in its window. */
  predicate Regular(c: Contact) {
    && c.owlt >= 0.0
    && c.rate > 0.0
    && c.volume == c.rate * (c.end - c.start)
    && c.mav == (c.volume, c.volume, c.volume)
  }

  predicate RegularPlan(plan: seq<Contact>) {
    forall c :: c in plan ==> Regular(c)
  }

  // --- Time along a journey ---------------------------------------------------------------------

  /** When a packet at the sending node of `c` at time `t` arrives at the receiving node. */
  function Arrive(t: real, c: Contact): real {
    if c.start < t then t + c.owlt else c.start + c.owlt
  }

  /** Arrival time after taking the contacts of `w` in order, starting at time `t`. */
  function Arrival(t: real, w: seq<Contact>): real
    decreases |w|
  {
    if w == [] then t else Arrive(Arrival(t, w[..|w| - 1]), w[|w| - 1])
  }

  lemma ArrivalSnoc(t: real, w: seq<Contact>, c: Contact)
    ensures Arrival(t, w + [c]) == Arrive(Arrival(t, w), c)
  {
    assert (w + [c])[..|w|] == w;
  }

  lemma {:induction false} ArrivalAppend(t: real, v: seq<Contact>, w: seq<Contact>)
    ensures Arrival(t, v + w) == Arrival(Arrival(t, v), w)
    decreases |w|
  {
    if w == [] {
      assert v + w == v;
    } else {
      ArrivalAppend(t, v, w[..|w| - 1]);
      assert (v + w)[..|v + w| - 1] == v + w[..|w| - 1];
    }
  }

  /** Arriving earlier never hurts: the network is first-in first-out. */
  lemma {:induction false} ArrivalMonotone(t: real, u: real, w: seq<Contact>)
    requires t <= u
    ensures Arrival(t, w) <= Arrival(u, w)
    decreases |w|
  {
    if w != [] {
      ArrivalMonotone(t, u, w[..|w| - 1]);
    }
  }

  lemma {:induction false} ArrivalNoEarlier(t: real, w: seq<Contact>)
    requires forall c :: c in w ==> c.owlt >= 0.0
    ensures t <= Arrival(t, w)
    decreases |w|
  {
    if w != [] {
      ArrivalNoEarlier(t, w[..|w| - 1]);
    }
  }

  // --- Journeys ---------------------------------------------------------------------------------

  /** One search for a route: from the end of `root`, left at time `departure`, to `destination`.
      Nodes in `avoid` and contacts in `suppressed` may not be used, contacts in `blocked` may not
      be used as the first hop. */
  datatype Search = Search(root: Contact, destination: int, plan: seq<Contact>, departure: real,
                           avoid: seq<int>, suppressed: set<Contact>, blocked: set<Contact>)

  /** A contact that the search may use at all. */
  predicate Open(s: Search, c: Contact) {
    c in s.plan && c !in s.suppressed && HasResidualVolume(c) && c.to !in s.avoid
  }

  function EndNode(s: Search, w: seq<Contact>): int {
    if w == [] then s.root.to else w[|w| - 1].to
  }

  /** `c` can be taken after `w`: it leaves from where `w` ends and is still open on arrival. */
  predicate Extends(s: Search, w: seq<Contact>, c: Contact) {
    && Open(s, c)
    && c.frm == EndNode(s, w)
    && Arrival(s.departure, w) < c.end
    && (w == [] ==> c !in s.blocked)
  }

  /** A connected chain of open contacts, each still open when the packet gets to it. */
  ghost predicate Walk(s: Search, older w: seq<Contact>)
    decreases |w|
  {
    w != [] ==> Walk(s, w[..|w| - 1]) && Extends(s, w[..|w| - 1], w[|w| - 1])
  }

  /** A walk that ends at the destination, in finite time. */
  ghost predicate Journey(s: Search, older w: seq<Contact>) {
    && w != []
    && Walk(s, w)
    && w[|w| - 1].to == s.destination
    && Arrival(s.departure, w) < MAX_TIME
  }

  /** The receiving nodes of a walk, in order. */
  function Nodes(w: seq<Contact>): (ns: seq<int>)
    ensures |ns| == |w|
    ensures forall i :: 0 <= i < |w| ==> ns[i] == w[i].to
  {
    seq(|w|, i requires 0 <= i < |w| => w[i].to)
  }

  ghost predicate Distinct<T>(s: seq<T>) {
    forall i, j :: 0 <= i < j < |s| ==> s[i] != s[j]
  }

  /** A journey that visits no node twice. */
  ghost predicate SimpleJourney(s: Search, older w: seq<Contact>) {
    Journey(s, w) && Distinct(Nodes(w))
  }

  lemma WalkSnoc(s: Search, w: seq<Contact>, c: Contact)
    requires Walk(s, w) && Extends(s, w, c)
    ensures Walk(s, w + [c])
  {
    assert (w + [c])[..|w|] == w;
  }

  lemma {:induction false} WalkPrefix(s: Search, w: seq<Contact>, n: nat)
    requires Walk(s, w) && n <= |w|
    ensures Walk(s, w[..n])
    decreases |w|
  {
    if n < |w| {
      WalkPrefix(s, w[..|w| - 1], n);
      assert w[..|w| - 1][..n] == w[..n];
    } else {
      assert w[..n] == w;
    }
  }

  /** Every step of a walk is a legal extension of the steps before it. */
  lemma WalkStep(s: Search, w: seq<Contact>, n: nat)
    requires Walk(s, w) && n < |w|
    ensures Walk(s, w[..n]) && Extends(s, w[..n], w[n])
  {
    WalkPrefix(s, w, n + 1);
    assert w[..n + 1][..n] == w[..n];
  }

  lemma WalkOpen(s: Search, w: seq<Contact>)
    requires Walk(s, w)
    ensures forall c :: c in w ==> Open(s, c)
  {
    forall i | 0 <= i < |w| ensures Open(s, w[i]) {
      WalkStep(s, w, i);
    }
  }

  // --- Coming back to the source ---------------------------------------------------------------------------------

  /** The same search with no nodes to avoid. */
  function Unconfined(s: Search): Search {
    s.(avoid := [])
  }

  /** A walk that comes back to where it started could have been left out up to there: whatever a walk reaches, one
      that never comes back reaches no later. */
  lemma {:induction false} ReturnsLose(s: Search, w: seq<Contact>) returns (v: seq<Contact>)
    requires s.avoid == [s.root.to] && s.blocked == {} && forall c :: c in s.plan ==> c.owlt >= 0.0
    requires Walk(Unconfined(s), w)
    ensures Walk(s, v) && EndNode(s, v) == EndNode(s, w) && Arrival(s.departure, v) <= Arrival(s.departure, w)
    decreases |w|
  {
    v := [];
    if w != [] {
      var w', c := w[..|w| - 1], w[|w| - 1];
      if c.to == s.root.to {
        StartsEarlier(s, w);
      } else {
        v := ReturnsLose(s, w');
        hide Arrival, Walk;
        KeepsUp(s, v, w', c);
        WalkSnoc(s, v, c);
        ArrivalSnoc(s.departure, v, c);
        ArrivalSnoc(s.departure, w', c);
        assert w == w' + [c];
        v := v + [c];
      }
    }
  }

  lemma StartsEarlier(s: Search, w: seq<Contact>)
    requires Walk(Unconfined(s), w) && forall c :: c in s.plan ==> c.owlt >= 0.0
    ensures s.departure <= Arrival(s.departure, w)
  {
    WalkOpen(Unconfined(s), w);
    ArrivalNoEarlier(s.departure, w);
  }

  /** Being there earlier, one can go on with the same contact, and arrives no later. */
  lemma KeepsUp(s: Search, v: seq<Contact>, w: seq<Contact>, c: Contact)
    requires s.avoid == [s.root.to] && s.blocked == {} && c.to != s.root.to && Extends(Unconfined(s), w, c)
    requires EndNode(s, v) == EndNode(s, w) && Arrival(s.departure, v) <= Arrival(s.departure, w)
    ensures Extends(s, v, c) && Arrive(Arrival(s.departure, v), c) <= Arrive(Arrival(s.departure, w), c)
  {
    hide Arrival;
  }
}

/** Yen's argument on values: why searching for deviations from accepted routes yields the best
    routes one after the other.

    Routes are sequences of contacts that start with the root contact of the search, as `cgr_yen`
    keeps them while it runs. */
module KBest {
  import opened Contacts

  /** The root contact followed by a node-simple journey. */
  ghost predicate IsRoute(s: Search, older h: seq<Contact>) {
    h != [] && h[0] == s.root && SimpleJourney(s, h[1..])
  }

  /** The journey of a route: its hops without the root contact. */
  function Tail(h: seq<Contact>): seq<Contact> {
    if h == [] then [] else h[1..]
  }

  function Delivery(s: Search, h: seq<Contact>): real {
    Arrival(s.departure, Tail(h))
  }

  /** How many contacts of the last known route can be used as spurs. */
  function Spurs(known: seq<seq<Contact>>): int {
    if known == [] then 0 else |known[|known| - 1]| - 1
  }

  /** The contacts with which known routes continue after `p`. */
  function NextHops(routes: seq<seq<Contact>>, p: seq<Contact>): set<Contact> {
    set r | r in routes && p < r :: r[|p|]
  }

  /** `h` deviates from all known routes right after `p`. */
  ghost predicate Deviates(routes: seq<seq<Contact>>, p: seq<Contact>, h: seq<Contact>) {
    p < h && h[|p|] !in NextHops(routes, p)
  }

  /** Whatever deviates from the known routes after `p`, some candidate does so and is no later. */
  ghost predicate Settled(s: Search, routes: seq<seq<Contact>>, cands: set<seq<Contact>>, p: seq<Contact>) {
    forall h :: IsRoute(s, h) && Deviates(routes, p, h) ==>
      exists c :: c in cands && Deviates(routes, p, c) && Delivery(s, c) <= Delivery(s, h)
  }

  /** All proper prefixes of known routes are settled, except those of the last one that are longer
      than `n`, which are still to be used as spurs. */
  ghost predicate SettledUpTo(s: Search, routes: seq<seq<Contact>>, cands: set<seq<Contact>>, n: int)
    requires routes != []
  {
    forall r, m :: r in routes && 1 <= m < |r| && (r[..m] <= routes[|routes| - 1] ==> m <= n) ==>
      Settled(s, routes, cands, r[..m])
  }

  ghost predicate AreRoutes(s: Search, routes: seq<seq<Contact>>) {
    forall r :: r in routes ==> IsRoute(s, r)
  }

  // --- Facts about routes -------------------------------------------------------------------------

  /** Routes end where they first reach the destination. */
  lemma ReachesOnce(s: Search, h: seq<Contact>, k: nat)
    requires IsRoute(s, h) && 1 <= k < |h| - 1
    ensures h[k].to != s.destination
  {
    assert Nodes(h[1..])[k - 1] != Nodes(h[1..])[|h| - 2];
  }

  /** No route continues another. */
  lemma NoRouteExtendsAnother(s: Search, a: seq<Contact>, b: seq<Contact>)
    requires IsRoute(s, a) && IsRoute(s, b)
    ensures !(a < b)
  {
    if |a| < |b| {
      ReachesOnce(s, b, |a| - 1);
      assert a[|a| - 1] == a[1..][|a| - 2];
    }
  }

  /** The longest prefix of `h` that starts some known route. */
  lemma {:induction false} LongestShared(s: Search, routes: seq<seq<Contact>>, h: seq<Contact>, m: nat)
    returns (r: seq<Contact>, n: nat)
    requires 1 <= m <= |h| && exists r :: r in routes && h[..m] <= r
    ensures 1 <= n <= |h| && r in routes && h[..n] <= r
    ensures n < |h| ==> forall q :: q in routes ==> !(h[..n + 1] <= q)
    decreases |h| - m
  {
    r :| r in routes && h[..m] <= r;
    n := m;
    if m < |h| && exists q :: q in routes && h[..m + 1] <= q {
      r, n := LongestShared(s, routes, h, m + 1);
    }
  }

  // --- Steps of the algorithm ---------------------------------------------------------------------

  /** An unknown route deviates from the known ones somewhere after its root contact. */
  lemma DeviationPoint(s: Search, routes: seq<seq<Contact>>, h: seq<Contact>) returns (r: seq<Contact>, n: nat)
    requires routes != [] && AreRoutes(s, routes)
    requires IsRoute(s, h) && h !in routes
    ensures 1 <= n < |h| && r in routes && n < |r| && h[..n] == r[..n]
    ensures Deviates(routes, h[..n], h)
  {
    hide SimpleJourney;
    assert IsRoute(s, routes[0]);
    assert routes[0] in routes && h[..1] <= routes[0];
    r, n := LongestShared(s, routes, h, 1);
    NoRouteExtendsAnother(s, h, r);
    NoRouteExtendsAnother(s, r, h);
    assert h[..|h|] == h && r[..|r|] == r && h[..n] == r[..n];
    forall q | q in routes && h[..n] < q ensures q[n] != h[n] {
      assert !(h[..n + 1] <= q);
    }
  }

  /** Once all prefixes are settled, every route that is not yet known is matched by a candidate. */
  lemma CandidatesCover(s: Search, routes: seq<seq<Contact>>, cands: set<seq<Contact>>, h: seq<Contact>)
    requires routes != [] && AreRoutes(s, routes)
    requires SettledUpTo(s, routes, cands, Spurs(routes))
    requires IsRoute(s, h) && h !in routes
    ensures exists c :: c in cands && Delivery(s, c) <= Delivery(s, h)
  {
    var r, n := DeviationPoint(s, routes, h);
    AllSettled(s, routes, cands, r, n);
    assert Settled(s, routes, cands, h[..n]);
  }

  lemma AllSettled(s: Search, routes: seq<seq<Contact>>, cands: set<seq<Contact>>, r: seq<Contact>, n: nat)
    requires routes != [] && AreRoutes(s, routes)
    requires SettledUpTo(s, routes, cands, Spurs(routes))
    requires r in routes && 1 <= n < |r|
    ensures Settled(s, routes, cands, r[..n])
  {
    var last := routes[|routes| - 1];
    assert IsRoute(s, last) && IsRoute(s, r);
    NoRouteExtendsAnother(s, last, r);
    assert last[..|last|] == last;
  }

  /** Accepting a candidate keeps all other prefixes settled. */
  lemma AcceptKeeps(s: Search, routes: seq<seq<Contact>>, cands: set<seq<Contact>>, c: seq<Contact>, cands': set<seq<Contact>>)
    requires routes != [] && AreRoutes(s, routes) && IsRoute(s, c)
    requires SettledUpTo(s, routes, cands, Spurs(routes))
    requires cands - {c} <= cands'
    ensures SettledUpTo(s, routes + [c], cands', 0)
  {
    var routes' := routes + [c];
    forall r, m | r in routes' && 1 <= m < |r| && !(r[..m] <= c) ensures Settled(s, routes', cands', r[..m]) {
      var p := r[..m];
      assert r in routes;
      AllSettled(s, routes, cands, r, m);
      assert NextHops(routes', p) == NextHops(routes, p);
      forall h | IsRoute(s, h) && Deviates(routes', p, h)
        ensures exists d :: d in cands' && Deviates(routes', p, d) && Delivery(s, d) <= Delivery(s, h)
      {
        assert Deviates(routes, p, h);
        var d :| d in cands && Deviates(routes, p, d) && Delivery(s, d) <= Delivery(s, h);
        assert d in cands' && Deviates(routes', p, d);
      }
    }
  }

  lemma SettledMore(s: Search, routes: seq<seq<Contact>>, cands: set<seq<Contact>>, cands': set<seq<Contact>>, p: seq<Contact>)
    requires Settled(s, routes, cands, p) && cands <= cands'
    ensures Settled(s, routes, cands', p)
  {
    forall h | IsRoute(s, h) && Deviates(routes, p, h)
      ensures exists c :: c in cands' && Deviates(routes, p, c) && Delivery(s, c) <= Delivery(s, h)
    {
      var c :| c in cands && Deviates(routes, p, c) && Delivery(s, c) <= Delivery(s, h);
      assert c in cands';
    }
  }

  /** Using one more prefix of the last route as a spur settles that prefix. */
  lemma SpurKeeps(s: Search, routes: seq<seq<Contact>>, cands: set<seq<Contact>>, found: set<seq<Contact>>, i: nat)
    requires routes != [] && SettledUpTo(s, routes, cands, i)
    requires i + 1 < |routes[|routes| - 1]|
    requires Settled(s, routes, found, routes[|routes| - 1][..i + 1])
    ensures SettledUpTo(s, routes, cands + found, i + 1)
  {
    var last := routes[|routes| - 1];
    forall r, m | r in routes && 1 <= m < |r| && (r[..m] <= last ==> m <= i + 1)
      ensures Settled(s, routes, cands + found, r[..m])
    {
      if r[..m] <= last && m == i + 1 {
        assert r[..m] == last[..i + 1];
        SettledMore(s, routes, found, cands + found, r[..m]);
      } else {
        SettledMore(s, routes, cands, cands + found, r[..m]);
      }
    }
  }

  // --- Spur searches --------------------------------------------------------------------------------

  /** The search for the best deviation from `last` after its contact number `i`. */
  function SpurSearch(s: Search, routes: seq<seq<Contact>>, last: seq<Contact>, i: nat): Search
    requires i + 1 < |last|
  {
    Search(last[i], s.destination, s.plan, Delivery(s, last[..i + 1]), Nodes(last[..i + 1]),
           (set c | c in s.plan && c in last[..i]), NextHops(routes, last[..i + 1]))
  }

  /** The search that `cgr_yen` starts from: nothing is suppressed, and the root contact is new. */
  ghost predicate Unrestricted(s: Search) {
    s.avoid == [s.root.to] && s.suppressed == {} && s.blocked == {} && s.root !in s.plan
  }

  /** A contact open to the spur search is open to the whole search. */
  lemma SpurIsOpen(s: Search, routes: seq<seq<Contact>>, last: seq<Contact>, i: nat, c: Contact)
    requires Unrestricted(s) && IsRoute(s, last) && i + 1 < |last|
    requires Open(SpurSearch(s, routes, last, i), c)
    ensures Open(s, c)
  {
    assert last[..i + 1][0] == s.root && Nodes(last[..i + 1])[0] == s.root.to;
  }

  /** Walks of a spur search continue the spur's prefix, at the same times. */
  lemma {:induction false} SpurWalk(s: Search, routes: seq<seq<Contact>>, last: seq<Contact>, i: nat, v: seq<Contact>)
    requires Unrestricted(s) && IsRoute(s, last) && i + 1 < |last|
    requires Walk(SpurSearch(s, routes, last, i), v)
    ensures Walk(s, last[1..i + 1] + v)
    ensures Arrival(SpurSearch(s, routes, last, i).departure, v) == Arrival(s.departure, last[1..i + 1] + v)
    decreases |v|
  {
    hide Arrival, SpurSearch, IsRoute;
    SpurArrival(s, routes, last, i, v);
    var u := last[1..i + 1];
    if v == [] {
      SpurStarts(s, last, i);
      assert u + v == u;
    } else {
      var v', c := v[..|v| - 1], v[|v| - 1];
      SpurWalk(s, routes, last, i, v');
      SpurExtends(s, routes, last, i, v', c);
      assert u + v == u + v' + [c];
      WalkSnoc(s, u + v', c);
    }
  }

  lemma SpurArrival(s: Search, routes: seq<seq<Contact>>, last: seq<Contact>, i: nat, v: seq<Contact>)
    requires i + 1 < |last|
    ensures Arrival(SpurSearch(s, routes, last, i).departure, v) == Arrival(s.departure, last[1..i + 1] + v)
  {
    hide Arrival, NextHops;
    assert last[..i + 1][1..] == last[1..i + 1];
    ArrivalAppend(s.departure, last[1..i + 1], v);
  }

  lemma SpurStarts(s: Search, last: seq<Contact>, i: nat)
    requires IsRoute(s, last) && i + 1 < |last|
    ensures Walk(s, last[1..i + 1])
  {
    hide Arrival;
    assert last[1..i + 1] == last[1..][..i];
    WalkPrefix(s, last[1..], i);
  }

  lemma SpurExtends(s: Search, routes: seq<seq<Contact>>, last: seq<Contact>, i: nat, v: seq<Contact>, c: Contact)
    requires Unrestricted(s) && IsRoute(s, last) && i + 1 < |last|
    requires Extends(SpurSearch(s, routes, last, i), v, c)
    requires Arrival(SpurSearch(s, routes, last, i).departure, v) == Arrival(s.departure, last[1..i + 1] + v)
    ensures Extends(s, last[1..i + 1] + v, c)
  {
    hide Arrival, Walk;
    SpurIsOpen(s, routes, last, i, c);
    assert v == [] && i > 0 ==> last[1..i + 1][i - 1] == last[i];
  }

  /** Spur paths keep away from the nodes of the spur's prefix. */
  lemma SpurNodesDiffer(s: Search, routes: seq<seq<Contact>>, last: seq<Contact>, i: nat, v: seq<Contact>)
    requires IsRoute(s, last) && i + 1 < |last| && SimpleJourney(SpurSearch(s, routes, last, i), v)
    ensures Distinct(Nodes(last[1..i + 1] + v))
  {
    var t, u, p := SpurSearch(s, routes, last, i), last[1..i + 1], last[..i + 1];
    WalkOpen(t, v);
    hide Walk, NextHops, Delivery;
    forall a, b | 0 <= a < b < |u + v| ensures Nodes(u + v)[a] != Nodes(u + v)[b] {
      if b < |u| {
        assert Nodes(last[1..])[a] != Nodes(last[1..])[b];
      } else if a < |u| {
        assert Nodes(p)[a + 1] == u[a].to;
        assert v[b - |u|] in v && Open(t, v[b - |u|]);
      } else {
        assert Nodes(v)[a - |u|] != Nodes(v)[b - |u|];
      }
    }
  }

  /** A journey of the spur search makes a route with the spur's prefix that is not known yet. */
  lemma SpurMakesRoute(s: Search, routes: seq<seq<Contact>>, last: seq<Contact>, i: nat, v: seq<Contact>)
    requires Unrestricted(s) && IsRoute(s, last) && i + 1 < |last|
    requires SimpleJourney(SpurSearch(s, routes, last, i), v)
    ensures var h := last[..i + 1] + v;
      && IsRoute(s, h)
      && Deviates(routes, last[..i + 1], h)
      && h !in routes
      && Delivery(s, h) == Arrival(SpurSearch(s, routes, last, i).departure, v)
  {
    var t := SpurSearch(s, routes, last, i);
    var u, p := last[1..i + 1], last[..i + 1];
    var h := p + v;
    assert h[1..] == u + v;
    SpurWalk(s, routes, last, i, v);
    WalkStep(t, v, 0);
    SpurNodesDiffer(s, routes, last, i, v);
    assert Deviates(routes, p, h);
  }

  /** The best spur path stays the best when a route with the same prefix but another next hop is accepted.  So
      the search from that route finds it again, as long as it has not been accepted itself. */
  lemma SpurFindsAgain(s: Search, routes: seq<seq<Contact>>, last: seq<Contact>, r: seq<Contact>, i: nat, v: seq<Contact>)
    requires i + 1 < |last| && i + 1 < |r| && r[..i + 1] == last[..i + 1]
    requires SimpleJourney(SpurSearch(s, routes, last, i), v) && v[0] != r[i + 1]
    requires forall w :: Journey(SpurSearch(s, routes, last, i), w) ==>
      Arrival(SpurSearch(s, routes, last, i).departure, v) <= Arrival(SpurSearch(s, routes, last, i).departure, w)
    ensures var t := SpurSearch(s, routes + [r], r, i);
      SimpleJourney(t, v) && forall w :: Journey(t, w) ==> Arrival(t.departure, v) <= Arrival(t.departure, w)
  {
    hide SpurSearch, Journey, SimpleJourney;
    SameButBlocked(s, routes, last, r, i);
    BestStays(SpurSearch(s, routes, last, i), SpurSearch(s, routes + [r], r, i), v, r[i + 1]);
  }

  lemma BestStays(t: Search, t': Search, v: seq<Contact>, c: Contact)
    requires t' == t.(blocked := t.blocked + {c}) && SimpleJourney(t, v) && v[0] != c
    requires forall w :: Journey(t, w) ==> Arrival(t.departure, v) <= Arrival(t.departure, w)
    ensures SimpleJourney(t', v) && forall w :: Journey(t', w) ==> Arrival(t.departure, v) <= Arrival(t.departure, w)
  {
    hide Walk, Arrival;
    WalkOpensWell(t, v);
    BlockedWalk(t, t', v);
    forall w | Journey(t', w) ensures Arrival(t.departure, v) <= Arrival(t.departure, w) {
      BlockedWalk(t, t', w);
      assert Journey(t, w);
    }
  }

  lemma WalkOpensWell(t: Search, v: seq<Contact>)
    requires Walk(t, v) && v != []
    ensures v[0] !in t.blocked
  {
    WalkStep(t, v, 0);
  }

  lemma SameButBlocked(s: Search, routes: seq<seq<Contact>>, last: seq<Contact>, r: seq<Contact>, i: nat)
    requires i + 1 < |last| && i + 1 < |r| && r[..i + 1] == last[..i + 1]
    ensures var t, t' := SpurSearch(s, routes, last, i), SpurSearch(s, routes + [r], r, i);
      t' == t.(blocked := t.blocked + {r[i + 1]})
  {
    assert r[i] == r[..i + 1][i] == last[i];
    assert r[..i] == r[..i + 1][..i] == last[..i];
    var p := last[..i + 1];
    assert p < r && r[|p|] == r[i + 1];
    assert NextHops(routes + [r], p) == NextHops(routes, p) + {r[i + 1]};
  }

  lemma {:induction false} BlockedWalk(t: Search, t': Search, w: seq<Contact>)
    requires t == t'.(blocked := t.blocked) && t.blocked <= t'.blocked
    ensures Walk(t', w) ==> Walk(t, w)
    ensures Walk(t, w) && (w != [] ==> w[0] !in t'.blocked) ==> Walk(t', w)
    decreases |w|
  {
    if w != [] {
      BlockedWalk(t, t', w[..|w| - 1]);
    }
  }

  /** The contacts after the spur's prefix are open to the spur search, because nodes do not recur. */
  lemma DeviationIsOpen(s: Search, routes: seq<seq<Contact>>, last: seq<Contact>, i: nat, h: seq<Contact>, n: nat)
    requires Unrestricted(s) && i + 1 < |last| && IsRoute(s, h)
    requires i + 1 <= n < |h| && last[..i + 1] == h[..i + 1]
    ensures Open(SpurSearch(s, routes, last, i), h[n])
  {
    var c := h[n];
    assert h[1..][n - 1] == c;
    WalkStep(s, h[1..], n - 1);
    forall k | 0 <= k < i + 1 ensures last[k].to != c.to {
      assert last[k] == last[..i + 1][k] == h[k];
      if k > 0 {
        assert Nodes(h[1..])[k - 1] != Nodes(h[1..])[n - 1];
      }
    }
  }

  /** The spur search keeps the same time. */
  lemma DeviationArrival(s: Search, routes: seq<seq<Contact>>, last: seq<Contact>, i: nat, h: seq<Contact>, n: nat)
    requires i + 1 < |last| && last[..i + 1] <= h && i + 1 <= n <= |h|
    ensures Arrival(SpurSearch(s, routes, last, i).departure, h[i + 1..n]) == Arrival(s.departure, h[1..n])
  {
    assert last[..i + 1][1..] == h[1..i + 1];
    assert h[1..n] == h[1..i + 1] + h[i + 1..n];
    ArrivalAppend(s.departure, h[1..i + 1], h[i + 1..n]);
  }

  lemma DeviationStep(s: Search, routes: seq<seq<Contact>>, last: seq<Contact>, i: nat, h: seq<Contact>, n: nat)
    requires Unrestricted(s) && i + 1 < |last| && IsRoute(s, h)
    requires Deviates(routes, last[..i + 1], h) && i + 1 <= n < |h|
    ensures Extends(SpurSearch(s, routes, last, i), h[i + 1..n], h[n])
  {
    assert h[1..][..n - 1] == h[1..n] && h[1..][n - 1] == h[n];
    WalkStep(s, h[1..], n - 1);
    assert last[i] == last[..i + 1][i] == h[i];
    assert last[..i + 1] == h[..i + 1];
    DeviationArrival(s, routes, last, i, h, n);
    DeviationIsOpen(s, routes, last, i, h, n);
    hide IsRoute, Walk, Arrival;
    assert h[n].frm == h[n - 1].to;
  }

  /** Conversely, a route that deviates after the spur's prefix is a walk of the spur search. */
  lemma {:induction false} DeviationIsWalk(s: Search, routes: seq<seq<Contact>>, last: seq<Contact>, i: nat, h: seq<Contact>, n: nat)
    requires Unrestricted(s) && i + 1 < |last|
    requires i + 1 <= n <= |h| && IsRoute(s, h) && Deviates(routes, last[..i + 1], h)
    ensures Walk(SpurSearch(s, routes, last, i), h[i + 1..n])
    decreases n
  {
    hide SpurSearch, IsRoute, Deviates;
    if n > i + 1 {
      DeviationIsWalk(s, routes, last, i, h, n - 1);
      DeviationStep(s, routes, last, i, h, n - 1);
      WalkSnoc(SpurSearch(s, routes, last, i), h[i + 1..n - 1], h[n - 1]);
      assert h[i + 1..n] == h[i + 1..n - 1] + [h[n - 1]];
    }
  }

  /** The best journey of the spur search, or its absence, settles the spur's prefix. */
  lemma SpurSettles(s: Search, routes: seq<seq<Contact>>, cands: set<seq<Contact>>, last: seq<Contact>, i: nat, v: seq<Contact>)
    requires Unrestricted(s) && IsRoute(s, last) && i + 1 < |last|
    requires v != [] ==> SimpleJourney(SpurSearch(s, routes, last, i), v) && last[..i + 1] + v in cands
    requires var t := SpurSearch(s, routes, last, i);
      forall w :: Journey(t, w) ==> v != [] && Arrival(t.departure, v) <= Arrival(t.departure, w)
    ensures Settled(s, routes, cands, last[..i + 1])
  {
    var t, p := SpurSearch(s, routes, last, i), last[..i + 1];
    forall h | IsRoute(s, h) && Deviates(routes, p, h)
      ensures exists c :: c in cands && Deviates(routes, p, c) && Delivery(s, c) <= Delivery(s, h)
    {
      DeviationIsWalk(s, routes, last, i, h, |h|);
      DeviationArrival(s, routes, last, i, h, |h|);
      assert h[i + 1..|h|] == h[i + 1..] && h[1..|h|] == h[1..];
      assert Journey(t, h[i + 1..]);
      SpurMakesRoute(s, routes, last, i, v);
      assert p + v in cands;
    }
  }

  // --- What the result is ---------------------------------------------------------------------------

  /** `r` is no later than any route that is not among `known`. */
  ghost predicate BestBut(s: Search, known: seq<seq<Contact>>, r: seq<Contact>) {
    forall h :: IsRoute(s, h) && h !in known ==> Delivery(s, r) <= Delivery(s, h)
  }

  /** Every route in turn is the best one apart from those before it. */
  ghost predicate Ranked(s: Search, routes: seq<seq<Contact>>) {
    forall k :: 0 <= k < |routes| ==> BestBut(s, routes[..k], routes[k])
  }

  /** Delivery times never decrease. */
  ghost predicate Ascending(s: Search, routes: seq<seq<Contact>>) {
    forall j, k :: 0 <= j < k < |routes| ==> Delivery(s, routes[j]) <= Delivery(s, routes[k])
  }

  /** The earliest candidate is the best route that is not known yet. */
  lemma EarliestIsBest(s: Search, routes: seq<seq<Contact>>, cands: set<seq<Contact>>, c: seq<Contact>)
    requires routes != [] && AreRoutes(s, routes)
    requires SettledUpTo(s, routes, cands, Spurs(routes))
    requires forall d :: d in cands ==> Delivery(s, c) <= Delivery(s, d)
    ensures BestBut(s, routes, c)
  {
    forall h | IsRoute(s, h) && h !in routes ensures Delivery(s, c) <= Delivery(s, h) {
      CandidatesCover(s, routes, cands, h);
    }
  }

  /** The accepted routes are in order, and no candidate is earlier than the last of them. */
  ghost predicate InOrder(s: Search, known: seq<seq<Contact>>, cands: set<seq<Contact>>) {
    && known != [] && Ranked(s, known) && Ascending(s, known)
    && forall c :: c in cands ==> Delivery(s, known[|known| - 1]) <= Delivery(s, c)
  }

  /** New candidates differ from all accepted routes, so the last one was better than them. */
  lemma NewCandidatesInOrder(s: Search, known: seq<seq<Contact>>, cands: set<seq<Contact>>, cands': set<seq<Contact>>)
    requires InOrder(s, known, cands)
    requires forall c :: c in cands' ==> c in cands || (IsRoute(s, c) && c !in known)
    ensures InOrder(s, known, cands')
  {
    var n := |known| - 1;
    assert BestBut(s, known[..n], known[n]);
    forall c | c in cands' ensures Delivery(s, known[n]) <= Delivery(s, c) {
      assert c in known[..n] ==> c in known;
    }
  }

  /** Accepting an earliest candidate keeps the order and the ranking. */
  lemma AcceptInOrder(s: Search, known: seq<seq<Contact>>, cands: set<seq<Contact>>, c: seq<Contact>, cands': set<seq<Contact>>)
    requires InOrder(s, known, cands) && AreRoutes(s, known)
    requires SettledUpTo(s, known, cands, Spurs(known))
    requires c in cands && forall d :: d in cands ==> Delivery(s, c) <= Delivery(s, d)
    requires cands' <= cands
    ensures InOrder(s, known + [c], cands')
  {
    EarliestIsBest(s, known, cands, c);
    RankedSnoc(s, known, c);
    AscendingSnoc(s, known, c);
  }

  lemma RankedSnoc(s: Search, known: seq<seq<Contact>>, c: seq<Contact>)
    requires Ranked(s, known) && BestBut(s, known, c)
    ensures Ranked(s, known + [c])
  {
    var known' := known + [c];
    assert known'[..|known|] == known;
    forall k | 0 <= k < |known| ensures BestBut(s, known'[..k], known'[k]) {
      assert known'[..k] == known[..k];
    }
  }

  lemma AscendingSnoc(s: Search, known: seq<seq<Contact>>, c: seq<Contact>)
    requires known != [] && Ascending(s, known) && Delivery(s, known[|known| - 1]) <= Delivery(s, c)
    ensures Ascending(s, known + [c])
  {
    forall j | 0 <= j < |known| ensures Delivery(s, known[j]) <= Delivery(s, c) {
      assert j < |known| - 1 ==> Delivery(s, known[j]) <= Delivery(s, known[|known| - 1]);
    }
  }

  /** What `cgr_yen` promises about the journeys of the routes it returns: each is the earliest
      node-simple journey apart from those before it, in ascending order of arrival; the first beats
      every journey; and fewer than requested means that there are no others. */
  ghost predicate BestJourneys(s: Search, ws: seq<seq<Contact>>, requested: int) {
    && (forall k :: 0 <= k < |ws| ==> SimpleJourney(s, ws[k]))
    && (forall k, w :: 0 <= k < |ws| && SimpleJourney(s, w) && w !in ws[..k] ==>
        Arrival(s.departure, ws[k]) <= Arrival(s.departure, w))
    && (forall j, k :: 0 <= j < k < |ws| ==> Arrival(s.departure, ws[j]) <= Arrival(s.departure, ws[k]))
    && (forall w :: Journey(s, w) ==> ws != [] && Arrival(s.departure, ws[0]) <= Arrival(s.departure, w))
    && (|ws| <= 1 || |ws| <= requested)
    && (|ws| < requested ==> forall w :: SimpleJourney(s, w) ==> w in ws)
  }

  /** The journeys of routes. */
  function Tails(known: seq<seq<Contact>>): (ws: seq<seq<Contact>>)
    ensures |ws| == |known| && forall k :: 0 <= k < |known| ==> ws[k] == Tail(known[k])
  {
    seq(|known|, k requires 0 <= k < |known| => Tail(known[k]))
  }

  lemma RankedTails(s: Search, known: seq<seq<Contact>>, requested: int)
    requires AreRoutes(s, known) && Ranked(s, known) && Ascending(s, known)
    requires forall w :: Journey(s, w) ==> known != [] && Delivery(s, known[0]) <= Arrival(s.departure, w)
    requires |known| <= 1 || |known| <= requested
    requires |known| < requested ==> forall h :: IsRoute(s, h) ==> h in known
    ensures BestJourneys(s, Tails(known), requested)
  {
    hide SimpleJourney, Journey, Ranked;
    var ws := Tails(known);
    forall k | 0 <= k < |ws| ensures SimpleJourney(s, ws[k]) {
      assert IsRoute(s, known[k]);
    }
    forall k, w | 0 <= k < |ws| && SimpleJourney(s, w) && w !in ws[..k]
      ensures Arrival(s.departure, ws[k]) <= Arrival(s.departure, w)
    {
      TailIsBest(s, known, k, w);
    }
    forall w | |known| < requested && SimpleJourney(s, w) ensures w in ws {
      RootedUnknown(s, known, |known|, w);
      assert known[..|known|] == known && ws[..|known|] == ws;
    }
  }

  lemma TailIsBest(s: Search, known: seq<seq<Contact>>, k: nat, w: seq<Contact>)
    requires k < |known| && Ranked(s, known)
    requires SimpleJourney(s, w) && w !in Tails(known)[..k]
    ensures Delivery(s, known[k]) <= Arrival(s.departure, w)
  {
    RootedUnknown(s, known, k, w);
    assert BestBut(s, known[..k], known[k]);
  }

  lemma RootedUnknown(s: Search, known: seq<seq<Contact>>, k: nat, w: seq<Contact>)
    requires k <= |known| && SimpleJourney(s, w)
    ensures var h := [s.root] + w;
      && IsRoute(s, h) && Delivery(s, h) == Arrival(s.departure, w)
      && (h in known[..k] ==> w in Tails(known)[..k])
  {
    var h := [s.root] + w;
    assert h[1..] == w;
    forall j | 0 <= j < k && known[..k][j] == h ensures w in Tails(known)[..k] {
      assert Tails(known)[..k][j] == Tail(known[j]) == w;
    }
  }
}

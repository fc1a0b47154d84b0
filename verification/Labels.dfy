/** What the labels of a contact search mean: the invariant of `cgr_dijkstra` on values, how one
    relaxation and one choice of the next contact keep it, and why it makes the result optimal.

    A label holds what the search has written into a contact's working area.  `done` is the set of
    contacts whose successors have been explored, including the one being explored. */
module Labels {
  import opened Contacts

  datatype Label = Label(arrival: real, nodes: seq<int>, pred: Contact?)

  type Labelling = map<Contact, Label>

  ghost predicate Reached(ls: Labelling, c: Contact) {
    c in ls && ls[c].arrival < MAX_TIME
  }

  /** `p` may be followed by `c`, given the time at which the search reaches the end of `p`. */
  ghost predicate Edge(s: Search, ls: Labelling, p: Contact, c: Contact) {
    && p in ls && Open(s, c)
    && c.frm == p.to
    && ls[p].arrival < c.end
    && (p == s.root ==> c !in s.blocked)
  }

  /** The label of a reached contact follows from the label of its predecessor. */
  ghost predicate Supported(s: Search, ls: Labelling, done: set<Contact>, c: Contact) {
    && c in ls && ls[c].pred != null
    && var p := ls[c].pred;
    && p in done && Edge(s, ls, p, c)
    && ls[c].arrival == Arrive(ls[p].arrival, c)
    && c.to !in ls[p].nodes
    && ls[c].nodes == ls[p].nodes + [c.to]
  }

  ghost predicate Sound(s: Search, ls: Labelling, done: set<Contact>) {
    && s.root in ls && ls[s.root].arrival == s.departure && ls[s.root].nodes == s.avoid
    && s.root.to in s.avoid
    && s.root in done && done <= ls.Keys
    && (forall c :: c in s.plan ==> c in ls && c.owlt >= 0.0)
    && (forall c :: c in ls && c != s.root ==> c in s.plan && ls[c].arrival <= MAX_TIME)
    && (forall c :: c in ls && c != s.root && Reached(ls, c) ==> Supported(s, ls, done, c))
    && (forall c :: c in done && c != s.root ==> Reached(ls, c))
  }

  /** Node `n` is the end of an explored contact that was reached by time `t`. */
  ghost predicate Passed(s: Search, ls: Labelling, done: set<Contact>, n: int, t: real) {
    exists q :: q in done && q in ls && q != s.root && q.to == n && ls[q].arrival <= t
  }

  /** A node on the list of visited nodes of an explored contact has been passed in time. */
  ghost predicate Covered(s: Search, ls: Labelling, done: set<Contact>) {
    forall p, n :: p in done && p in ls && n in ls[p].nodes && n !in s.avoid ==>
      Passed(s, ls, done, n, ls[p].arrival)
  }

  /** Exploring `p` has dealt with `c`: either `c` is labelled at least as well, or the node that
      `c` leads to has been passed before. */
  ghost predicate Relaxed(s: Search, ls: Labelling, done: set<Contact>, p: Contact, c: Contact) {
    Edge(s, ls, p, c) && c in ls ==>
      || ls[c].arrival <= Arrive(ls[p].arrival, c)
      || Passed(s, ls, done, c.to, ls[p].arrival)
  }

  ghost predicate Explored(s: Search, ls: Labelling, done: set<Contact>, ps: set<Contact>) {
    forall p, c :: p in ps && c in s.plan ==> Relaxed(s, ls, done, p, c)
  }

  /** Contacts are explored in the order of their arrival times. */
  ghost predicate Ordered(ls: Labelling, done: set<Contact>, now: real) {
    forall c :: c in ls ==>
      if c in done then ls[c].arrival <= now
      else Reached(ls, c) ==> now <= ls[c].arrival
  }

  /** `best` is the best arrival time at the destination so far, `final` the contact with it. */
  ghost predicate Target(s: Search, ls: Labelling, best: real, final: Contact?) {
    && (final == null ==> best == MAX_TIME)
    && (final != null ==>
        final in ls && final != s.root && final.to == s.destination
        && ls[final].arrival == best < MAX_TIME)
    && (forall c :: c in ls && c != s.root && Reached(ls, c) && c.to == s.destination ==>
        best <= ls[c].arrival)
  }

  // --- Steps of the search ----------------------------------------------------------------------

  /** The label that exploring `p` gives to `c`. */
  function NewLabel(ls: Labelling, p: Contact, c: Contact): Label
    requires p in ls
  {
    Label(Arrive(ls[p].arrival, c), ls[p].nodes + [c.to], p)
  }

  lemma PassedKept(s: Search, ls: Labelling, ls': Labelling, done: set<Contact>, done': set<Contact>, n: int, t: real)
    requires done <= ls.Keys && done <= done' <= ls'.Keys
    requires forall q :: q in done ==> ls'[q] == ls[q]
    requires Passed(s, ls, done, n, t)
    ensures Passed(s, ls', done', n, t)
  {
    var q :| q in done && q in ls && q != s.root && q.to == n && ls[q].arrival <= t;
    assert q in done';
  }

  /** Exploring `p` improves the label of the unexplored contact `c`, or confirms its arrival time. */
  ghost predicate Improves(s: Search, ls: Labelling, done: set<Contact>, p: Contact, c: Contact) {
    && p in done && p in ls
    && c in s.plan && c in ls && c !in done
    && Edge(s, ls, p, c) && c.to !in ls[p].nodes
    && Arrive(ls[p].arrival, c) <= ls[c].arrival
  }

  lemma RelaxSound(s: Search, ls: Labelling, done: set<Contact>, p: Contact, c: Contact)
    requires Sound(s, ls, done) && Improves(s, ls, done, p, c)
    ensures Sound(s, ls[c := NewLabel(ls, p, c)], done)
  {
    var ls' := ls[c := NewLabel(ls, p, c)];
    forall d | d in ls' && d != s.root && Reached(ls', d) ensures Supported(s, ls', done, d) {
      if d != c {
        assert Supported(s, ls, done, d);
      }
    }
  }

  lemma RelaxCovered(s: Search, ls: Labelling, done: set<Contact>, p: Contact, c: Contact)
    requires done <= ls.Keys && Covered(s, ls, done) && Improves(s, ls, done, p, c)
    ensures Covered(s, ls[c := NewLabel(ls, p, c)], done)
  {
    var ls' := ls[c := NewLabel(ls, p, c)];
    forall d, n | d in done && n in ls'[d].nodes && n !in s.avoid
      ensures Passed(s, ls', done, n, ls'[d].arrival)
    {
      PassedKept(s, ls, ls', done, done, n, ls[d].arrival);
    }
  }

  lemma RelaxExplored(s: Search, ls: Labelling, done: set<Contact>, ps: set<Contact>, p: Contact, c: Contact)
    requires done <= ls.Keys && ps <= done && Explored(s, ls, done, ps) && Improves(s, ls, done, p, c)
    ensures Explored(s, ls[c := NewLabel(ls, p, c)], done, ps)
  {
    var ls' := ls[c := NewLabel(ls, p, c)];
    forall q, d | q in ps && d in s.plan ensures Relaxed(s, ls', done, q, d) {
      RelaxRelaxed(s, ls, done, p, c, q, d);
    }
  }

  lemma RelaxRelaxed(s: Search, ls: Labelling, done: set<Contact>, p: Contact, c: Contact, q: Contact, d: Contact)
    requires done <= ls.Keys && Improves(s, ls, done, p, c)
    requires q in done && Relaxed(s, ls, done, q, d)
    ensures Relaxed(s, ls[c := NewLabel(ls, p, c)], done, q, d)
  {
    var ls' := ls[c := NewLabel(ls, p, c)];
    if Edge(s, ls, q, d) && Passed(s, ls, done, d.to, ls[q].arrival) {
      PassedKept(s, ls, ls', done, done, d.to, ls[q].arrival);
    }
  }

  /** Giving an unexplored contact a better or equal label keeps the invariant. */
  lemma RelaxKeeps(s: Search, ls: Labelling, done: set<Contact>, ps: set<Contact>, p: Contact, c: Contact)
    requires Sound(s, ls, done) && Covered(s, ls, done)
    requires Improves(s, ls, done, p, c) && Ordered(ls, done, ls[p].arrival)
    requires ps <= done && Explored(s, ls, done, ps)
    ensures var ls' := ls[c := NewLabel(ls, p, c)];
      && Sound(s, ls', done) && Covered(s, ls', done) && Ordered(ls', done, ls'[p].arrival)
      && Explored(s, ls', done, ps)
  {
    RelaxSound(s, ls, done, p, c);
    RelaxCovered(s, ls, done, p, c);
    RelaxExplored(s, ls, done, ps, p, c);
  }

  /** Marking `c` as final when it leads to the destination earlier than before. */
  lemma RelaxTarget(s: Search, ls: Labelling, done: set<Contact>, p: Contact, c: Contact, best: real, final: Contact?)
    requires Sound(s, ls, done) && Improves(s, ls, done, p, c) && Target(s, ls, best, final)
    ensures var ls' := ls[c := NewLabel(ls, p, c)];
      if c.to == s.destination && ls'[c].arrival < best then Target(s, ls', ls'[c].arrival, c)
      else Target(s, ls', best, final)
  {
  }

  /** A contact that the search skips has been dealt with. */
  lemma SkipIsRelaxed(s: Search, ls: Labelling, done: set<Contact>, p: Contact, c: Contact)
    requires Sound(s, ls, done) && Covered(s, ls, done)
    requires p in done && Ordered(ls, done, ls[p].arrival) && c in s.plan
    requires !Edge(s, ls, p, c) || c in done || c.to in ls[p].nodes
             || ls[c].arrival <= Arrive(ls[p].arrival, c)
    ensures Relaxed(s, ls, done, p, c)
  {
    if Edge(s, ls, p, c) && c !in done && c.to in ls[p].nodes {
      assert Passed(s, ls, done, c.to, ls[p].arrival);
    }
  }

  /** Moving on to the unexplored contact with the least arrival time keeps the invariant. */
  lemma {:induction false} AdvanceKeeps(s: Search, ls: Labelling, done: set<Contact>, p: Contact, c: Contact)
    requires Sound(s, ls, done) && Covered(s, ls, done) && Explored(s, ls, done, done)
    requires p in done && Ordered(ls, done, ls[p].arrival)
    requires c in ls && c !in done && Reached(ls, c)
    requires forall d :: d in ls && d !in done && Reached(ls, d) ==> ls[c].arrival <= ls[d].arrival
    ensures var done' := done + {c};
      && Sound(s, ls, done') && Covered(s, ls, done') && Ordered(ls, done', ls[c].arrival)
      && Explored(s, ls, done', done)
  {
    var done' := done + {c};
    assert Supported(s, ls, done, c);
    forall d | d in ls && d != s.root && Reached(ls, d) ensures Supported(s, ls, done', d) {
      assert Supported(s, ls, done, d);
    }
    forall d, n | d in done' && n in ls[d].nodes && n !in s.avoid
      ensures Passed(s, ls, done', n, ls[d].arrival)
    {
      if d in done {
        PassedKept(s, ls, ls, done, done', n, ls[d].arrival);
      } else if n == c.to {
        assert c in done';
      } else {
        var q := ls[c].pred;
        PassedKept(s, ls, ls, done, done', n, ls[q].arrival);
        var r :| r in done' && r != s.root && r.to == n && ls[r].arrival <= ls[q].arrival;
        assert ls[r].arrival <= ls[c].arrival;
      }
    }
    forall q, d | q in done && d in s.plan ensures Relaxed(s, ls, done', q, d) {
      assert Relaxed(s, ls, done, q, d);
      if Edge(s, ls, q, d) && Passed(s, ls, done, d.to, ls[q].arrival) {
        PassedKept(s, ls, ls, done, done', d.to, ls[q].arrival);
      }
    }
  }

  // --- The route to a labelled contact ----------------------------------------------------------

  /** The contacts from the root to `c` along predecessors, without the root itself. */
  ghost function PathTo(s: Search, ls: Labelling, done: set<Contact>, c: Contact): seq<Contact>
    requires Sound(s, ls, done) && c in ls && (c == s.root || Reached(ls, c))
    decreases |ls[c].nodes|
  {
    if c == s.root then []
    else
      assert Supported(s, ls, done, c);
      PathTo(s, ls, done, ls[c].pred) + [c]
  }

  /** Labels are honest: predecessors spell out a walk that arrives when the label says, and whose
      nodes are new and all different. */
  lemma {:induction false} PathToIsWalk(s: Search, ls: Labelling, done: set<Contact>, c: Contact)
    requires Sound(s, ls, done) && c in ls && (c == s.root || Reached(ls, c))
    ensures var w := PathTo(s, ls, done, c);
      && Walk(s, w)
      && Arrival(s.departure, w) == ls[c].arrival
      && EndNode(s, w) == c.to
      && ls[c].nodes == s.avoid + Nodes(w)
      && Distinct(Nodes(w))
      && (w == [] <==> c == s.root)
    decreases |ls[c].nodes|
  {
    if c != s.root {
      assert Supported(s, ls, done, c);
      var p := ls[c].pred;
      PathToIsWalk(s, ls, done, p);
      var w := PathTo(s, ls, done, p);
      ArrivalSnoc(s.departure, w, c);
      WalkSnoc(s, w, c);
      assert Nodes(w + [c]) == Nodes(w) + [c.to];
      assert c.to !in s.avoid + Nodes(w);
    }
  }

  // --- Optimality -------------------------------------------------------------------------------

  /** The search has run to the end: nothing unexplored can still arrive by `best`. */
  ghost predicate Exhausted(ls: Labelling, done: set<Contact>, best: real) {
    forall c :: c in ls && c !in done && Reached(ls, c) ==> best < ls[c].arrival
  }

  /** Every walk that arrives by `best` leads to a node that an explored contact reaches no later.
      This holds although the search never reopens contacts and prunes by visited nodes. */
  lemma {:induction false} WalksArePassed(s: Search, ls: Labelling, done: set<Contact>, best: real, w: seq<Contact>)
    requires Sound(s, ls, done) && Explored(s, ls, done, done) && Exhausted(ls, done, best)
    requires Walk(s, w) && w != []
    requires Arrival(s.departure, w) <= best && Arrival(s.departure, w) < MAX_TIME
    ensures Passed(s, ls, done, EndNode(s, w), Arrival(s.departure, w))
    decreases |w|
  {
    var v, c := w[..|w| - 1], w[|w| - 1];
    var p;
    if v == [] {
      p := s.root;
    } else {
      WalksArePassed(s, ls, done, best, v);
      p :| p in done && p != s.root && p.to == EndNode(s, v) && ls[p].arrival <= Arrival(s.departure, v);
    }
    assert Edge(s, ls, p, c);
    assert Relaxed(s, ls, done, p, c);
    if ls[c].arrival <= Arrive(ls[p].arrival, c) {
      assert c in done && c != s.root;
    }
  }

  ghost predicate Finished(s: Search, ls: Labelling, done: set<Contact>, best: real, final: Contact?) {
    && Sound(s, ls, done) && Explored(s, ls, done, done)
    && Exhausted(ls, done, best) && Target(s, ls, best, final)
  }

  /** What the search has found is a journey that no journey beats, and it finds one if any exists. */
  lemma SearchIsOptimal(s: Search, ls: Labelling, done: set<Contact>, best: real, final: Contact?)
    requires Finished(s, ls, done, best, final)
    ensures final != null ==> SimpleJourney(s, PathTo(s, ls, done, final))
    ensures final != null ==> Arrival(s.departure, PathTo(s, ls, done, final)) == best
    ensures forall w :: Journey(s, w) ==> final != null && best <= Arrival(s.departure, w)
  {
    if final != null {
      PathToIsWalk(s, ls, done, final);
    }
    forall w | Journey(s, w) ensures final != null && best <= Arrival(s.departure, w) {
      if Arrival(s.departure, w) < best {
        WalksArePassed(s, ls, done, best, w);
        assert false;
      }
    }
  }
}

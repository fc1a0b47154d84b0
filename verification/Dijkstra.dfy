/** `cgr_dijkstra`: the best route from a root contact to a destination. */
module Dijkstra {
  import opened Contacts
  import opened Labels
  import opened Routes

  // --- Reading the working areas of contacts as a search and a labelling --------------------------

  ghost function Members(root: Contact, plan: seq<Contact>): set<Contact> {
    {root} + set c | c in plan
  }

  ghost function Snapshot(cs: set<Contact>): Labelling
    reads cs`arrivalTime, cs`visitedNodes, cs`predecessor
  {
    map c | c in cs :: Label(c.arrivalTime, c.visitedNodes, c.predecessor)
  }

  /** The nodes a search from `root` may not enter: those on its list, and the one it starts from. */
  function AvoidedNodes(root: Contact): seq<int>
    reads root
  {
    if root.to in root.visitedNodes then root.visitedNodes else root.visitedNodes + [root.to]
  }

  /** The search that `cgr_dijkstra` performs, given what its caller left in the working areas. */
  ghost function SearchFrom(root: Contact, destination: int, plan: seq<Contact>): Search
    reads root, plan
  {
    Search(root, destination, plan, root.arrivalTime, AvoidedNodes(root),
           set c | c in plan && c.suppressed, set c | c in root.suppressedNextHop)
  }

  /** What `cgr_dijkstra` takes for granted: the root contact leads to a node of the plan (else the
      adjacency table has no entry for it), does not come from elsewhere, and only the root contact
      has suppressed next hops. */
  ghost predicate Searchable(root: Contact, plan: seq<Contact>)
    reads root, plan
  {
    && (exists c :: c in plan && (c.frm == root.to || c.to == root.to))
    && root.frm in AvoidedNodes(root)
    && (forall c :: c in plan ==> c.owlt >= 0.0)
    && (forall c :: c in plan && c != root ==> c.suppressedNextHop == [])
  }

  /** The flags of contacts are those of the search, and `visited` marks the explored contacts. */
  ghost predicate Agrees(s: Search, done: set<Contact>, current: Contact)
    reads s.plan`suppressed, s.root`suppressedNextHop, s.plan`suppressedNextHop, s.plan`visited
  {
    && (forall c :: c in s.plan ==> (c.suppressed <==> c in s.suppressed))
    && s.blocked == (set c | c in s.root.suppressedNextHop)
    && (forall c :: c in s.plan && c != s.root ==> c.suppressedNextHop == [])
    && (forall c :: c in s.plan && c != current ==> (c.visited <==> c in done))
  }

  /** The invariant of the search while `current` is being explored. */
  ghost predicate Exploring(s: Search, ls: Labelling, done: set<Contact>, current: Contact, best: real, final: Contact?) {
    && ls.Keys == Members(s.root, s.plan)
    && Sound(s, ls, done) && Covered(s, ls, done)
    && s.root.frm in s.avoid
    && current in done && Ordered(ls, done, ls[current].arrival)
    && Explored(s, ls, done, done - {current})
    && Target(s, ls, best, final)
  }

  // --- Adjacency table --------------------------------------------------------------------------

  /** `contact_plan_hash`: every node of the plan with the contacts that leave from it. */
  ghost predicate IsTable(plan: seq<Contact>, table: map<int, seq<Contact>>) {
    && (forall c :: c in plan ==> c.frm in table && c.to in table && c in table[c.frm])
    && (forall n, c :: n in table && c in table[n] ==> c in plan && c.frm == n)
  }

  method AdjacencyTable(plan: seq<Contact>) returns (table: map<int, seq<Contact>>)
    ensures IsTable(plan, table)
  {
    table := map[];
    for i := 0 to |plan|
      invariant IsTable(plan[..i], table)
    {
      var contact := plan[i];
      assert plan[..i + 1] == plan[..i] + [contact];
      if contact.frm !in table {
        table := table[contact.frm := []];
      }
      if contact.to !in table {
        table := table[contact.to := []];
      }
      table := table[contact.frm := table[contact.frm] + [contact]];
    }
    assert plan[..|plan|] == plan;
  }

  // --- Exploring the successors of one contact ----------------------------------------------------

  /** `contact` passes all the tests that would make the search ignore it. */
  predicate Considered(current: Contact, contact: Contact)
    reads current, contact
  {
    && contact !in current.suppressedNextHop
    && !contact.suppressed
    && !contact.visited
    && contact.to !in current.visitedNodes
    && !(contact.end <= current.arrivalTime)
    && HasResidualVolume(contact)
    && !(current.frm == contact.to && current.to == contact.frm)
  }

  /** An ignored contact needs no label, and a considered one is a legal next hop. */
  lemma ConsideredIsEdge(s: Search, done: set<Contact>, current: Contact, contact: Contact, best: real, final: Contact?)
    requires Exploring(s, Snapshot(Members(s.root, s.plan)), done, current, best, final) && Agrees(s, done, current)
    requires contact in s.plan && contact.frm == current.to
    ensures var ls := Snapshot(Members(s.root, s.plan));
      if Considered(current, contact) then
        Edge(s, ls, current, contact) && contact !in done && contact.to !in ls[current].nodes
      else Relaxed(s, ls, done, current, contact)
  {
    var ls := Snapshot(Members(s.root, s.plan));
    if current != s.root {
      assert Supported(s, ls, done, current);
    }
    var p := ls[current].pred;
    assert current != s.root && p != s.root ==> Supported(s, ls, done, p);
    assert current.to in ls[current].nodes;
    assert current.frm in ls[current].nodes;
    assert forall n :: n in s.avoid ==> n in ls[current].nodes by {
      PathToIsWalk(s, ls, done, current);
    }
    if !Considered(current, contact) {
      SkipIsRelaxed(s, ls, done, current, contact);
    }
  }

  /** The outcome of exploring `contact`: a better label, or nothing to do. */
  lemma ExploreOutcome(s: Search, done: set<Contact>, current: Contact, contact: Contact, best: real, final: Contact?)
    requires Exploring(s, Snapshot(Members(s.root, s.plan)), done, current, best, final) && Agrees(s, done, current)
    requires contact in s.plan && contact.frm == current.to
    ensures var ls := Snapshot(Members(s.root, s.plan));
      var ls' := ls[contact := Label(Arrive(current.arrivalTime, contact), current.visitedNodes + [contact.to], current)];
      if Considered(current, contact) && Arrive(current.arrivalTime, contact) <= contact.arrivalTime then
        && contact != current && current in Members(s.root, s.plan)
        && Step(s, ls, ls', done, current, contact)
        && if contact.to == s.destination && Arrive(current.arrivalTime, contact) < best
           then Target(s, ls', Arrive(current.arrivalTime, contact), contact)
           else Target(s, ls', best, final)
      else
        Step(s, ls, ls, done, current, contact) && Target(s, ls, best, final)
  {
    var ls := Snapshot(Members(s.root, s.plan));
    ConsideredIsEdge(s, done, current, contact, best, final);
    if Considered(current, contact) && Arrive(current.arrivalTime, contact) <= contact.arrivalTime {
      assert Improves(s, ls, done, current, contact);
      RelaxTarget(s, ls, done, current, contact, best, final);
      RelaxKeeps(s, ls, done, done - {current}, current, contact);
    }
  }

  /** What exploring one neighbour does to the labelling. */
  ghost predicate Step(s: Search, ls: Labelling, ls': Labelling, done: set<Contact>, current: Contact, contact: Contact) {
    || (ls' == ls && Relaxed(s, ls, done, current, contact))
    || (Improves(s, ls, done, current, contact) && ls' == ls[contact := NewLabel(ls, current, contact)])
  }

  lemma StepKeeps(s: Search, ls: Labelling, ls': Labelling, done: set<Contact>, current: Contact, contact: Contact,
                  best: real, final: Contact?, best': real, final': Contact?)
    requires Exploring(s, ls, done, current, best, final)
    requires Step(s, ls, ls', done, current, contact) && Target(s, ls', best', final')
    ensures Exploring(s, ls', done, current, best', final')
    ensures Relaxed(s, ls', done, current, contact)
  {
    if ls' != ls {
      RelaxKeeps(s, ls, done, done - {current}, current, contact);
    }
  }

  lemma StepKeepsRelaxed(s: Search, ls: Labelling, ls': Labelling, done: set<Contact>, current: Contact, contact: Contact, c: Contact,
                         best: real, final: Contact?)
    requires Exploring(s, ls, done, current, best, final) && c in s.plan
    requires Step(s, ls, ls', done, current, contact)
    requires Relaxed(s, ls, done, current, c)
    ensures Relaxed(s, ls', done, current, c)
  {
    if ls' != ls {
      RelaxRelaxed(s, ls, done, current, contact, current, c);
    }
  }

  /** A contact that is considered gets a label that is better than the one it has, or as good. */
  ghost predicate Relabels(current: Contact, contact: Contact)
    reads current, contact
  {
    Considered(current, contact) && Arrive(current.arrivalTime, contact) <= contact.arrivalTime
  }

  method UpdateLabel(ghost cs: set<Contact>, current: Contact, contact: Contact, arrvlTime: real)
    requires contact in cs && current in cs && contact != current
    modifies contact`arrivalTime, contact`predecessor, contact`visitedNodes
    ensures Snapshot(cs) ==
      old(Snapshot(cs))[contact := Label(arrvlTime, old(current.visitedNodes) + [contact.to], current)]
    ensures contact.arrivalTime == arrvlTime && contact.predecessor == current
    ensures contact.visitedNodes == old(current.visitedNodes) + [contact.to]
  {
    contact.arrivalTime := arrvlTime;
    contact.predecessor := current;
    contact.visitedNodes := current.visitedNodes + [contact.to];
  }

  method ExploreContact(ghost s: Search, ghost done: set<Contact>, current: Contact, contact: Contact,
                        destination: int, best0: real, final0: Contact?)
    returns (best: real, final: Contact?)
    requires Exploring(s, Snapshot(Members(s.root, s.plan)), done, current, best0, final0)
    requires Agrees(s, done, current) && destination == s.destination
    requires contact in s.plan && contact.frm == current.to
    modifies contact`arrivalTime, contact`predecessor, contact`visitedNodes
    ensures var cs := Members(s.root, s.plan);
      && Step(s, old(Snapshot(cs)), Snapshot(cs), done, current, contact)
      && Target(s, Snapshot(cs), best, final)
    ensures old(Relabels(current, contact)) ==>
      contact.arrivalTime == old(Arrive(current.arrivalTime, contact)) && contact.predecessor == current
      && contact.visitedNodes == old(current.visitedNodes) + [contact.to]
    ensures !old(Relabels(current, contact)) ==>
      contact.arrivalTime == old(contact.arrivalTime) && contact.predecessor == old(contact.predecessor)
      && contact.visitedNodes == old(contact.visitedNodes)
    ensures if old(Relabels(current, contact)) && contact.to == destination && contact.arrivalTime < best0
            then best == contact.arrivalTime && final == contact else best == best0 && final == final0
  {
    hide Exploring, Agrees, Step, Target, Snapshot, Considered;
    best, final := best0, final0;
    ExploreOutcome(s, done, current, contact, best, final);
    if Considered(current, contact) {
      var arrvlTime := Arrive(current.arrivalTime, contact);
      if arrvlTime <= contact.arrivalTime {
        UpdateLabel(Members(s.root, s.plan), current, contact, arrvlTime);
        if contact.to == destination && contact.arrivalTime < best {
          best, final := contact.arrivalTime, contact;
        }
      }
    }
  }

  /** The inner loop: label the contacts that leave from where `current` ends. */
  method Explore(ghost s: Search, ghost done: set<Contact>, current: Contact, table: map<int, seq<Contact>>,
                 destination: int, best0: real, final0: Contact?)
    returns (best: real, final: Contact?)
    requires Exploring(s, Snapshot(Members(s.root, s.plan)), done, current, best0, final0)
    requires Agrees(s, done, current) && destination == s.destination
    requires IsTable(s.plan, table) && current.to in table
    modifies s.plan`arrivalTime, s.plan`predecessor, s.plan`visitedNodes
    ensures Exploring(s, Snapshot(Members(s.root, s.plan)), done, current, best, final)
    ensures Explored(s, Snapshot(Members(s.root, s.plan)), done, done)
    ensures Agrees(s, done, current)
  {
    hide Exploring, Agrees, Relaxed, Step, Explored, Target, Snapshot;
    best, final := best0, final0;
    var neighbours := table[current.to];
    ghost var cs := Members(s.root, s.plan);
    for i := 0 to |neighbours|
      invariant Exploring(s, Snapshot(cs), done, current, best, final)
      invariant Agrees(s, done, current)
      invariant forall j :: 0 <= j < i ==> Relaxed(s, Snapshot(cs), done, current, neighbours[j])
    {
      ghost var ls, best', final' := Snapshot(cs), best, final;
      assert neighbours[i] in s.plan;
      best, final := ExploreContact(s, done, current, neighbours[i], destination, best, final);
      StepKeeps(s, ls, Snapshot(cs), done, current, neighbours[i], best', final', best, final);
      forall j | 0 <= j < i ensures Relaxed(s, Snapshot(cs), done, current, neighbours[j]) {
        StepKeepsRelaxed(s, ls, Snapshot(cs), done, current, neighbours[i], neighbours[j], best', final');
      }
    }
    AllRelaxed(s, Snapshot(cs), done, current, neighbours, best, final);
  }

  lemma AllRelaxed(s: Search, ls: Labelling, done: set<Contact>, current: Contact, neighbours: seq<Contact>,
                   best: real, final: Contact?)
    requires Exploring(s, ls, done, current, best, final)
    requires forall c :: c in s.plan && c.frm == current.to ==> c in neighbours
    requires forall j :: 0 <= j < |neighbours| ==> Relaxed(s, ls, done, current, neighbours[j])
    ensures Explored(s, ls, done, done)
  {
    forall p, c | p in done && c in s.plan ensures Relaxed(s, ls, done, p, c) {
      if p != current {
        assert p in done - {current};
      }
    }
  }

  // --- Choosing the next contact ------------------------------------------------------------------

  /** A contact that may be explored next. */
  predicate Eligible(c: Contact, best: real)
    reads c
  {
    !c.suppressed && !c.visited && !(c.arrivalTime > best) && c.arrivalTime < MAX_TIME
  }

  method SelectNext(plan: seq<Contact>, best: real) returns (next: Contact?)
    ensures next == null ==> forall c :: c in plan ==> !Eligible(c, best)
    ensures next != null ==>
      && next in plan && Eligible(next, best)
      && (forall c :: c in plan && Eligible(c, best) ==> next.arrivalTime <= c.arrivalTime)
      && (exists k :: 0 <= k < |plan| && plan[k] == next &&
            forall j :: 0 <= j < k && Eligible(plan[j], best) ==> next.arrivalTime < plan[j].arrivalTime)
  {
    var earliestArrT := MAX_TIME;
    next := null;
    ghost var k := 0;
    for i := 0 to |plan|
      invariant if next == null then earliestArrT == MAX_TIME
                else k < i && plan[k] == next && Eligible(next, best) && next.arrivalTime == earliestArrT
      invariant next != null ==> forall j :: 0 <= j < k && Eligible(plan[j], best) ==> next.arrivalTime < plan[j].arrivalTime
      invariant forall j :: 0 <= j < i && Eligible(plan[j], best) ==> earliestArrT <= plan[j].arrivalTime
    {
      var contact := plan[i];
      if contact.suppressed || contact.visited {
        continue;
      }
      if contact.arrivalTime > best {
        continue;
      }
      if contact.arrivalTime < earliestArrT {
        earliestArrT := contact.arrivalTime;
        next, k := contact, i;
      }
    }
  }

  /** Unexplored contacts that have been reached are eligible unless they are too late. */
  lemma EligibleIsReached(s: Search, done: set<Contact>, current: Contact, best: real, final: Contact?)
    requires Exploring(s, Snapshot(Members(s.root, s.plan)), done, current, best, final)
    requires Agrees(s, done, current) && current.visited
    ensures var ls := Snapshot(Members(s.root, s.plan));
      forall c :: c in ls && c !in done && Reached(ls, c) && ls[c].arrival <= best ==>
        c in s.plan && Eligible(c, best)
    ensures var ls := Snapshot(Members(s.root, s.plan));
      forall c :: c in s.plan && Eligible(c, best) ==> c in ls && c !in done && Reached(ls, c)
  {
    var ls := Snapshot(Members(s.root, s.plan));
    forall c | c in ls && c !in done && Reached(ls, c) && ls[c].arrival <= best
      ensures c in s.plan && Eligible(c, best)
    {
      assert Supported(s, ls, done, c);
    }
  }

  /** What the choice of the next contact means for the search. */
  lemma NextKeeps(s: Search, done: set<Contact>, current: Contact, best: real, final: Contact?, next: Contact?)
    requires Exploring(s, Snapshot(Members(s.root, s.plan)), done, current, best, final)
    requires Explored(s, Snapshot(Members(s.root, s.plan)), done, done)
    requires Agrees(s, done, current) && current.visited
    requires next == null ==> forall c :: c in s.plan ==> !Eligible(c, best)
    requires next != null ==>
      && next in s.plan && Eligible(next, best)
      && (forall c :: c in s.plan && Eligible(c, best) ==> next.arrivalTime <= c.arrivalTime)
    ensures var ls := Snapshot(Members(s.root, s.plan));
      if next == null then Finished(s, ls, done, best, final)
      else next in Members(s.root, s.plan) && next !in done && Exploring(s, ls, done + {next}, next, best, final) && Agrees(s, done + {next}, next)
  {
    hide Sound, Covered, Explored, Ordered, Target;
    var ls := Snapshot(Members(s.root, s.plan));
    EligibleIsReached(s, done, current, best, final);
    if next != null {
      AdvanceKeeps(s, ls, done, current, next);
      assert done + {next} - {next} == done;
    }
  }

  // --- The search ---------------------------------------------------------------------------------

  /** The working areas as the search sets them up. */
  lemma InitialKeeps(s: Search)
    requires s.root.to in s.avoid && s.root.frm in s.avoid
    requires s.root.arrivalTime == s.departure && s.root.visitedNodes == s.avoid
    requires forall c :: c in s.plan ==> c.owlt >= 0.0
    requires forall c :: c in s.plan && c != s.root ==> c.arrivalTime == MAX_TIME
    ensures Exploring(s, Snapshot(Members(s.root, s.plan)), {s.root}, s.root, MAX_TIME, null)
  {
  }

  /** `w` is what the predecessors of `c` spell out. */
  ghost predicate LeadsTo(s: Search, ls: Labelling, done: set<Contact>, c: Contact, w: seq<Contact>) {
    Sound(s, ls, done) && c in ls && (c == s.root || Reached(ls, c)) && w == PathTo(s, ls, done, c)
  }

  lemma LeadsToStep(s: Search, ls: Labelling, done: set<Contact>, c: Contact, w: seq<Contact>)
    requires LeadsTo(s, ls, done, c, w)
    ensures c == s.root <==> w == []
    ensures c != s.root ==>
      && c in ls && ls[c].pred != null && w[|w| - 1] == c
      && LeadsTo(s, ls, done, ls[c].pred, w[..|w| - 1])
  {
    if c != s.root {
      assert Supported(s, ls, done, c);
    }
  }

  /** Follow predecessors back to the root contact. */
  method Reconstruct(ghost s: Search, ghost done: set<Contact>, root: Contact, final: Contact, ghost path: seq<Contact>)
    returns (hops: seq<Contact>)
    requires s.root == root && LeadsTo(s, Snapshot(Members(s.root, s.plan)), done, final, path)
    ensures hops == path
  {
    hide LeadsTo;
    ghost var ls, rest := Snapshot(Members(s.root, s.plan)), path;
    hops := [];
    var contact: Contact := final;
    LeadsToStep(s, ls, done, contact, rest);
    while contact != root
      invariant LeadsTo(s, ls, done, contact, rest) && path == rest + hops
      invariant contact == root <==> rest == []
      decreases |rest|
    {
      LeadsToStep(s, ls, done, contact, rest);
      hops := [contact] + hops;
      contact := contact.predecessor;
      rest := rest[..|rest| - 1];
      LeadsToStep(s, ls, done, contact, rest);
    }
  }

  method BestHops(ghost s: Search, ghost done: set<Contact>, ghost best: real, root: Contact, final: Contact?) returns (hops: seq<Contact>)
    requires s.root == root && Finished(s, Snapshot(Members(s.root, s.plan)), done, best, final)
    ensures hops != [] ==> SimpleJourney(s, hops)
    ensures forall w :: Journey(s, w) ==>
      hops != [] && Arrival(s.departure, hops) <= Arrival(s.departure, w)
  {
    SearchIsOptimal(s, Snapshot(Members(s.root, s.plan)), done, best, final);
    hops := [];
    if final != null {
      ghost var path := PathTo(s, Snapshot(Members(s.root, s.plan)), done, final);
      hops := Reconstruct(s, done, root, final, path);
    }
  }

  method ClearWorkingAreas(root: Contact, plan: seq<Contact>)
    modifies (set c | c in plan && c != root)`arrivalTime, (set c | c in plan && c != root)`visited,
             (set c | c in plan && c != root)`predecessor, (set c | c in plan && c != root)`visitedNodes
    ensures forall c :: c in plan && c != root ==> c.arrivalTime == MAX_TIME && !c.visited
  {
    for i := 0 to |plan|
      invariant forall j :: 0 <= j < i && plan[j] != root ==> plan[j].arrivalTime == MAX_TIME && !plan[j].visited
    {
      if plan[i] != root {
        plan[i].ClearDijkstraWorkingArea();
      }
    }
  }

  /** Clear all contacts but the root, and put the node the search starts from on the root's list. */
  method Prepare(ghost s: Search, root: Contact, plan: seq<Contact>)
    requires Searchable(root, plan) && s.root == root && s.plan == plan
    requires s == SearchFrom(root, s.destination, plan)
    modifies root`visitedNodes
    modifies plan`arrivalTime, plan`visited, plan`predecessor, plan`visitedNodes
    ensures Exploring(s, Snapshot(Members(root, plan)), {root}, root, MAX_TIME, null)
    ensures Agrees(s, {root}, root)
  {
    ClearWorkingAreas(root, plan);
    if root.to !in root.visitedNodes {
      root.visitedNodes := root.visitedNodes + [root.to];
    }
    InitialKeeps(s);
  }

  method MarkVisited(ghost s: Search, ghost done: set<Contact>, current: Contact)
    requires Agrees(s, done, current)
    modifies current`visited
    ensures Agrees(s, done, current) && current.visited
  {
    current.visited := true;
  }

  /** The outer loop: explore contacts in the order of their arrival times until none is left that
      could still improve the result. */
  method SearchLoop(ghost s: Search, root: Contact, destination: int, plan: seq<Contact>, table: map<int, seq<Contact>>)
    returns (ghost done: set<Contact>, best: real, final: Contact?)
    requires s.root == root && s.destination == destination && s.plan == plan
    requires Exploring(s, Snapshot(Members(root, plan)), {root}, root, MAX_TIME, null)
    requires Agrees(s, {root}, root)
    requires IsTable(plan, table) && root.to in table
    modifies root`visited, plan`arrivalTime, plan`visited, plan`predecessor, plan`visitedNodes
    ensures Finished(s, Snapshot(Members(root, plan)), done, best, final)
  {
    hide Agrees, Exploring, Explored, Finished, Eligible, Snapshot;
    ghost var cs := Members(root, plan);
    done, best, final := {root}, MAX_TIME, null;
    var current: Contact := root;
    while true
      invariant Exploring(s, Snapshot(cs), done, current, best, final) && Agrees(s, done, current)
      invariant current.to in table && current in cs
      decreases cs - done
    {
      best, final := Explore(s, done, current, table, destination, best, final);
      MarkVisited(s, done, current);
      var next := SelectNext(plan, best);
      NextKeeps(s, done, current, best, final, next);
      if next == null {
        break;
      }
      current := next;
      done := done + {current};
    }
  }

  /** The hops of the best journey, or none. */
  method FindHops(ghost s: Search, root: Contact, destination: int, plan: seq<Contact>) returns (hops: seq<Contact>)
    requires s == SearchFrom(root, destination, plan) && Searchable(root, plan)
    modifies root`visited, root`visitedNodes
    modifies plan`arrivalTime, plan`visited, plan`predecessor, plan`visitedNodes
    ensures hops != [] ==> SimpleJourney(s, hops)
    ensures forall w :: Journey(s, w) ==>
      hops != [] && Arrival(s.departure, hops) <= Arrival(s.departure, w)
  {
    var table := AdjacencyTable(plan);
    Prepare(s, root, plan);
    assert root.to in table;
    hide Exploring, Agrees, Finished, Snapshot, Searchable, IsTable, Walk, Journey, SimpleJourney;
    ghost var done;
    var best, final;
    done, best, final := SearchLoop(s, root, destination, plan, table);
    hops := BestHops(s, done, best, root, final);
  }

  /** The route returned is a node-simple journey, and no journey whatsoever arrives earlier; there
      is no route only if there is no journey. */
  method CgrDijkstra(root: Contact, destination: int, plan: seq<Contact>) returns (route: Route?)
    requires Searchable(root, plan)
    modifies root`visited, root`visitedNodes
    modifies plan`arrivalTime, plan`visited, plan`predecessor, plan`visitedNodes
    ensures route != null ==> fresh(route) && route.Current()
    ensures route != null ==> SimpleJourney(old(SearchFrom(root, destination, plan)), route.hops)
    ensures var s := old(SearchFrom(root, destination, plan));
      forall w :: Journey(s, w) ==>
        route != null && Arrival(s.departure, route.hops) <= Arrival(s.departure, w)
  {
    ghost var s := SearchFrom(root, destination, plan);
    var hops := FindHops(s, root, destination, plan);
    route := null;
    if hops != [] {
      JourneyIsChainable(s, hops);
      route := BuildRoute(hops);
    }
  }
}

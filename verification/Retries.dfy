/** When stored packets are tried again, and when they are given up.

    The node tracks up to ten destinations.  A destination is tried at most every 30 seconds; when it has been
    tried ten times without an acknowledgement, the oldest packet stored for it is dropped.  The clock of the
    node counts milliseconds in 32 bits; times here are the milliseconds that really went by. */
module Retries {
  import opened Custody
  import opened Storage

  const MAX_DESTINATIONS: nat := 10
  const FORWARDING_RETRY_DELAY_MS: nat := 30000
  const MAX_FORWARDING_RETRIES: nat := 10
  const U32: nat := 0x1_0000_0000

  datatype Attempt = Attempt(valid: bool, dest: Address, last: nat, retries: nat)

  datatype Verdict = Grant | Wait | Expire

  // --- The table ---------------------------------------------------------------------------------------------

  predicate Tracks(a: Attempt, dest: Address) {
    a.valid && a.dest == dest
  }

  /** The slot of a destination, or the length of the table. */
  function Slot(table: seq<Attempt>, dest: Address): (i: nat)
    ensures i <= |table| && (forall j :: 0 <= j < i ==> !Tracks(table[j], dest))
    ensures i < |table| ==> Tracks(table[i], dest)
  {
    if table == [] || Tracks(table[0], dest) then 0 else 1 + Slot(table[1..], dest)
  }

  /** The first free slot, or the length of the table. */
  function Vacant(table: seq<Attempt>): (i: nat)
    ensures i <= |table| && (forall j :: 0 <= j < i ==> table[j].valid)
    ensures i < |table| ==> !table[i].valid
  {
    if table == [] || !table[0].valid then 0 else 1 + Vacant(table[1..])
  }

  /** The difference of two readings of the clock, in 32 bits. */
  function Elapsed(time: nat, last: nat): nat {
    (time % U32 - last) % U32
  }

  function JudgeSlot(a: Attempt, time: nat): Verdict {
    if Elapsed(time, a.last) < FORWARDING_RETRY_DELAY_MS then Wait
    else if a.retries >= MAX_FORWARDING_RETRIES then Expire
    else Grant
  }

  function Judge(table: seq<Attempt>, dest: Address, time: nat): Verdict {
    var i := Slot(table, dest);
    if i < |table| then JudgeSlot(table[i], time) else Grant
  }

  /** What becomes of the slot of a destination that is looked at. */
  function Judged(a: Attempt, time: nat): Attempt {
    match JudgeSlot(a, time)
    case Wait => a
    case Expire => a.(valid := false)
    case Grant => a.(last := time % U32, retries := a.retries + 1)
  }

  function Tracked(table: seq<Attempt>, dest: Address, time: nat): seq<Attempt> {
    var i, v := Slot(table, dest), Vacant(table);
    if i < |table| then table[i := Judged(table[i], time)]
    else if v < |table| then table[v := Attempt(true, dest, time % U32, 1)]
    else table
  }

  function Untracked(table: seq<Attempt>, dest: Address): seq<Attempt> {
    var i := Slot(table, dest);
    if i < |table| then table[i := table[i].(valid := false)] else table
  }

  // --- Runs ----------------------------------------------------------------------------------------------------

  /** Since a destination is tracked: its oldest packet, and when it was tried. */
  datatype History = History(packet: Entry, grants: seq<nat>)

  datatype State = State(clock: nat, table: seq<Attempt>, entries: seq<Entry>, history: map<Address, History>)

  /** A stored packet is looked at; a packet is stored; entry `k` is deleted, and tracking stopped, because the
      packet for `dest` has been acknowledged. */
  datatype Event = Consider(dest: Address, time: nat) | Store(entry: Entry) | Acknowledge(k: nat, dest: Address)

  predicate Stored(es: seq<Entry>, dest: Address) {
    Oldest(es, dest) < |es|
  }

  /** Any packet can be the one that an acknowledgement deletes. */
  predicate Enabled(s: State, ev: Event) {
    match ev
    case Consider(dest, time) => time >= s.clock && Stored(s.entries, dest)
    case Store(entry) => |s.entries| < MAX_STORED_PACKETS && entry !in s.entries
    case Acknowledge(_, _) => true
  }

  function Apply(s: State, ev: Event): State {
    match ev
    case Consider(dest, time) =>
      var t := s.(clock := time, table := Tracked(s.table, dest, time));
      (match Judge(s.table, dest, time)
       case Wait => t
       case Expire => t.(entries := Without(s.entries, Oldest(s.entries, dest)), history := s.history - {dest})
       case Grant => if Stored(s.entries, dest) then t.(history := s.history[dest := Granted(s, dest, time)]) else t)
    case Store(entry) => s.(entries := s.entries + [entry])
    case Acknowledge(k, dest) =>
      s.(table := Untracked(s.table, dest), entries := Without(s.entries, k), history := s.history - {dest})
  }

  function Granted(s: State, dest: Address, time: nat): History
    requires Stored(s.entries, dest)
  {
    if Slot(s.table, dest) < |s.table| && dest in s.history
    then s.history[dest].(grants := s.history[dest].grants + [time])
    else History(s.entries[Oldest(s.entries, dest)], [time])
  }

  // --- What every run keeps ---------------------------------------------------------------------------------------

  predicate Spaced(grants: seq<nat>) {
    forall i :: 0 < i < |grants| ==> grants[i] >= grants[i - 1] + FORWARDING_RETRY_DELAY_MS
  }

  /** A tracked destination has been tried as often as its slot says, at times far enough apart. */
  ghost predicate Counted(s: State, a: Attempt) {
    a.valid ==>
      && a.dest in s.history
      && var h := s.history[a.dest];
      && 0 < |h.grants| == a.retries <= MAX_FORWARDING_RETRIES
      && Spaced(h.grants)
      && h.grants[|h.grants| - 1] <= s.clock
      && a.last == h.grants[|h.grants| - 1] % U32
  }

  ghost predicate DistinctDestinations(table: seq<Attempt>) {
    forall i, j :: 0 <= i < j < |table| && table[i].valid && table[j].valid ==> table[i].dest != table[j].dest
  }

  ghost predicate DistinctEntries(es: seq<Entry>) {
    forall i, j :: 0 <= i < j < |es| ==> es[i] != es[j]
  }

  /** What every run keeps. */
  ghost predicate Books(s: State) {
    && |s.table| == MAX_DESTINATIONS
    && |s.entries| <= MAX_STORED_PACKETS
    && DistinctEntries(s.entries)
    && DistinctDestinations(s.table)
    && forall i :: 0 <= i < |s.table| ==> Counted(s, s.table[i])
  }

  /** All the time that a destination has been tracked, the same packet has been its oldest. */
  ghost predicate BackedFor(s: State, d: Address) {
    Slot(s.table, d) < |s.table| ==>
      d in s.history && NodeAt(s.entries, Oldest(s.entries, d)) == s.history[d].packet
  }

  /** The event does not delete the oldest packet of `d` while `d` stays tracked. */
  predicate Spares(s: State, ev: Event, d: Address) {
    ev.Acknowledge? && ev.k < |s.entries| && ev.dest != d && Slot(s.table, d) < |s.table| ==>
      ev.k != Oldest(s.entries, d)
  }

  /** Time that passes on a 32-bit clock passes in reality, and is measured exactly for almost 50 days. */
  lemma ElapsedIsReal(time: nat, last: nat)
    requires last <= time
    ensures Elapsed(time, last % U32) <= time - last
    ensures time - last < U32 ==> Elapsed(time, last % U32) == time - last
  {
    var e := Elapsed(time, last % U32);
    assert e == (time - last) % U32;
  }

  // --- The oldest packet for a destination ---------------------------------------------------------------------------

  lemma OldestAppend(es: seq<Entry>, e: Entry, dest: Address)
    requires Stored(es, dest)
    ensures Oldest(es + [e], dest) == Oldest(es, dest)
  {
    var k := Oldest(es, dest);
    assert (es + [e])[k] == es[k];
  }

  /** Deleting any entry but the oldest for a destination leaves that one in place. */
  lemma OldestWithout(es: seq<Entry>, k: nat, dest: Address)
    requires Stored(es, dest) && k != Oldest(es, dest)
    ensures NodeAt(Without(es, k), Oldest(Without(es, k), dest)) == es[Oldest(es, dest)]
  {
    var o, rest := Oldest(es, dest), Without(es, k);
    if k < |es| {
      var o' := if o < k then o else o - 1;
      assert rest[o'] == es[o];
      forall i | 0 <= i < o' ensures rest[i].dest != dest {
        assert rest[i] == if i < k then es[i] else es[i + 1];
      }
      assert Oldest(rest, dest) == o';
    }
  }

  lemma WithoutDistinct(es: seq<Entry>, k: nat)
    requires DistinctEntries(es)
    ensures DistinctEntries(Without(es, k))
    ensures k < |es| ==> es[k] !in Without(es, k)
  {
  }

  // --- Every step keeps the books ------------------------------------------------------------------------------------

  /** Changing one slot keeps the destinations apart, if the new one is not tracked elsewhere. */
  lemma SlotChanged(table: seq<Attempt>, i: nat, a: Attempt)
    requires DistinctDestinations(table) && i < |table|
    requires a.valid ==> forall j :: 0 <= j < |table| && j != i ==> !Tracks(table[j], a.dest)
    ensures DistinctDestinations(table[i := a])
  {
  }

  lemma OthersUntouched(table: seq<Attempt>, dest: Address, j: nat)
    requires DistinctDestinations(table) && j < |table| && j != Slot(table, dest)
    ensures !Tracks(table[j], dest)
  {
  }

  lemma GrantCounted(s: State, dest: Address, time: nat)
    requires Books(s) && Enabled(s, Consider(dest, time)) && Slot(s.table, dest) < |s.table|
    requires Judge(s.table, dest, time) == Grant
    ensures Counted(Apply(s, Consider(dest, time)), Judged(s.table[Slot(s.table, dest)], time))
  {
    var a := s.table[Slot(s.table, dest)];
    assert Counted(s, a);
    var grants := s.history[dest].grants;
    ElapsedIsReal(time, grants[|grants| - 1]);
    hide Elapsed;
  }

  lemma OthersCounted(s: State, dest: Address, time: nat, a: Attempt)
    requires Counted(s, a) && time >= s.clock && !Tracks(a, dest)
    ensures Counted(Apply(s, Consider(dest, time)), a)
  {
    hide Judge, Tracked;
  }

  lemma ConsiderBooks(s: State, dest: Address, time: nat)
    requires Books(s) && Enabled(s, Consider(dest, time))
    ensures Books(Apply(s, Consider(dest, time)))
  {
    var t, i, v := Apply(s, Consider(dest, time)), Slot(s.table, dest), Vacant(s.table);
    var at := if i < |s.table| then i else v;
    WithoutDistinct(s.entries, Oldest(s.entries, dest));
    forall j | 0 <= j < |s.table| && j != at ensures Counted(t, s.table[j]) && !Tracks(s.table[j], dest) {
      OthersUntouched(s.table, dest, j);
      OthersCounted(s, dest, time, s.table[j]);
    }
    if i < |s.table| && Judge(s.table, dest, time) == Grant {
      GrantCounted(s, dest, time);
    }
    if at < |s.table| {
      SlotChanged(s.table, at, t.table[at]);
    }
  }

  lemma AcknowledgeBooks(s: State, k: nat, dest: Address)
    requires Books(s)
    ensures Books(Apply(s, Acknowledge(k, dest)))
  {
    var t, at := Apply(s, Acknowledge(k, dest)), Slot(s.table, dest);
    WithoutDistinct(s.entries, k);
    forall i | 0 <= i < |s.table| && i != at ensures Counted(t, s.table[i]) {
      OthersUntouched(s.table, dest, i);
    }
    if at < |s.table| {
      SlotChanged(s.table, at, t.table[at]);
    }
  }

  lemma StepKeepsBooks(s: State, ev: Event)
    requires Books(s) && Enabled(s, ev)
    ensures Books(Apply(s, ev))
  {
    match ev
    case Consider(dest, time) => ConsiderBooks(s, dest, time);
    case Store(entry) =>
      var t := Apply(s, ev);
      assert forall i :: 0 <= i < |s.table| ==> Counted(s, s.table[i]) && Counted(t, s.table[i]);
    case Acknowledge(k, dest) => AcknowledgeBooks(s, k, dest);
  }

  // --- What an event does to one destination ---------------------------------------------------------------------------

  /** A destination has the same slot, or none, in both tables. */
  predicate SameSlot(a: seq<Attempt>, b: seq<Attempt>, d: Address) {
    var i, j := Slot(a, d), Slot(b, d);
    (i < |a| <==> j < |b|) && (i < |a| && j < |b| ==> a[i] == b[j])
  }

  lemma SameTracks(a: seq<Attempt>, b: seq<Attempt>, d: Address)
    requires |a| == |b| && forall j :: 0 <= j < |a| ==> (Tracks(b[j], d) <==> Tracks(a[j], d)) && (Tracks(a[j], d) ==> a[j] == b[j])
    ensures SameSlot(a, b, d)
  {
    assert Slot(a, d) == Slot(b, d);
  }

  lemma OtherSlot(table: seq<Attempt>, dest: Address, time: nat, d: Address)
    requires d != dest
    ensures SameSlot(table, Tracked(table, dest, time), d) && SameSlot(table, Untracked(table, dest), d)
  {
    hide Elapsed;
    SameTracks(table, Tracked(table, dest, time), d);
    SameTracks(table, Untracked(table, dest), d);
  }

  lemma NoSlotLeft(table: seq<Attempt>, d: Address, a: Attempt)
    requires DistinctDestinations(table) && Slot(table, d) < |table| && !Tracks(a, d)
    ensures Slot(table[Slot(table, d) := a], d) == |table|
  {
    var i := Slot(table, d);
    var after := table[i := a];
    forall j | 0 <= j < |table| ensures !Tracks(after[j], d) {
      if j != i {
        OthersUntouched(table, d, j);
      }
    }
  }

  lemma TableAfter(s: State, dest: Address, time: nat)
    ensures Apply(s, Consider(dest, time)).table == Tracked(s.table, dest, time)
  {
  }

  lemma EntriesAfter(s: State, dest: Address, time: nat)
    ensures Apply(s, Consider(dest, time)).clock == time
    ensures Apply(s, Consider(dest, time)).entries
         == if Judge(s.table, dest, time) == Expire then Without(s.entries, Oldest(s.entries, dest)) else s.entries
  {
  }

  lemma HistoryAfter(s: State, dest: Address, time: nat, d: Address)
    requires d != dest
    ensures var t := Apply(s, Consider(dest, time));
      (d in t.history <==> d in s.history) && (d in s.history ==> t.history[d] == s.history[d])
  {
    hide Judge, Tracked;
  }

  lemma {:induction false} ConsiderOther(s: State, dest: Address, time: nat, d: Address)
    requires Books(s) && BackedFor(s, d) && dest != d
    ensures BackedFor(Apply(s, Consider(dest, time)), d)
  {
    hide Books, Judge, Tracked, Untracked, Apply, Without;
    TableAfter(s, dest, time);
    EntriesAfter(s, dest, time);
    HistoryAfter(s, dest, time, d);
    OtherSlot(s.table, dest, time, d);
    if Slot(s.table, d) < |s.table| {
      OldestWithout(s.entries, Oldest(s.entries, dest), d);
    }
  }

  lemma ConsiderOwn(s: State, d: Address, time: nat)
    requires Books(s) && BackedFor(s, d) && Enabled(s, Consider(d, time))
    ensures BackedFor(Apply(s, Consider(d, time)), d)
  {
    hide Elapsed, Counted;
    if Judge(s.table, d, time) == Expire {
      NoSlotLeft(s.table, d, Judged(s.table[Slot(s.table, d)], time));
    }
  }

  lemma AcknowledgeOther(s: State, k: nat, dest: Address, d: Address)
    requires Books(s) && BackedFor(s, d) && dest != d
    ensures BackedFor(Apply(s, Acknowledge(k, dest)), d) <==> Spares(s, Acknowledge(k, dest), d)
  {
    hide Untracked, Tracked;
    OtherSlot(s.table, dest, 0, d);
    if Slot(s.table, d) < |s.table| {
      if k == Oldest(s.entries, d) {
        WithoutDistinct(s.entries, k);
      } else {
        OldestWithout(s.entries, k, d);
      }
    }
  }

  lemma AcknowledgeOwn(s: State, k: nat, d: Address)
    requires Books(s)
    ensures BackedFor(Apply(s, Acknowledge(k, d)), d)
  {
    var i := Slot(s.table, d);
    if i < |s.table| {
      NoSlotLeft(s.table, d, s.table[i].(valid := false));
    }
  }

  /** An event keeps the oldest packet of a tracked destination exactly if it spares that destination. */
  lemma SparingKeeps(s: State, ev: Event, d: Address)
    requires Books(s) && BackedFor(s, d) && Enabled(s, ev)
    ensures BackedFor(Apply(s, ev), d) <==> Spares(s, ev, d)
  {
    hide Books, Apply;
    match ev
    case Consider(dest, time) =>
      if dest == d {
        ConsiderOwn(s, d, time);
      } else {
        ConsiderOther(s, dest, time, d);
      }
    case Store(entry) => StoreBacked(s, entry, d);
    case Acknowledge(k, dest) =>
      if dest == d {
        AcknowledgeOwn(s, k, d);
      } else {
        AcknowledgeOther(s, k, dest, d);
      }
  }

  lemma StoreBacked(s: State, entry: Entry, d: Address)
    requires BackedFor(s, d)
    ensures BackedFor(Apply(s, Store(entry)), d)
  {
    if Slot(s.table, d) < |s.table| {
      OldestAppend(s.entries, entry, d);
    }
  }

  // --- Over whole runs -----------------------------------------------------------------------------------------------

  ghost predicate IsRun(s: State, events: seq<Event>)
    decreases |events|
  {
    events == [] || (Enabled(s, events[0]) && IsRun(Apply(s, events[0]), events[1..]))
  }

  function Run(s: State, events: seq<Event>): State
    decreases |events|
  {
    if events == [] then s else Run(Apply(s, events[0]), events[1..])
  }

  /** A run all of whose events spare a destination. */
  ghost predicate SparesAll(s: State, events: seq<Event>, d: Address)
    decreases |events|
  {
    events == [] || (Spares(s, events[0], d) && SparesAll(Apply(s, events[0]), events[1..], d))
  }

  lemma {:induction false} RunsKeepBooks(s: State, events: seq<Event>)
    requires Books(s) && IsRun(s, events)
    ensures Books(Run(s, events))
    decreases |events|
  {
    hide Books, Apply, Enabled;
    if events != [] {
      StepKeepsBooks(s, events[0]);
      RunsKeepBooks(Apply(s, events[0]), events[1..]);
    }
  }

  /** Whatever happens to other destinations, a run that spares one keeps its oldest packet while it is tracked. */
  lemma {:induction false} SparingRunsKeep(s: State, events: seq<Event>, d: Address)
    requires Books(s) && BackedFor(s, d) && IsRun(s, events) && SparesAll(s, events, d)
    ensures BackedFor(Run(s, events), d)
    decreases |events|
  {
    hide Books, BackedFor, Spares, Apply, Enabled;
    if events != [] {
      StepKeepsBooks(s, events[0]);
      SparingKeeps(s, events[0], d);
      SparingRunsKeep(Apply(s, events[0]), events[1..], d);
    }
  }

  /** A node starts without tracked destinations, and with the packets that it finds on disk. */
  ghost predicate Starts(s: State) {
    && |s.table| == MAX_DESTINATIONS && (forall i :: 0 <= i < |s.table| ==> !s.table[i].valid)
    && |s.entries| <= MAX_STORED_PACKETS && DistinctEntries(s.entries)
  }

  /** Whatever was acknowledged and deleted before, a packet is dropped only after its destination was tried
      ten times, at least 30 seconds apart; so 300 seconds after the first try. */
  lemma DropIsCounted(s: State, events: seq<Event>, dest: Address, time: nat)
    requires Starts(s) && IsRun(s, events) && Enabled(Run(s, events), Consider(dest, time))
    requires Judge(Run(s, events).table, dest, time) == Expire
    ensures var t := Run(s, events);
      && dest in t.history
      && var grants := t.history[dest].grants;
      && |grants| == MAX_FORWARDING_RETRIES && Spaced(grants)
      && time >= grants[0] + MAX_FORWARDING_RETRIES * FORWARDING_RETRY_DELAY_MS
  {
    RunsKeepBooks(s, events);
    var t := Run(s, events);
    assert Counted(t, t.table[Slot(t.table, dest)]);
    var grants := t.history[dest].grants;
    SpacedSpan(grants, |grants| - 1);
    ElapsedIsReal(time, grants[|grants| - 1]);
  }

  /** In a run that spares the destination, the packet that is dropped was its oldest one at all ten tries. */
  lemma DropIsEarned(s: State, events: seq<Event>, dest: Address, time: nat)
    requires Starts(s) && IsRun(s, events) && SparesAll(s, events, dest) && Enabled(Run(s, events), Consider(dest, time))
    requires Judge(Run(s, events).table, dest, time) == Expire
    ensures var t := Run(s, events);
      && dest in t.history && |t.history[dest].grants| == MAX_FORWARDING_RETRIES
      && t.history[dest].packet == t.entries[Oldest(t.entries, dest)]
      && t.history[dest].packet !in Apply(t, Consider(dest, time)).entries
  {
    RunsKeepBooks(s, events);
    SparingRunsKeep(s, events, dest);
    DropIsCounted(s, events, dest, time);
    var t := Run(s, events);
    WithoutDistinct(t.entries, Oldest(t.entries, dest));
  }

  lemma {:induction false} SpacedSpan(grants: seq<nat>, n: nat)
    requires Spaced(grants) && n < |grants|
    ensures grants[n] >= grants[0] + n * FORWARDING_RETRY_DELAY_MS
  {
    if n > 0 {
      SpacedSpan(grants, n - 1);
    }
  }

  // --- How the table fills up --------------------------------------------------------------------------------------------

  function Destinations(es: seq<Entry>): set<Address> {
    set e | e in es :: e.dest
  }

  function TrackedSet(table: seq<Attempt>): set<Address> {
    set a | a in table && a.valid :: a.dest
  }

  /** Destinations that are tracked although no packet is stored for them. */
  function Stranded(s: State): set<Address> {
    TrackedSet(s.table) - Destinations(s.entries)
  }

  /** The event deletes the only packet of a tracked destination, which stays tracked. */
  predicate Strands(s: State, ev: Event) {
    && ev.Acknowledge? && ev.k < |s.entries| && s.entries[ev.k].dest != ev.dest
    && s.entries[ev.k].dest in TrackedSet(s.table)
    && s.entries[ev.k].dest !in Destinations(Without(s.entries, ev.k))
  }

  /** How often that happens in a run. */
  function Strandings(s: State, events: seq<Event>): nat
    decreases |events|
  {
    if events == [] then 0
    else (if Strands(s, events[0]) then 1 else 0) + Strandings(Apply(s, events[0]), events[1..])
  }

  lemma StoredIffDestination(es: seq<Entry>, d: Address)
    ensures Stored(es, d) <==> d in Destinations(es)
  {
    var k := Oldest(es, d);
    if k < |es| {
      assert es[k] in es;
    } else {
      forall e | e in es ensures e.dest != d {
        var i :| 0 <= i < |es| && es[i] == e;
      }
    }
  }

  lemma TrackedGrows(table: seq<Attempt>, i: nat, a: Attempt)
    requires i < |table|
    ensures TrackedSet(table[i := a]) <= TrackedSet(table) + if a.valid then {a.dest} else {}
  {
  }

  lemma DestinationKept(es: seq<Entry>, k: nat, d: Address)
    requires d in Destinations(es) && (k < |es| ==> es[k].dest != d)
    ensures d in Destinations(Without(es, k))
  {
    var e :| e in es && e.dest == d;
    var i :| 0 <= i < |es| && es[i] == e;
    if k < |es| {
      assert Without(es, k)[if i < k then i else i - 1] == e;
    }
  }

  lemma ExpiryForgets(s: State, d: Address, time: nat)
    requires Books(s) && Judge(s.table, d, time) == Expire
    ensures d !in TrackedSet(Tracked(s.table, d, time))
  {
    var i := Slot(s.table, d);
    var after := Tracked(s.table, d, time);
    NoSlotLeft(s.table, d, Judged(s.table[i], time));
    forall a | a in after ensures !Tracks(a, d) {
      var j :| 0 <= j < |after| && after[j] == a;
    }
  }

  lemma ConsiderStrands(s: State, dest: Address, time: nat)
    requires Books(s) && Enabled(s, Consider(dest, time))
    ensures Stranded(Apply(s, Consider(dest, time))) <= Stranded(s)
  {
    hide Elapsed, Counted;
    var t, i, v := Apply(s, Consider(dest, time)), Slot(s.table, dest), Vacant(s.table);
    StoredIffDestination(s.entries, dest);
    EntriesAfter(s, dest, time);
    TableAfter(s, dest, time);
    if i < |s.table| {
      TrackedGrows(s.table, i, Judged(s.table[i], time));
      assert s.table[i] in s.table;
    } else if v < |s.table| {
      TrackedGrows(s.table, v, Attempt(true, dest, time % U32, 1));
    }
    if Judge(s.table, dest, time) == Expire {
      ExpiryForgets(s, dest, time);
    }
    forall d | d in Stranded(t) ensures d in Stranded(s) {
      if d in Destinations(s.entries) && d != dest {
        DestinationKept(s.entries, Oldest(s.entries, dest), d);
      }
    }
  }

  lemma AcknowledgeStrands(s: State, k: nat, dest: Address)
    requires Books(s)
    ensures var ev := Acknowledge(k, dest);
      Stranded(Apply(s, ev)) <= Stranded(s) + if Strands(s, ev) then {s.entries[k].dest} else {}
  {
    hide Counted;
    var t, i := Apply(s, Acknowledge(k, dest)), Slot(s.table, dest);
    if i < |s.table| {
      TrackedGrows(s.table, i, s.table[i].(valid := false));
      NoSlotLeft(s.table, dest, s.table[i].(valid := false));
    }
    forall a | a in t.table ensures !Tracks(a, dest) {
      var j :| 0 <= j < |t.table| && t.table[j] == a;
    }
    forall d | d in Stranded(t) && d !in Stranded(s) ensures k < |s.entries| && s.entries[k].dest == d && d != dest {
      assert d in Destinations(s.entries);
      if k >= |s.entries| || s.entries[k].dest != d {
        DestinationKept(s.entries, k, d);
      }
    }
  }

  lemma StepStrands(s: State, ev: Event)
    requires Books(s) && Enabled(s, ev)
    ensures |Stranded(Apply(s, ev))| <= |Stranded(s)| + if Strands(s, ev) then 1 else 0
  {
    hide Books, Apply, TrackedSet, Destinations, Stranded;
    match ev
    case Consider(dest, time) =>
      ConsiderStrands(s, dest, time);
      Smaller(Stranded(Apply(s, ev)), Stranded(s));
    case Store(entry) =>
      StoreStrands(s, entry);
      Smaller(Stranded(Apply(s, ev)), Stranded(s));
    case Acknowledge(k, dest) =>
      AcknowledgeStrands(s, k, dest);
      var more := if Strands(s, ev) then {s.entries[k].dest} else {};
      Smaller(Stranded(Apply(s, ev)), Stranded(s) + more);
  }

  lemma StoreStrands(s: State, entry: Entry)
    ensures Stranded(Apply(s, Store(entry))) <= Stranded(s)
  {
    assert forall e :: e in s.entries ==> e in s.entries + [entry];
  }

  lemma {:induction false} Smaller<T>(a: set<T>, b: set<T>)
    requires a <= b
    ensures |a| <= |b|
    decreases |a|
  {
    if a != {} {
      var x :| x in a;
      Smaller(a - {x}, b - {x});
    }
  }

  lemma {:induction false} RunStrands(s: State, events: seq<Event>)
    requires Books(s) && IsRun(s, events)
    ensures |Stranded(Run(s, events))| <= |Stranded(s)| + Strandings(s, events)
    decreases |events|
  {
    hide Books, Apply, Enabled, Strands, Stranded;
    if events != [] {
      StepKeepsBooks(s, events[0]);
      StepStrands(s, events[0]);
      RunStrands(Apply(s, events[0]), events[1..]);
    }
  }

  lemma {:induction false} FewDestinations(es: seq<Entry>)
    ensures |Destinations(es)| <= |es|
  {
    if es != [] {
      FewDestinations(es[1..]);
      assert Destinations(es) == Destinations(es[1..]) + {es[0].dest};
    }
  }

  /** A full table tracks as many destinations as it has slots. */
  lemma {:induction false} FullTable(table: seq<Attempt>)
    requires DistinctDestinations(table) && forall i :: 0 <= i < |table| ==> table[i].valid
    ensures |TrackedSet(table)| == |table|
    decreases |table|
  {
    if table != [] {
      var n := |table| - 1;
      FullTable(table[..n]);
      TrackedSnoc(table, n);
    }
  }

  lemma TrackedSnoc(table: seq<Attempt>, n: nat)
    requires DistinctDestinations(table) && |table| == n + 1
    ensures |TrackedSet(table)| == |TrackedSet(table[..n])| + if table[n].valid then 1 else 0
  {
    var before, a := table[..n], table[n];
    forall b | b in before && b.valid ensures a.valid ==> b.dest != a.dest {
      var i :| 0 <= i < n && before[i] == b;
    }
    TrackedConcat(before, a);
    assert table == before + [a];
  }

  lemma TrackedConcat(table: seq<Attempt>, a: Attempt)
    ensures TrackedSet(table + [a]) == TrackedSet(table) + if a.valid then {a.dest} else {}
  {
    assert a in table + [a];
    assert forall b :: b in table + [a] <==> b in table || b == a;
  }

  /** A destination has a slot, or can get one. */
  predicate Seated(table: seq<Attempt>, d: Address) {
    Slot(table, d) < |table| || Vacant(table) < |table|
  }

  /** A destination for which there is no slot makes eleven, together with those that have all the slots. */
  lemma UnseatedIsEleventh(s: State, ds: set<Address>, d: Address)
    requires Books(s) && !Seated(s.table, d) && d in ds
    ensures |TrackedSet(s.table) + ds| > MAX_DESTINATIONS
  {
    FullTable(s.table);
    forall a | a in s.table ensures !Tracks(a, d) {
      var i :| 0 <= i < |s.table| && s.table[i] == a;
    }
    var tracked := TrackedSet(s.table);
    assert d !in tracked;
    Smaller(tracked + {d}, tracked + ds);
  }

  /** Tracked and stored destinations together are the stranded and the stored ones. */
  lemma StoredAndStranded(s: State)
    requires Books(s)
    ensures |TrackedSet(s.table) + Destinations(s.entries)| <= |Stranded(s)| + MAX_STORED_PACKETS
  {
    FewDestinations(s.entries);
    assert TrackedSet(s.table) + Destinations(s.entries) == Stranded(s) + Destinations(s.entries);
  }

  /** In every run, six tracked destinations have lost their only packet to the acknowledgements of others before
      a packet is tried without being tracked. */
  lemma UntrackedTriesAreLate(s: State, events: seq<Event>, dest: Address)
    requires Starts(s) && IsRun(s, events)
    requires Stored(Run(s, events).entries, dest) && !Seated(Run(s, events).table, dest)
    ensures Strandings(s, events) >= 6
  {
    hide Books, Run, IsRun, Stranded, Strandings, Starts, Seated, Stored;
    var t := Run(s, events);
    StartsUnstranded(s);
    RunsKeepBooks(s, events);
    RunStrands(s, events);
    StoredAndStranded(t);
    StoredIffDestination(t.entries, dest);
    UnseatedIsEleventh(t, Destinations(t.entries), dest);
  }

  lemma StartsUnstranded(s: State)
    requires Starts(s)
    ensures Stranded(s) == {} && Books(s)
  {
    forall a | a in s.table ensures !a.valid {
      var i :| 0 <= i < |s.table| && s.table[i] == a;
    }
  }

  /** Whoever is allowed to try has to wait for the next 30 seconds, unless the table is full. */
  lemma GrantIsTracked(table: seq<Attempt>, dest: Address, time: nat, later: nat)
    requires Judge(table, dest, time) == Grant
    requires time <= later < time + FORWARDING_RETRY_DELAY_MS
    ensures Judge(Tracked(table, dest, time), dest, later) == Wait
       <==> Seated(table, dest)
  {
    ElapsedIsReal(later, time);
    hide Elapsed;
    var i, v, after := Slot(table, dest), Vacant(table), Tracked(table, dest, time);
    var at := if i < |table| then i else v;
    if at < |table| {
      assert Tracks(after[at], dest) && after[at].last == time % U32;
      assert forall j :: 0 <= j < at ==> !Tracks(after[j], dest);
      assert Slot(after, dest) == at;
    }
  }

  /** A destination has to wait exactly until 30 seconds have passed since it was last tried, if that was less than 2^32
      milliseconds ago; then it is tried again, or loses its oldest packet after ten tries. */
  lemma TriedAgainWhenDue(a: Attempt, time: nat, last: nat)
    requires a.last == last % U32 && last <= time < last + U32
    ensures JudgeSlot(a, time) == if time < last + 30000 then Wait else if a.retries < 10 then Grant else Expire
  {
    ElapsedIsReal(time, last);
  }
}

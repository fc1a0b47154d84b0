/** What a deletion that goes by the source alone can do to the packets of other destinations. */
module Misdirected {
  import opened OnesSum
  import opened Custody
  import opened Storage
  import opened Retries
  import opened Sweeps

  /** A packet that was forwarded with a custodian option is quoted without any payload: 240 bytes would be
      compared, so stored packets of less than 280 bytes are judged by source and protocol alone. */
  lemma ShortPacketsGoBySource(e: Entry, quote: seq<byte>)
    requires |quote| >= IP6_HLEN + 8 && quote[6] == HOPOPTS && quote[41] == 2
    requires IP6_HLEN <= |e.packet| < 280
    ensures Quoted(e, quote) <==> e.packet[8..24] == quote[8..24] && e.packet[6] == quote[40]
  {
    assert Skipped(quote) == 24 && Compared(quote) == 240;
  }

  /** A packet that was forwarded without an option is recognised by its source, its protocol and eight bytes of its
      payload, as far as a stored packet has them. */
  lemma PlainQuoteComparesEight(e: Entry, quote: seq<byte>)
    requires |quote| >= IP6_HLEN + 8 && quote[6] != HOPOPTS && |e.packet| >= IP6_HLEN
    ensures Comparable(e, quote) <==> (e.packet[8..24] == quote[8..24] ==> e.packet[6] != HOPOPTS)
    ensures Quoted(e, quote) <==>
      && e.packet[8..24] == quote[8..24] && e.packet[6] == quote[6]
      && (|e.packet| >= 48 ==> e.packet[40..48] == quote[40..48])
  {
    assert Skipped(quote) == 0 && Compared(quote) == 8;
  }

  /** With a hop-by-hop header of eight bytes no payload is quoted, and both addresses are compared. */
  lemma ShortHeaderGoesByAddresses(e: Entry, quote: seq<byte>)
    requires |quote| >= IP6_HLEN + 8 && quote[6] == HOPOPTS && quote[41] == 0 && |e.packet| >= IP6_HLEN
    ensures Comparable(e, quote)
    ensures Quoted(e, quote) <==> e.packet[8..24] == quote[8..24] && e.packet[24..40] == quote[24..40]
  {
    assert Skipped(quote) == 8 && Compared(quote) == 0;
  }

  /** For longer packets the comparison leaves the quote, which this code makes 48 bytes long. */
  lemma LongPacketsLeaveQuote(e: Entry, quote: seq<byte>)
    requires |quote| == IP6_HLEN + 8 && quote[6] == HOPOPTS && quote[41] == 2
    requires SameSource(e, quote) && e.packet[6] != HOPOPTS
    ensures Comparable(e, quote) <==> |e.packet| < 280
  {
    assert Skipped(quote) == 24 && Compared(quote) == 240;
  }

  /** If a deletion does not spare a destination, a packet can be dropped that was never tried: a new one for the
      destination, which is still tracked with the count of the deleted packet. */
  lemma UntriedPacketDropped(s: State, k: nat, dest: Address, e: Entry, time: nat)
    requires !Spares(s, Acknowledge(k, dest), e.dest)
    requires forall i :: 0 <= i < |s.entries| && i != k ==> s.entries[i].dest != e.dest
    requires Judge(s.table, e.dest, time) == Expire
    ensures var t := Apply(Apply(s, Acknowledge(k, dest)), Store(e));
      Judge(t.table, e.dest, time) == Expire && Apply(t, Consider(e.dest, time)).entries == Without(s.entries, k)
  {
    var t := Apply(Apply(s, Acknowledge(k, dest)), Store(e));
    var i, n := Slot(s.table, e.dest), |s.entries| - 1;
    assert t.table[i] == s.table[i];
    assert forall j :: 0 <= j < i ==> !Tracks(t.table[j], e.dest);
    assert Slot(t.table, e.dest) == i;
    var rest := Without(s.entries, k);
    assert forall j :: 0 <= j < n ==> rest[j] == s.entries[if j < k then j else j + 1];
    assert t.entries == rest + [e] && t.entries[n] == e;
    assert Oldest(t.entries, e.dest) == n;
    assert t.entries[..n] == rest && t.entries[n + 1..] == [];
  }

  // --- A run that gets there ---------------------------------------------------------------------------------------

  function Node(n: byte): Address {
    [0xfd, 0, 0, n, 0, 0, 0, 0, 0, 0, 0, 0, 0, 0, 0, 1]
  }

  /** An IPv6 header with a next header, from node 1 to another node, and what follows it. */
  function PacketTo(n: byte, next: byte, rest: seq<byte>): (p: seq<byte>)
    requires |rest| < 256
    ensures |p| == IP6_HLEN + |rest| && p[6] == next && p[8..24] == Node(1) && p[24..40] == Node(n) && p[40..] == rest
  {
    var p := [0x60, 0, 0, 0, 0, |rest|, next, 64] + Node(1) + Node(n) + rest;
    assert p[8..24] == Node(1) && p[24..40] == Node(n) && p[40..] == rest;
    p
  }

  /** Packets from node 1 to node 2, and the acknowledgement of one from node 1 to node 3 that was forwarded. */
  const STORED: seq<byte> := PacketTo(2, NONE, [])
  const QUOTE: seq<byte> := PacketTo(3, HOPOPTS, [NONE, 2, CUSTODY_OPTION_TYPE, 16, 0xfd, 0, 0, 9])

  function Blank(n: nat): (table: seq<Attempt>)
    ensures |table| == n && forall i :: 0 <= i < n ==> !table[i].valid
  {
    seq(n, _ => Attempt(false, Node(0), 0, 0))
  }

  /** A node that found packet `a` on its disk, before and after trying it `m` times. */
  function Start(a: Entry): State {
    State(0, Blank(10), [a], map[])
  }

  function TriedTimes(a: Entry, m: nat): State
    requires 1 <= m <= 10
  {
    State(30000 * (m - 1), [Attempt(true, a.dest, 30000 * (m - 1), m)] + Blank(9), [a],
          map[a.dest := History(a, seq(m, i => 30000 * i))])
  }

  function Tries(a: Entry, m: nat): seq<Event> {
    seq(m, i requires 0 <= i < m => Consider(a.dest, 30000 * i))
  }

  lemma FirstTry(a: Entry)
    ensures Enabled(Start(a), Consider(a.dest, 0)) && Apply(Start(a), Consider(a.dest, 0)) == TriedTimes(a, 1)
  {
    var s := Start(a);
    assert Slot(s.table, a.dest) == 10 && Vacant(s.table) == 0 && Oldest(s.entries, a.dest) == 0;
    assert s.table[0 := Attempt(true, a.dest, 0, 1)] == TriedTimes(a, 1).table;
    assert seq(1, i => 30000 * i) == [0];
  }

  lemma NextTry(a: Entry, m: nat)
    requires 1 <= m < 10
    ensures var s := TriedTimes(a, m);
      Enabled(s, Consider(a.dest, 30000 * m)) && Apply(s, Consider(a.dest, 30000 * m)) == TriedTimes(a, m + 1)
  {
    var s := TriedTimes(a, m);
    assert Slot(s.table, a.dest) == 0 && Oldest(s.entries, a.dest) == 0;
    assert Elapsed(30000 * m, 30000 * (m - 1)) == 30000;
    assert seq(m + 1, i => 30000 * i) == seq(m, i => 30000 * i) + [30000 * m];
  }

  lemma {:induction false} RunSnoc(s: State, events: seq<Event>, ev: Event)
    requires IsRun(s, events) && Enabled(Run(s, events), ev)
    ensures IsRun(s, events + [ev]) && Run(s, events + [ev]) == Apply(Run(s, events), ev)
    decreases |events|
  {
    hide Apply, Enabled;
    if events == [] {
      assert ([ev])[1..] == [];
    } else {
      RunSnoc(Apply(s, events[0]), events[1..], ev);
      assert (events + [ev])[1..] == events[1..] + [ev];
    }
  }

  lemma {:induction false} TenTries(a: Entry, m: nat)
    requires 1 <= m <= 10
    ensures IsRun(Start(a), Tries(a, m)) && Run(Start(a), Tries(a, m)) == TriedTimes(a, m)
  {
    hide Apply, Enabled;
    var n := m - 1;
    assert Tries(a, m) == Tries(a, n) + [Consider(a.dest, 30000 * n)];
    if n == 0 {
      FirstTry(a);
    } else {
      TenTries(a, n);
      NextTry(a, n);
    }
    RunSnoc(Start(a), Tries(a, n), Consider(a.dest, 30000 * n));
  }

  /** The acknowledgement deletes a packet for node 2 because its source and protocol are those of the one that
      was acknowledged.  Node 2 stays tracked. */
  lemma PacketOfOtherDeleted(a: Entry)
    requires a.packet == STORED && a.dest == Node(2)
    ensures Comparable(a, QUOTE) && Quoted(a, QUOTE) && QUOTE[24..40] == Node(3)
    ensures var s := TriedTimes(a, 10);
      && !Spares(s, Acknowledge(0, Node(3)), Node(2)) && Strands(s, Acknowledge(0, Node(3)))
      && Judge(s.table, Node(2), 300000) == Expire
      && Apply(s, Acknowledge(0, Node(3))) == s.(entries := [])
  {
    ShortPacketsGoBySource(a, QUOTE);
    assert QUOTE[40..][1] == 2 && QUOTE[40..][0] == NONE;
    assert Node(2)[3] != Node(3)[3];
    var s := TriedTimes(a, 10);
    assert Slot(s.table, Node(2)) == 0 && Slot(s.table, Node(3)) == 10 && Oldest(s.entries, Node(2)) == 0;
    assert Elapsed(300000, 270000) == 30000;
    assert s.table[0] in s.table && Without(s.entries, 0) == [];
  }

  /** A whole run: ten tries of packet `a`, an acknowledgement from node 3, and a new packet `c` for node 2.  When
      `c` is looked at for the first time, it is dropped. */
  lemma DroppedAtFirstSight(a: Entry, c: Entry)
    requires a.packet == STORED && c.packet == STORED && a.dest == c.dest == Node(2)
    ensures Starts(Start(a))
    ensures var events := Tries(a, 10) + [Acknowledge(0, Node(3))] + [Store(c)];
      var t := Run(Start(a), events);
      && IsRun(Start(a), events) && t.entries == [c]
      && Enabled(t, Consider(Node(2), 300000)) && Apply(t, Consider(Node(2), 300000)).entries == []
  {
    TenTries(a, 10);
    PacketOfOtherDeleted(a);
    var s, events := TriedTimes(a, 10), Tries(a, 10) + [Acknowledge(0, Node(3))];
    RunSnoc(Start(a), Tries(a, 10), Acknowledge(0, Node(3)));
    RunSnoc(Start(a), events, Store(c));
    UntriedPacketDropped(s, 0, Node(3), c, 300000);
    var t := Run(Start(a), events + [Store(c)]);
    assert t.entries == [] + [c] == [c] && Oldest([c], Node(2)) == 0;
  }

  // --- A run that fills the table ------------------------------------------------------------------------------------

  /** Ten packets from node 1, for nodes 10 to 19. */
  ghost predicate TenPackets(es: seq<Entry>) {
    |es| == 10 && forall i :: 0 <= i < 10 ==> es[i].packet == PacketTo(10 + i, NONE, []) && es[i].dest == Node(10 + i)
  }

  function Marks(es: seq<Entry>, m: nat): (table: seq<Attempt>)
    requires m <= 10 == |es|
    ensures |table| == 10
    ensures forall i :: 0 <= i < 10 ==> table[i] == if i < m then Attempt(true, es[i].dest, 0, 1) else Attempt(false, Node(0), 0, 0)
  {
    seq(10, i requires 0 <= i < 10 => if i < m then Attempt(true, es[i].dest, 0, 1) else Attempt(false, Node(0), 0, 0))
  }

  lemma NodesDiffer(m: byte, n: byte)
    requires m != n
    ensures Node(m) != Node(n)
  {
    assert Node(m)[3] != Node(n)[3];
  }

  lemma NotMarked(es: seq<Entry>, m: nat, n: byte)
    requires TenPackets(es) && m <= 10 && (n < 10 || 10 + m <= n)
    ensures Slot(Marks(es, m), Node(n)) == 10
  {
    var i := Slot(Marks(es, m), Node(n));
    if i < m {
      NodesDiffer(10 + i, n);
    }
  }

  /** A packet is stored, tried, and deleted by an acknowledgement from node 3. */
  lemma Round(es: seq<Entry>, m: nat, s: State)
    requires TenPackets(es) && m < 10 && s.table == Marks(es, m) && s.entries == [] && s.clock == 0
    ensures Comparable(es[m], QUOTE) && Quoted(es[m], QUOTE)
    ensures var s1 := Apply(s, Store(es[m]));
      var s2 := Apply(s1, Consider(es[m].dest, 0));
      var t := Apply(s2, Acknowledge(0, Node(3)));
      && Enabled(s, Store(es[m])) && Enabled(s1, Consider(es[m].dest, 0))
      && t.table == Marks(es, m + 1) && t.entries == [] && t.clock == 0
  {
    ShortPacketsGoBySource(es[m], QUOTE);
    assert QUOTE[40..][1] == 2 && QUOTE[40..][0] == NONE;
    NotMarked(es, m, 10 + m);
    NotMarked(es, m + 1, 3);
    assert Vacant(s.table) == m;
    assert Oldest([es[m]], es[m].dest) == 0;
    assert s.table[m := Attempt(true, es[m].dest, 0, 1)] == Marks(es, m + 1);
  }

  lemma {:induction false} Rounds(es: seq<Entry>, s: State, m: nat) returns (events: seq<Event>)
    requires TenPackets(es) && m <= 10 && s == State(0, Marks(es, 0), [], map[])
    ensures IsRun(s, events)
    ensures var t := Run(s, events); t.table == Marks(es, m) && t.entries == [] && t.clock == 0
  {
    events := [];
    if m > 0 {
      events := Rounds(es, s, m - 1);
      Round(es, m - 1, Run(s, events));
      hide Apply, Enabled;
      var e := es[m - 1];
      RunSnoc(s, events, Store(e));
      events := events + [Store(e)];
      RunSnoc(s, events, Consider(e.dest, 0));
      events := events + [Consider(e.dest, 0)];
      RunSnoc(s, events, Acknowledge(0, Node(3))) by { assert Enabled(Run(s, events), Acknowledge(0, Node(3))); }
      events := events + [Acknowledge(0, Node(3))];
    }
  }

  /** Ten such deletions fill the table.  Then a packet for one more node is tried whenever it is looked at. */
  lemma TriedWithoutDelay(es: seq<Entry>, e: Entry) returns (events: seq<Event>)
    requires TenPackets(es) && e.dest == Node(2)
    ensures var s := State(0, Marks(es, 0), [], map[]);
      var t := Run(s, events);
      && Starts(s) && IsRun(s, events) && Vacant(t.table) == |t.table| && t.entries == [e]
      && Judge(t.table, e.dest, 0) == Grant
      && Judge(Apply(t, Consider(e.dest, 0)).table, e.dest, 0) == Grant
  {
    var s := State(0, Marks(es, 0), [], map[]);
    events := Rounds(es, s, 10);
    RunSnoc(s, events, Store(e));
    events := events + [Store(e)];
    var t := Run(s, events);
    NotMarked(es, 10, 2);
    assert t.table == Marks(es, 10) && Vacant(t.table) == 10;
  }

  /** And two packets for it are both tried in one sweep, within a millisecond. */
  lemma TriedTwiceInOneSweep(es: seq<Entry>, a: Entry, b: Entry) returns (events: seq<Event>)
    requires TenPackets(es) && a != b && a.dest == b.dest == Node(2)
    ensures var s := State(0, Marks(es, 0), [], map[]);
      var t := Run(s, events);
      && Starts(s) && IsRun(s, events) && t.entries == [a, b] && Readings(t, [0, 0]) && Short([0, 0], 1)
      && Forwarded(t, t.entries, [0, 0], 2) == [a, b]
  {
    var s := State(0, Marks(es, 0), [], map[]);
    events := Rounds(es, s, 10);
    var t0 := Run(s, events);
    RunSnoc(s, events, Store(a));
    events := events + [Store(a)];
    RunSnoc(s, events, Store(b));
    events := events + [Store(b)];
    var t := Run(s, events);
    assert t == t0.(entries := [a, b]);
    FullTableTriesBoth(es, t, a, b);
  }

  lemma FullTableTriesBoth(es: seq<Entry>, t: State, a: Entry, b: Entry)
    requires TenPackets(es) && t.table == Marks(es, 10) && t.entries == [a, b] && a.dest == b.dest == Node(2)
    ensures Forwarded(t, t.entries, [0, 0], 2) == [a, b]
  {
    NotMarked(es, 10, 2);
    assert !Seated(t.table, Node(2));
    NotTrackedAfter(t, Node(2), 0);
    UntrackedIsGranted(t.table, Node(2), 0);
    SweptNext(t, t.entries, [0, 0], 0);
    SweptNext(t, t.entries, [0, 0], 1);
  }
}

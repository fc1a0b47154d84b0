/** Sweeps: looking at all stored packets one after the other, while some of them are deleted. */
module Sweeps {
  import opened Custody
  import opened Storage
  import opened Retries

  /** After looking at the first `n` packets of `es`. */
  function Swept(s: State, es: seq<Entry>, times: seq<nat>, n: nat): State
    requires n <= |es| == |times|
  {
    if n == 0 then s else Apply(Swept(s, es, times, n - 1), Consider(es[n - 1].dest, times[n - 1]))
  }

  /** The packets among them that may be forwarded. */
  function Forwarded(s: State, es: seq<Entry>, times: seq<nat>, n: nat): seq<Entry>
    requires n <= |es| == |times|
  {
    if n == 0 then []
    else
      var t, e := Swept(s, es, times, n - 1), es[n - 1];
      Forwarded(s, es, times, n - 1) + if Judge(t.table, e.dest, times[n - 1]) == Grant then [e] else []
  }

  lemma SweptNext(s: State, es: seq<Entry>, times: seq<nat>, n: nat)
    requires n <= |es| == |times|
    ensures Swept(s, es, times, 0) == s && Forwarded(s, es, times, 0) == []
    ensures n < |es| ==>
      var t := Swept(s, es, times, n);
      && Swept(s, es, times, n + 1) == Apply(t, Consider(es[n].dest, times[n]))
      && Forwarded(s, es, times, n + 1)
         == Forwarded(s, es, times, n) + if Judge(t.table, es[n].dest, times[n]) == Grant then [es[n]] else []
  {
  }

  /** Readings of the clock during a sweep. */
  ghost predicate Readings(s: State, times: seq<nat>) {
    && |times| == |s.entries|
    && (forall i :: 0 <= i < |times| ==> s.clock <= times[i])
    && (forall i, j :: 0 <= i < j < |times| ==> times[i] <= times[j])
  }

  // --- The packets yet to be looked at -----------------------------------------------------------------------------

  /** What is left of the first `n` packets of `es`. */
  function Done(s: State, es: seq<Entry>, n: nat): seq<Entry>
    requires n <= |es|
  {
    if |es| - n <= |s.entries| then s.entries[..|s.entries| - (|es| - n)] else []
  }

  /** All others are still there, at the end of the list. */
  ghost predicate Pending(s: State, es: seq<Entry>, n: nat) {
    n <= |es| && s.entries == Done(s, es, n) + es[n..]
  }

  lemma PendingIs(s: State, done: seq<Entry>, es: seq<Entry>, n: nat)
    requires n <= |es| && s.entries == done + es[n..]
    ensures Pending(s, es, n) && Done(s, es, n) == done
  {
  }

  lemma PendingNext(s: State, es: seq<Entry>, n: nat)
    requires Pending(s, es, n) && n < |es|
    ensures var k := |Done(s, es, n)|; k < |s.entries| && s.entries[k] == es[n] && Oldest(s.entries, es[n].dest) <= k
    ensures s.entries == (Done(s, es, n) + [es[n]]) + es[n + 1..]
  {
    assert es[n..] == [es[n]] + es[n + 1..];
    var k := |Done(s, es, n)|;
    assert s.entries[k] == es[n];
  }

  lemma WithoutConcat(a: seq<Entry>, b: seq<Entry>, k: nat)
    requires k < |a|
    ensures Without(a + b, k) == Without(a, k) + b
  {
  }

  /** Looking at a packet deletes nothing that comes after it. */
  lemma PendingKept(s: State, es: seq<Entry>, n: nat, time: nat)
    requires Pending(s, es, n) && n < |es|
    ensures Stored(s.entries, es[n].dest)
    ensures var t, done, verdict := Apply(s, Consider(es[n].dest, time)), Done(s, es, n), Judge(s.table, es[n].dest, time);
      && Pending(t, es, n + 1)
      && Done(t, es, n + 1) == if verdict == Expire then Without(done + [es[n]], Oldest(s.entries, es[n].dest)) else done + [es[n]]
  {
    PendingNext(s, es, n);
    var done, k := Done(s, es, n) + [es[n]], Oldest(s.entries, es[n].dest);
    EntriesAfter(s, es[n].dest, time);
    WithoutConcat(done, es[n + 1..], k);
    hide Apply, Judge, Without, Oldest, Pending, Done;
    var left := if Judge(s.table, es[n].dest, time) == Expire then Without(done, k) else done;
    PendingIs(Apply(s, Consider(es[n].dest, time)), left, es, n + 1);
  }

  /** A sweep keeps the books, and until its end the packets that it has yet to look at. */
  lemma {:induction false} SweepKeeps(s: State, times: seq<nat>, n: nat)
    requires Books(s) && Readings(s, times) && n <= |times|
    ensures var t := Swept(s, s.entries, times, n);
      Books(t) && Pending(t, s.entries, n) && t.clock == (if n == 0 then s.clock else times[n - 1])
  {
    hide Books, Apply, Pending;
    if n == 0 {
      StartsPending(s);
    } else {
      SweepKeeps(s, times, n - 1);
      var t, dest := Swept(s, s.entries, times, n - 1), s.entries[n - 1].dest;
      PendingKept(t, s.entries, n - 1, times[n - 1]);
      EntriesAfter(t, dest, times[n - 1]);
      ConsiderBooks(t, dest, times[n - 1]);
    }
  }

  lemma StartsPending(s: State)
    ensures Pending(s, s.entries, 0) && Done(s, s.entries, 0) == []
  {
    assert s.entries[0..] == s.entries;
  }

  // --- What looking at a packet does to a destination -----------------------------------------------------------------

  ghost predicate NoneFor(es: seq<Entry>, d: Address) {
    forall e :: e in es ==> e.dest != d
  }

  /** Other destinations keep their slots, and have packets among those looked at if they had any. */
  lemma LookAtOther(s: State, es: seq<Entry>, n: nat, time: nat, d: Address)
    requires Pending(s, es, n) && n < |es| && es[n].dest != d
    ensures var t := Apply(s, Consider(es[n].dest, time));
      SameSlot(s.table, t.table, d) && (NoneFor(Done(s, es, n), d) <==> NoneFor(Done(t, es, n + 1), d))
  {
    hide Judge, Tracked, Untracked, Apply, Pending;
    var done, k := Done(s, es, n) + [es[n]], Oldest(s.entries, es[n].dest);
    TableAfter(s, es[n].dest, time);
    OtherSlot(s.table, es[n].dest, time, d);
    PendingKept(s, es, n, time);
    OldestLookedAt(s, es, n);
    WithoutOther(done, k, d);
    NoneSnoc(Done(s, es, n), es[n], d);
  }

  lemma OldestLookedAt(s: State, es: seq<Entry>, n: nat)
    requires Pending(s, es, n) && n < |es|
    ensures var k, done := Oldest(s.entries, es[n].dest), Done(s, es, n);
      && k <= |done| && (done + [es[n]])[k].dest == es[n].dest
      && (k == |done| <==> NoneFor(done, es[n].dest))
  {
    PendingNext(s, es, n);
    var k, done := Oldest(s.entries, es[n].dest), Done(s, es, n);
    assert (done + [es[n]])[k] == s.entries[k];
    if k == |done| {
      forall e | e in done ensures e.dest != es[n].dest {
        var i :| 0 <= i < |done| && done[i] == e;
        assert s.entries[i] == e;
      }
    } else {
      assert done[k] in done;
    }
  }

  lemma NoneSnoc(es: seq<Entry>, e: Entry, d: Address)
    ensures NoneFor(es + [e], d) <==> NoneFor(es, d) && e.dest != d
  {
    assert e in es + [e];
    assert forall x :: x in es ==> x in es + [e];
  }

  lemma WithoutOther(es: seq<Entry>, k: nat, d: Address)
    requires k < |es| && es[k].dest != d
    ensures NoneFor(Without(es, k), d) <==> NoneFor(es, d)
  {
    var rest := Without(es, k);
    forall e | e in es && e.dest == d ensures e in rest {
      var i :| 0 <= i < |es| && es[i] == e;
      assert rest[if i < k then i else i - 1] == e;
    }
  }

  /** What happens to the destination of the packet itself. */
  lemma LookAtOwn(s: State, es: seq<Entry>, n: nat, time: nat)
    requires Books(s) && Pending(s, es, n) && n < |es|
    ensures var t, d := Apply(s, Consider(es[n].dest, time)), es[n].dest;
      if Judge(s.table, d, time) == Expire
      then Slot(t.table, d) == |t.table| && (NoneFor(Done(t, es, n + 1), d) <==> NoneFor(Done(s, es, n), d))
      else !NoneFor(Done(t, es, n + 1), d)
  {
    hide Apply, Pending, Elapsed, Counted;
    var d, done := es[n].dest, Done(s, es, n);
    TableAfter(s, d, time);
    PendingKept(s, es, n, time);
    OldestLookedAt(s, es, n);
    NoneSnoc(done, es[n], d);
    if Judge(s.table, d, time) == Expire {
      NoSlotLeft(s.table, d, Judged(s.table[Slot(s.table, d)], time));
      WithoutOwn(done, es[n], Oldest(s.entries, d));
    }
  }

  lemma WithoutOwn(done: seq<Entry>, e: Entry, k: nat)
    requires k <= |done| && (k == |done| <==> NoneFor(done, e.dest))
    ensures NoneFor(Without(done + [e], k), e.dest) <==> NoneFor(done, e.dest)
  {
    if k == |done| {
      assert Without(done + [e], k) == done;
    } else {
      var rest := Without(done + [e], k);
      assert rest[|done| - 1] == e && e in rest;
    }
  }

  lemma SameJudgement(a: seq<Attempt>, b: seq<Attempt>, d: Address, time: nat)
    requires SameSlot(a, b, d)
    ensures Judge(a, d, time) == Judge(b, d, time)
  {
  }

  // --- Is it the oldest packet? --------------------------------------------------------------------------------------------

  /** Until the first packet for a destination is looked at, its slot stays as it was. */
  lemma {:induction false} UpToFirst(s: State, times: seq<nat>, d: Address, n: nat)
    requires Books(s) && Readings(s, times) && n <= Oldest(s.entries, d)
    ensures var t := Swept(s, s.entries, times, n);
      SameSlot(s.table, t.table, d) && NoneFor(Done(t, s.entries, n), d)
  {
    hide Books, Apply, Pending, Done;
    if n == 0 {
      StartsPending(s);
    } else {
      UpToFirst(s, times, d, n - 1);
      SweepKeeps(s, times, n - 1);
      LookAtOther(Swept(s, s.entries, times, n - 1), s.entries, n - 1, times[n - 1], d);
    }
  }

  /** Once a packet for a destination has been looked at and is still stored, there always is one. */
  lemma {:induction false} SomeStay(s: State, times: seq<nat>, d: Address, m: nat, n: nat)
    requires Books(s) && Readings(s, times) && m <= n <= |times|
    requires !NoneFor(Done(Swept(s, s.entries, times, m), s.entries, m), d)
    ensures !NoneFor(Done(Swept(s, s.entries, times, n), s.entries, n), d)
    decreases n
  {
    hide Books, Apply, Pending, Done, NoneFor, Judge;
    if m < n {
      var t := Swept(s, s.entries, times, n - 1);
      SomeStay(s, times, d, m, n - 1);
      SweepKeeps(s, times, n - 1);
      if s.entries[n - 1].dest == d {
        LookAtOwn(t, s.entries, n - 1, times[n - 1]);
      } else {
        LookAtOther(t, s.entries, n - 1, times[n - 1], d);
      }
    }
  }

  /** No packet for `d` lies between positions `m` and `n` of the list. */
  ghost predicate NoneBetween(es: seq<Entry>, m: nat, n: nat, d: Address) {
    forall i :: m <= i < n && i < |es| ==> es[i].dest != d
  }

  /** Without packets for a destination, nothing changes for it. */
  lemma {:induction false} Between(s: State, times: seq<nat>, d: Address, m: nat, n: nat)
    requires Books(s) && Readings(s, times) && m <= n <= |times| && NoneBetween(s.entries, m, n, d)
    ensures var a, b := Swept(s, s.entries, times, m), Swept(s, s.entries, times, n);
      && SameSlot(a.table, b.table, d)
      && (NoneFor(Done(a, s.entries, m), d) <==> NoneFor(Done(b, s.entries, n), d))
    decreases n
  {
    hide Books, Apply, Pending, Done, NoneFor;
    if m < n {
      Between(s, times, d, m, n - 1);
      SweepKeeps(s, times, n - 1);
      LookAtOther(Swept(s, s.entries, times, n - 1), s.entries, n - 1, times[n - 1], d);
    }
  }

  lemma OldestIffNone(s: State, es: seq<Entry>, n: nat)
    requires Books(s) && Pending(s, es, n) && n < |es|
    ensures NodeAt(s.entries, Oldest(s.entries, es[n].dest)) == es[n] <==> NoneFor(Done(s, es, n), es[n].dest)
  {
    OldestLookedAt(s, es, n);
    PendingNext(s, es, n);
  }

  /** In every sweep, a packet that is looked at is then the oldest for its destination exactly if it was the
      oldest at the start, or came next and the oldest was dropped. */
  lemma SweepTakesOldest(s: State, times: seq<nat>, n: nat)
    requires Books(s) && Readings(s, times) && n < |times|
    ensures var t, d := Swept(s, s.entries, times, n), s.entries[n].dest;
      var first := Oldest(s.entries, d);
      && first <= n
      && (NodeAt(t.entries, Oldest(t.entries, d)) == s.entries[n] <==>
            n == first || (Judge(s.table, d, times[first]) == Expire && NoneBetween(s.entries, first + 1, n, d)))
  {
    hide Books, Apply, Pending, Done, NoneFor, Judge, NodeAt, SameSlot, NoneBetween;
    var t, d := Swept(s, s.entries, times, n), s.entries[n].dest;
    var first := Oldest(s.entries, d);
    SweepKeeps(s, times, n);
    OldestIffNone(t, s.entries, n);
    UpToFirst(s, times, d, first);
    if first < n {
      AfterFirst(s, times, d, n);
    }
  }

  /** After the first packet for a destination has been looked at. */
  lemma AfterFirst(s: State, times: seq<nat>, d: Address, n: nat)
    requires Books(s) && Readings(s, times) && Oldest(s.entries, d) < n <= |times|
    ensures var t, first := Swept(s, s.entries, times, n), Oldest(s.entries, d);
      NoneFor(Done(t, s.entries, n), d) <==>
        Judge(s.table, d, times[first]) == Expire && NoneBetween(s.entries, first + 1, n, d)
  {
    hide Books, Apply, Pending, Done, NoneFor, Judge, SameSlot;
    var first := Oldest(s.entries, d);
    var a := Swept(s, s.entries, times, first);
    UpToFirst(s, times, d, first);
    SweepKeeps(s, times, first);
    SameJudgement(s.table, a.table, d, times[first]);
    LookAtOwn(a, s.entries, first, times[first]);
    if Judge(s.table, d, times[first]) != Expire {
      SomeStay(s, times, d, first + 1, n);
    } else if NoneBetween(s.entries, first + 1, n, d) {
      Between(s, times, d, first + 1, n);
    } else {
      var g :| first + 1 <= g < n && s.entries[g].dest == d;
      LaterStays(s, times, d, first, g);
      SomeStay(s, times, d, g + 1, n);
    }
  }

  /** A packet that comes after the one that was dropped stays, or an earlier one does. */
  lemma {:induction false} LaterStays(s: State, times: seq<nat>, d: Address, first: nat, g: nat)
    requires Books(s) && Readings(s, times) && first < g < |times| && s.entries[g].dest == d
    requires var b := Swept(s, s.entries, times, first + 1);
      Slot(b.table, d) == |b.table| && NoneFor(Done(b, s.entries, first + 1), d)
    ensures !NoneFor(Done(Swept(s, s.entries, times, g + 1), s.entries, g + 1), d)
    decreases g
  {
    hide Books, Apply, Pending, Done, NoneFor, Judge;
    if NoneBetween(s.entries, first + 1, g, d) {
      var t := Swept(s, s.entries, times, g);
      Between(s, times, d, first + 1, g);
      SweepKeeps(s, times, g);
      UntrackedIsGranted(t.table, d, times[g]);
      LookAtOwn(t, s.entries, g, times[g]);
    } else {
      var e :| first + 1 <= e < g && s.entries[e].dest == d;
      LaterStays(s, times, d, first, e);
      SomeStay(s, times, d, e + 1, g + 1);
    }
  }

  lemma UntrackedIsGranted(table: seq<Attempt>, d: Address, time: nat)
    requires Slot(table, d) == |table|
    ensures Judge(table, d, time) == Grant
  {
  }

  // --- Sweeps of less than 30 seconds ------------------------------------------------------------------------------------

  /** All readings are less than 30 seconds before `hi`. */
  ghost predicate Short(times: seq<nat>, hi: nat) {
    forall i :: 0 <= i < |times| ==> times[i] < hi <= times[i] + FORWARDING_RETRY_DELAY_MS
  }

  ghost predicate DistinctTries(sent: seq<Entry>) {
    forall i, j :: 0 <= i < j < |sent| ==> sent[i].dest != sent[j].dest
  }

  /** At position `i` of the sweep a packet is looked at whose destination can get no slot, and another packet for
      it follows at position `j`. */
  ghost predicate TriedUntracked(s: State, times: seq<nat>, i: nat, j: nat)
    requires |times| == |s.entries|
  {
    i < j < |times| && s.entries[i].dest == s.entries[j].dest
    && !Seated(Swept(s, s.entries, times, i).table, s.entries[i].dest)
  }

  /** A destination has to wait at all readings from `from` to `hi`. */
  ghost predicate Cooling(table: seq<Attempt>, d: Address, from: nat, hi: nat) {
    forall time :: from <= time < hi ==> Judge(table, d, time) == Wait
  }

  lemma GrantCools(table: seq<Attempt>, d: Address, time: nat, hi: nat)
    requires Judge(table, d, time) == Grant && hi <= time + FORWARDING_RETRY_DELAY_MS && Seated(table, d)
    ensures Cooling(Tracked(table, d, time), d, time, hi)
  {
    hide Tracked, Judge;
    forall later | time <= later < hi ensures Judge(Tracked(table, d, time), d, later) == Wait {
      GrantIsTracked(table, d, time, later);
    }
  }

  lemma StaysCool(s: State, dest: Address, time: nat, d: Address, now: nat, hi: nat)
    requires Cooling(s.table, d, now, hi) && now <= time < hi
    requires dest == d || SameSlot(s.table, Tracked(s.table, dest, time), d)
    ensures Cooling(Tracked(s.table, dest, time), d, time, hi)
  {
    hide Elapsed;
    var after := Tracked(s.table, dest, time);
    assert Judge(s.table, d, time) == Wait;
    forall later | time <= later < hi ensures Judge(after, d, later) == Wait {
      assert Judge(s.table, d, later) == Wait;
      if dest == d {
        assert after == s.table;
      } else {
        SameJudgement(s.table, after, d, later);
      }
    }
  }

  lemma StaysStored(s: State, dest: Address, time: nat, e: Entry)
    requires e in s.entries && (e.dest == dest ==> Judge(s.table, dest, time) == Wait)
    ensures e in Apply(s, Consider(dest, time)).entries
  {
    hide Judge, Tracked;
    EntriesAfter(s, dest, time);
    var k := Oldest(s.entries, dest);
    if k < |s.entries| && e.dest != dest {
      var i :| 0 <= i < |s.entries| && s.entries[i] == e;
      assert Without(s.entries, k)[if i < k then i else i - 1] == e;
    }
  }

  /** Packets that were tried are still there; their destinations are different, and have to wait unless no other
      packet for them is to come. */
  ghost predicate TriedOnce(t: State, sent: seq<Entry>, rest: seq<Entry>, hi: nat) {
    && DistinctTries(sent)
    && forall e :: e in sent ==> e in t.entries && (Cooling(t.table, e.dest, t.clock, hi) || NoneFor(rest, e.dest))
  }

  lemma TriedOnceKept(s: State, e: Entry, time: nat, sent: seq<Entry>, rest: seq<Entry>, hi: nat)
    requires TriedOnce(s, sent, [e] + rest, hi) && s.clock <= time < hi
    ensures TriedOnce(Apply(s, Consider(e.dest, time)), sent, rest, hi)
    ensures Judge(s.table, e.dest, time) != Wait ==> forall x :: x in sent ==> x.dest != e.dest
  {
    hide Judge, Tracked, Untracked, Apply, SameSlot;
    var t := Apply(s, Consider(e.dest, time));
    TableAfter(s, e.dest, time);
    EntriesAfter(s, e.dest, time);
    assert e in [e] + rest && forall y :: y in rest ==> y in [e] + rest;
    forall x | x in sent
      ensures x in t.entries && (Cooling(t.table, x.dest, time, hi) || NoneFor(rest, x.dest))
      ensures x.dest == e.dest ==> Judge(s.table, e.dest, time) == Wait
    {
      if x.dest == e.dest {
        assert Cooling(s.table, x.dest, s.clock, hi) && Judge(s.table, x.dest, time) == Wait;
      } else {
        OtherSlot(s.table, e.dest, time, x.dest);
      }
      if Cooling(s.table, x.dest, s.clock, hi) {
        StaysCool(s, e.dest, time, x.dest, s.clock, hi);
      }
      StaysStored(s, e.dest, time, x);
    }
  }

  lemma TriedOnceStep(s: State, e: Entry, time: nat, sent: seq<Entry>, rest: seq<Entry>, hi: nat)
    requires TriedOnce(s, sent, [e] + rest, hi) && s.clock <= time < hi <= time + FORWARDING_RETRY_DELAY_MS
    requires e in s.entries && (Seated(s.table, e.dest) || NoneFor(rest, e.dest))
    ensures var more := if Judge(s.table, e.dest, time) == Grant then [e] else [];
      TriedOnce(Apply(s, Consider(e.dest, time)), sent + more, rest, hi)
  {
    hide Judge, Tracked, Cooling, NoneFor, Apply, Seated;
    TriedOnceKept(s, e, time, sent, rest, hi);
    TableAfter(s, e.dest, time);
    EntriesAfter(s, e.dest, time);
    if Judge(s.table, e.dest, time) == Grant {
      if Seated(s.table, e.dest) {
        GrantCools(s.table, e.dest, time, hi);
      }
      assert forall i :: 0 <= i < |sent| ==> sent[i] in sent;
    } else {
      assert sent + [] == sent;
    }
  }

  lemma NoneAfter(s: State, times: seq<nat>, n: nat)
    requires n < |times| == |s.entries| && forall j :: !TriedUntracked(s, times, n, j)
    ensures Seated(Swept(s, s.entries, times, n).table, s.entries[n].dest) || NoneFor(s.entries[n + 1..], s.entries[n].dest)
  {
    hide Swept, Seated;
    if !Seated(Swept(s, s.entries, times, n).table, s.entries[n].dest) {
      forall e | e in s.entries[n + 1..] ensures e.dest != s.entries[n].dest {
        var j :| n + 1 <= j < |s.entries| && s.entries[j] == e;
        assert !TriedUntracked(s, times, n, j);
      }
    }
  }

  lemma {:induction false} TrackedTriesOnce(s: State, times: seq<nat>, hi: nat, n: nat)
    requires Books(s) && Readings(s, times) && Short(times, hi) && n <= |times|
    requires forall i: nat, j :: !TriedUntracked(s, times, i, j)
    ensures TriedOnce(Swept(s, s.entries, times, n), Forwarded(s, s.entries, times, n), s.entries[n..], hi)
  {
    hide Books, Apply, Judge, TriedOnce, Pending, TriedUntracked, Seated, NoneFor;
    if n == 0 {
      NothingTried(s, hi);
    } else {
      SweepKeeps(s, times, n - 1);
      TrackedTriesOnce(s, times, hi, n - 1);
      var t, e := Swept(s, s.entries, times, n - 1), s.entries[n - 1];
      PendingNext(t, s.entries, n - 1);
      NoneAfter(s, times, n - 1);
      assert s.entries[n - 1..] == [e] + s.entries[n..];
      TriedOnceStep(t, e, times[n - 1], Forwarded(s, s.entries, times, n - 1), s.entries[n..], hi);
    }
  }

  lemma NothingTried(s: State, hi: nat)
    ensures TriedOnce(s, [], s.entries[0..], hi)
  {
  }

  lemma {:induction false} ForwardedGrows(s: State, times: seq<nat>, m: nat, n: nat)
    requires m <= n <= |times| == |s.entries|
    ensures Forwarded(s, s.entries, times, m) <= Forwarded(s, s.entries, times, n)
    decreases n
  {
    hide Judge, Swept;
    if m < n {
      ForwardedGrows(s, times, m, n - 1);
    }
  }

  /** A destination that was tried without a slot is tried again with its next packet. */
  lemma {:induction false} TriedAgain(s: State, times: seq<nat>, i: nat, j: nat)
    requires Books(s) && Readings(s, times) && TriedUntracked(s, times, i, j)
    ensures !DistinctTries(Forwarded(s, s.entries, times, |times|))
    decreases j
  {
    hide Books, Apply, Pending, Done, NoneFor, Judge;
    var d := s.entries[i].dest;
    if NoneBetween(s.entries, i + 1, j, d) {
      var a, b := Swept(s, s.entries, times, i), Swept(s, s.entries, times, j);
      SweepKeeps(s, times, i);
      NotTrackedAfter(a, d, times[i]);
      Between(s, times, d, i + 1, j);
      UntrackedIsGranted(a.table, d, times[i]);
      UntrackedIsGranted(b.table, d, times[j]);
      TwoTries(s, times, i, j);
    } else {
      var g :| i + 1 <= g < j && s.entries[g].dest == d;
      TriedAgain(s, times, i, g);
    }
  }

  lemma NotTrackedAfter(s: State, d: Address, time: nat)
    requires !Seated(s.table, d)
    ensures Apply(s, Consider(d, time)).table == s.table
  {
  }

  lemma TwoTries(s: State, times: seq<nat>, i: nat, j: nat)
    requires i < j < |times| == |s.entries| && s.entries[i].dest == s.entries[j].dest
    requires Judge(Swept(s, s.entries, times, i).table, s.entries[i].dest, times[i]) == Grant
    requires Judge(Swept(s, s.entries, times, j).table, s.entries[j].dest, times[j]) == Grant
    ensures !DistinctTries(Forwarded(s, s.entries, times, |times|))
  {
    hide Judge, Swept;
    ForwardedGrows(s, times, i + 1, j);
    ForwardedGrows(s, times, j + 1, |times|);
    var all, x, y := Forwarded(s, s.entries, times, |times|), |Forwarded(s, s.entries, times, i)|, |Forwarded(s, s.entries, times, j)|;
    assert Forwarded(s, s.entries, times, i + 1)[x] == s.entries[i];
    assert Forwarded(s, s.entries, times, j + 1)[y] == s.entries[j];
    assert Forwarded(s, s.entries, times, j + 1)[x] == s.entries[i];
    assert x < y && all[x] == s.entries[i] && all[y] == s.entries[j];
  }

  /** In a sweep of less than 30 seconds every destination is tried at most once, exactly if none that has no slot
      and can get none has another packet to come. */
  lemma SweepTriesOnce(s: State, times: seq<nat>, hi: nat)
    requires Books(s) && Readings(s, times) && Short(times, hi)
    ensures DistinctTries(Forwarded(s, s.entries, times, |times|))
       <==> forall i: nat, j :: !TriedUntracked(s, times, i, j)
  {
    hide Books, Swept, Forwarded, TriedUntracked;
    if i: nat, j :| TriedUntracked(s, times, i, j) {
      TriedAgain(s, times, i, j);
    } else {
      TrackedTriesOnce(s, times, hi, |times|);
    }
  }

  // --- Room in the table ---------------------------------------------------------------------------------------------------

  /** There is a slot for every destination that is tracked or has packets stored. */
  predicate Roomy(s: State) {
    |TrackedSet(s.table) + Destinations(s.entries)| <= MAX_DESTINATIONS
  }

  /** Tracking a packet's destination brings in no other destinations. */
  lemma TrackedAfter(s: State, dest: Address, time: nat)
    ensures TrackedSet(Apply(s, Consider(dest, time)).table) <= TrackedSet(s.table) + {dest}
  {
    hide Elapsed;
    TableAfter(s, dest, time);
    var i, v := Slot(s.table, dest), Vacant(s.table);
    if i < |s.table| {
      TrackedGrows(s.table, i, Judged(s.table[i], time));
    } else if v < |s.table| {
      TrackedGrows(s.table, v, Attempt(true, dest, time % U32, 1));
    }
  }

  lemma {:induction false} TrackedWithin(s: State, times: seq<nat>, n: nat)
    requires n <= |times| == |s.entries|
    ensures TrackedSet(Swept(s, s.entries, times, n).table) <= TrackedSet(s.table) + Destinations(s.entries)
  {
    hide Apply, TrackedSet;
    if n > 0 {
      TrackedWithin(s, times, n - 1);
      TrackedAfter(Swept(s, s.entries, times, n - 1), s.entries[n - 1].dest, times[n - 1]);
      assert s.entries[n - 1] in s.entries;
    }
  }

  /** With enough room no destination goes without a slot, so each is tried at most once. */
  lemma RoomySweepTriesOnce(s: State, times: seq<nat>, hi: nat)
    requires Books(s) && Readings(s, times) && Short(times, hi) && Roomy(s)
    ensures DistinctTries(Forwarded(s, s.entries, times, |times|))
  {
    hide Books, Swept, Forwarded, Seated, TrackedSet, DistinctTries, Short;
    forall i: nat, j ensures !TriedUntracked(s, times, i, j) {
      if TriedUntracked(s, times, i, j) {
        SweepKeeps(s, times, i);
        TrackedWithin(s, times, i);
        assert s.entries[i] in s.entries;
        UnseatedIsEleventh(Swept(s, s.entries, times, i), Destinations(s.entries), s.entries[i].dest);
        Smaller(TrackedSet(Swept(s, s.entries, times, i).table) + Destinations(s.entries),
                TrackedSet(s.table) + Destinations(s.entries));
        assert false;
      }
    }
    SweepTriesOnce(s, times, hi);
  }

  /** In every run with at most five stranding deletions there is enough room. */
  lemma FewStrandingsLeaveRoom(s: State, events: seq<Event>)
    requires Starts(s) && IsRun(s, events) && Strandings(s, events) <= 5
    ensures Books(Run(s, events)) && Roomy(Run(s, events))
  {
    hide Books, Run, IsRun, Stranded, Strandings, Starts, TrackedSet, Destinations;
    StartsUnstranded(s);
    RunsKeepBooks(s, events);
    RunStrands(s, events);
    StoredAndStranded(Run(s, events));
  }

  // --- When the clock ticks ------------------------------------------------------------------------------------------------

  /** Two packets for a destination that has not been tried, and after a sweep at time 0. */
  function TwoAtStart(a: Entry, b: Entry): State {
    State(0, seq(10, _ => Attempt(false, a.dest, 0, 0)), [a, b], map[])
  }

  function TwoPackets(a: Entry, b: Entry): State {
    State(0, [Attempt(true, a.dest, 0, 1)] + seq(9, _ => Attempt(false, a.dest, 0, 0)), [a, b], map[a.dest := History(a, [0])])
  }

  lemma SweptAtZero(a: Entry, b: Entry)
    requires a != b && a.dest == b.dest
    ensures var s := TwoAtStart(a, b); Starts(s) && Readings(s, [0, 0]) && Swept(s, s.entries, [0, 0], 2) == TwoPackets(a, b)
  {
    var s, d, t := TwoAtStart(a, b), a.dest, TwoPackets(a, b);
    assert Slot(s.table, d) == 10 && Vacant(s.table) == 0 && Oldest(s.entries, d) == 0;
    assert Apply(s, Consider(d, 0)) == t by {
      assert s.table[0 := Attempt(true, d, 0, 1)] == t.table;
    }
    assert Slot(t.table, d) == 0 && Elapsed(0, 0) == 0 && t.table[0 := t.table[0]] == t.table;
    SweptNext(s, s.entries, [0, 0], 0);
    SweptNext(s, s.entries, [0, 0], 1);
  }

  /** In the next sweep, the delay runs out between the readings for the two packets: the younger one is tried, and
      the older one still waits. */
  lemma YoungerTriedFirst(a: Entry, b: Entry)
    requires a != b && a.dest == b.dest
    ensures var s, times := TwoPackets(a, b), [29999, 30000];
      Books(s) && Readings(s, times) && Short(times, 30001) && Roomy(s) && Forwarded(s, s.entries, times, 2) == [b]
  {
    var s, d, times := TwoPackets(a, b), a.dest, [29999, 30000];
    assert Slot(s.table, d) == 0 && Oldest(s.entries, d) == 0;
    assert Counted(s, s.table[0]);
    assert TrackedSet(s.table) + Destinations(s.entries) == {d} by {
      assert s.table[0] in s.table && a in s.entries;
    }
    var t := Apply(s, Consider(d, 29999));
    assert Elapsed(29999, 0) == 29999 && t.table == s.table;
    SweptNext(s, s.entries, times, 0);
    SweptNext(s, s.entries, times, 1);
    assert Elapsed(30000, 0) == 30000;
  }
}

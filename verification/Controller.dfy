/** The controller's bookkeeping: the table of attempts, and the sweep over the stored packets. */
module Controller {
  import opened OnesSum
  import opened Custody
  import opened Storage
  import opened Retries
  import opened Sweeps

  class Controller {
    const attempts: array<Attempt>
    const storage: Store
    ghost var state: State

    ghost predicate Valid()
      reads this, attempts, storage, storage.entries
    {
      && attempts[..] == state.table
      && storage.Valid() && storage.entries == state.entries
      && Books(state)
    }

    constructor (storage: Store)
      requires storage.Valid()
      ensures Valid() && this.storage == storage && fresh(attempts) && Starts(state) && state.entries == storage.entries
    {
      attempts := new Attempt[MAX_DESTINATIONS](_ => Attempt(false, seq(16, _ => 0), 0, 0));
      this.storage := storage;
      new;
      state := State(0, attempts[..], storage.entries, map[]);
    }

    method FindSlot(dest: Address) returns (i: nat)
      ensures i == Slot(attempts[..], dest)
    {
      i := 0;
      while i < attempts.Length && !(attempts[i].valid && attempts[i].dest == dest)
        invariant i <= attempts.Length
        invariant forall j :: 0 <= j < i ==> !Tracks(attempts[..][j], dest)
      {
        i := i + 1;
      }
      assert i < attempts.Length ==> Tracks(attempts[..][i], dest);
    }

    method FindVacant() returns (i: nat)
      ensures i == Vacant(attempts[..])
    {
      i := 0;
      while i < attempts.Length && attempts[i].valid
        invariant i <= attempts.Length
        invariant forall j :: 0 <= j < i ==> attempts[..][j].valid
      {
        i := i + 1;
      }
      assert i < attempts.Length ==> !attempts[..][i].valid;
    }

    /** Judges a destination, and keeps track of it. */
    method Track(dest: Address, time: nat) returns (verdict: Verdict)
      modifies attempts
      ensures attempts[..] == Tracked(old(attempts[..]), dest, time)
      ensures verdict == Judge(old(attempts[..]), dest, time)
    {
      var now := time % U32;
      var i := FindSlot(dest);
      if i < attempts.Length {
        var a := attempts[i];
        if (now - a.last) % U32 < FORWARDING_RETRY_DELAY_MS {
          verdict := Wait;
        } else if a.retries >= MAX_FORWARDING_RETRIES {
          attempts[i] := a.(valid := false);
          verdict := Expire;
        } else {
          attempts[i] := a.(last := now, retries := a.retries + 1);
          verdict := Grant;
        }
      } else {
        var v := FindVacant();
        if v < attempts.Length {
          attempts[v] := Attempt(true, dest, now, 1);
        }
        verdict := Grant;
      }
    }

    /** Whether a stored packet may be forwarded now.  Instead of an eleventh attempt the oldest packet for the
        destination is dropped. */
    method ShouldAttemptForward(dest: Address, time: nat) returns (ok: bool)
      requires Valid() && Enabled(state, Consider(dest, time))
      modifies this, attempts, storage, storage.entries
      ensures Valid() && state == Apply(old(state), Consider(dest, time))
      ensures ok <==> Judge(old(state).table, dest, time) == Grant
      ensures Within(storage.entries, old(storage.entries))
    {
      hide Books, Judge, Tracked, Oldest, Apply, Without, Within;
      ConsiderBooks(state, dest, time);
      EntriesAfter(state, dest, time);
      TableAfter(state, dest, time);
      WithinWithout(storage.entries, Oldest(storage.entries, dest));
      var verdict := Track(dest, time);
      if verdict == Expire {
        var _ := storage.RetrievePacketForDest(dest);
      }
      ok := verdict == Grant;
      state := Apply(state, Consider(dest, time));
    }

    method RemoveTracking(dest: Address)
      modifies attempts
      ensures attempts[..] == Untracked(old(attempts[..]), dest)
    {
      var i := FindSlot(dest);
      if i < attempts.Length {
        attempts[i] := attempts[i].(valid := false);
      }
    }

    /** A packet was received further on.  The stored packet that its acknowledgement quotes is deleted, judging
        by its payload, or by its addresses if there is no room to look at the payload. */
    method PacketReceived(quote: seq<byte>, room: bool) returns (ghost k: nat)
      requires Valid() && |quote| >= IP6_HLEN
      requires |quote| >= IP6_HLEN + 8 ==> forall e :: e in storage.entries ==> Comparable(e, quote)
      modifies this, attempts, storage, storage.entries
      ensures Valid() && state == Apply(old(state), Acknowledge(k, quote[24..40]))
      ensures k <= |old(state).entries|
      ensures forall i :: 0 <= i < k ==> !Acknowledged(old(state).entries[i], quote, room)
      ensures k < |old(state).entries| ==> Acknowledged(old(state).entries[k], quote, room)
      ensures !room ==> forall d :: Spares(old(state), Acknowledge(k, quote[24..40]), d)
    {
      hide Books, Quoted, Matches, Comparable;
      var dest := quote[24..40];
      if room {
        k := storage.DeletePacketByIcmpData(quote);
      } else {
        k := storage.DeletePacketByIpHeader(quote[8..24], dest);
      }
      RemoveTracking(dest);
      AcknowledgeBooks(state, k, dest);
      state := Apply(state, Acknowledge(k, dest));
    }

    /** A packet that cannot be forwarded now is stored, unless the store is full or something fails. */
    method StoreIncoming(p: array<byte>, copied: bool, stripped: bool, made: bool, saved: bool) returns (ok: bool)
      requires Valid() && CanStrip(p[..])
      modifies this, storage, storage.entries
      ensures Valid()
      ensures ok <==> |old(state).entries| < MAX_STORED_PACKETS && copied && made && saved
      ensures !ok ==> state == old(state)
      ensures ok ==> |state.entries| == |old(state).entries| + 1
      ensures ok ==> var e := state.entries[|old(state).entries|];
        state == Apply(old(state), Store(e)) && e.packet == (if stripped then Kept(p[..]) else p[..]) && e.dest == p[24..40]
    {
      hide Books, Kept;
      ghost var es := storage.entries;
      ok := storage.StorePacket(p, p[24..40], copied, stripped, made, saved);
      if ok {
        ghost var e := storage.entries[|es|];
        assert storage.entries == es + [e];
        StepKeepsBooks(state, Store(e));
        state := Apply(state, Store(e));
      }
    }

    /** One round of the sweep.  The next entry is noted before anything is deleted, and is still stored after. */
    method LookAt(entry: Entry, time: nat, ghost es: seq<Entry>, ghost i: nat) returns (next: Entry?, ok: bool)
      requires Valid() && time >= state.clock
      requires i < |es| && entry == es[i] && Pending(state, es, i)
      modifies this, attempts, storage, storage.entries
      ensures Valid() && state == Apply(old(state), Consider(entry.dest, time))
      ensures ok <==> Judge(old(state).table, entry.dest, time) == Grant
      ensures next == NodeAt(es, i + 1) && Pending(state, es, i + 1)
      ensures Within(storage.entries, old(storage.entries))
    {
      hide Books, Apply, Judge;
      NextPending(state, es, i);
      PendingKept(state, es, i, time);
      hide Pending, Linked;
      next := entry.next;
      ok := ShouldAttemptForward(entry.dest, time);
    }

    /** Every packet that is stored when the sweep starts is looked at once, in order, although looking at one
        may delete it or an earlier one.  `times` are the readings of the clock. */
    method AttemptForwardStored(times: seq<nat>) returns (granted: seq<Entry>)
      requires Valid() && Readings(state, times)
      modifies this, attempts, storage, storage.entries
      ensures Valid()
      ensures state == Swept(old(state), old(state).entries, times, |times|)
      ensures granted == Forwarded(old(state), old(state).entries, times, |times|)
    {
      hide Books, Apply, Judge, Pending, Swept, Forwarded;
      ghost var s, es := state, state.entries;
      SweepKeeps(s, times, 0);
      SweptNext(s, es, times, 0);
      granted := [];
      var entry, i := storage.head, 0;
      while entry != null
        invariant i <= |es| && entry == NodeAt(es, i)
        invariant Valid() && Pending(state, es, i)
        invariant Within(storage.entries, old(storage.entries))
        invariant state == Swept(s, es, times, i)
        invariant granted == Forwarded(s, es, times, i)
        decreases |es| - i
      {
        SweepKeeps(s, times, i);
        SweptNext(s, es, times, i);
        ghost var before := storage.entries;
        var current: Entry := entry;
        var next, ok := LookAt(current, times[i], es, i);
        WithinTransitive(storage.entries, before, old(storage.entries));
        if ok {
          granted := granted + [current];
        }
        entry, i := next, i + 1;
      }
      assert i == |times|;
    }
  }

  predicate Acknowledged(e: Entry, quote: seq<byte>, room: bool)
    requires |quote| >= IP6_HLEN
  {
    if room then Quoted(e, quote) else Matches(e, quote[8..24], quote[24..40])
  }

  /** The entry after a pending one is the next one pending. */
  lemma NextPending(s: State, es: seq<Entry>, i: nat)
    requires i < |es| && Linked(s.entries) && Pending(s, es, i)
    ensures es[i].next == NodeAt(es, i + 1)
  {
    PendingNext(s, es, i);
    var k := |Done(s, es, i)|;
    assert s.entries[k].next == NodeAt(s.entries, k + 1);
    assert i + 1 < |es| ==> s.entries[k + 1] == es[i..][1];
  }

  ghost predicate Within(a: seq<Entry>, b: seq<Entry>) {
    forall k :: 0 <= k < |a| ==> a[k] in b
  }

  lemma WithinWithout(es: seq<Entry>, k: nat)
    ensures Within(es, es) && Within(Without(es, k), es)
  {
  }

  lemma WithinTransitive(a: seq<Entry>, b: seq<Entry>, c: seq<Entry>)
    requires Within(a, b) && Within(b, c)
    ensures Within(a, c)
  {
  }
}

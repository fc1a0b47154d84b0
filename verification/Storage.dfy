/** The packets that wait for a contact: a linked list, oldest first. */
module Storage {
  import opened OnesSum
  import opened Custody

  const MAX_STORED_PACKETS: nat := 5

  /** A stored packet and where it goes. */
  class Entry {
    const packet: seq<byte>
    const dest: Address
    var next: Entry?

    constructor (packet: seq<byte>, dest: Address)
      ensures this.packet == packet && this.dest == dest && next == null
    {
      this.packet, this.dest, next := packet, dest, null;
    }
  }

  // --- Lists of entries ------------------------------------------------------------------------------------------

  /** The destination of an entry is the one in the header of its packet. */
  predicate Addressed(e: Entry) {
    |e.packet| >= IP6_HLEN && e.packet[24..40] == e.dest
  }

  predicate Matches(e: Entry, source: Address, dest: Address) {
    |e.packet| >= IP6_HLEN && e.packet[8..24] == source && e.packet[24..40] == dest
  }

  /** An acknowledgement quotes the beginning of the packet: its IPv6 header and some bytes after it.  The
      hop-by-hop header that the packet may have had when it was forwarded is skipped. */
  function Skipped(quote: seq<byte>): nat
    requires |quote| >= IP6_HLEN + 8
  {
    var units: nat := quote[41];
    if quote[6] == HOPOPTS then (units + 1) * 8 else 0
  }

  /** How many bytes after that are compared: what is left of eight, in a `u8_t`. */
  function Compared(quote: seq<byte>): nat
    requires |quote| >= IP6_HLEN + 8
  {
    (8 - Skipped(quote)) % 256
  }

  function Protocol(quote: seq<byte>): byte
    requires |quote| >= IP6_HLEN + 8
  {
    if quote[6] == HOPOPTS then quote[40] else quote[6]
  }

  predicate SameSource(e: Entry, quote: seq<byte>) {
    |e.packet| >= IP6_HLEN && |quote| >= IP6_HLEN && e.packet[8..24] == quote[8..24]
  }

  /** The comparison with a stored packet comes to an end, within the quote. */
  predicate Comparable(e: Entry, quote: seq<byte>)
    requires |quote| >= IP6_HLEN + 8
  {
    SameSource(e, quote) && Compared(quote) > 0 ==>
      && e.packet[6] != HOPOPTS
      && (|e.packet| >= IP6_HLEN + Compared(quote) ==> IP6_HLEN + Skipped(quote) + Compared(quote) <= |quote|)
  }

  /** A stored packet is taken for the one that is quoted.  Destinations are compared only if no payload is. */
  predicate Quoted(e: Entry, quote: seq<byte>) {
    |quote| >= IP6_HLEN + 8 &&
    var skip, n := IP6_HLEN + Skipped(quote), Compared(quote);
    if n == 0 then Matches(e, quote[8..24], quote[24..40])
    else
      && SameSource(e, quote) && e.packet[6] == Protocol(quote)
      && (|e.packet| < IP6_HLEN + n || (skip + n <= |quote| && e.packet[40..40 + n] == quote[skip..skip + n]))
  }

  /** The position of the oldest packet for a destination, or the length of the list. */
  function Oldest(es: seq<Entry>, dest: Address): (k: nat)
    ensures k <= |es| && (forall i :: 0 <= i < k ==> es[i].dest != dest) && (k < |es| ==> es[k].dest == dest)
  {
    if es == [] then 0 else if es[0].dest == dest then 0 else 1 + Oldest(es[1..], dest)
  }

  function Without(es: seq<Entry>, k: nat): seq<Entry> {
    if k < |es| then es[..k] + es[k + 1..] else es
  }

  function NodeAt(es: seq<Entry>, k: nat): Entry? {
    if k < |es| then es[k] else null
  }

  ghost predicate Linked(es: seq<Entry>)
    reads es
  {
    && (forall i {:trigger es[i].next} :: 0 <= i < |es| ==> es[i].next == NodeAt(es, i + 1))
    && (forall i, j :: 0 <= i < j < |es| ==> es[i] != es[j])
  }

  // --- The storage function ---------------------------------------------------------------------------------------

  class Store {
    var head: Entry?
    var count: nat
    ghost var entries: seq<Entry>

    ghost predicate Valid()
      reads this, entries
    {
      && head == NodeAt(entries, 0)
      && count == |entries| <= MAX_STORED_PACKETS
      && Linked(entries)
      && forall e :: e in entries ==> Addressed(e)
    }

    constructor ()
      ensures Valid() && entries == []
    {
      head, count, entries := null, 0, [];
    }

    predicate IsFull()
      reads this
    {
      count >= MAX_STORED_PACKETS
    }

    /** Appends a copy of the packet without its hop-by-hop header.  The copy, the stripping, the entry and
        the file on disk can each fail; a failure to strip is ignored. */
    method StorePacket(p: array<byte>, dest: Address, copied: bool, stripped: bool, made: bool, saved: bool)
      returns (ok: bool)
      requires Valid() && CanStrip(p[..]) && p[24..40] == dest
      modifies this, entries
      ensures Valid()
      ensures ok <==> old(count) < MAX_STORED_PACKETS && copied && made && saved
      ensures !ok ==> entries == old(entries)
      ensures ok ==> |entries| == old(|entries|) + 1 && entries[..old(|entries|)] == old(entries)
      ensures ok ==> fresh(entries[old(|entries|)]) && entries[old(|entries|)].dest == dest
      ensures ok ==> entries[old(|entries|)].packet == if stripped then Kept(p[..]) else p[..]
    {
      if IsFull() || !copied {
        return false;
      }
      var _, q := StripCustodianOption(p, stripped);
      if !made || !saved {
        return false;
      }
      var entry := new Entry(q[..], dest);
      StrippedKeepsAddress(p[..]);
      Append(entry);
      ok := true;
    }

    method Append(entry: Entry)
      requires Valid() && count < MAX_STORED_PACKETS
      requires entry !in entries && entry.next == null && Addressed(entry)
      modifies this, entries
      ensures Valid() && entries == old(entries) + [entry]
    {
      ghost var es := entries;
      if head == null {
        head := entry;
      } else {
        var current := head;
        ghost var k := 0;
        while current.next != null
          invariant k < |es| && current == es[k]
          decreases |es| - k
        {
          current, k := current.next, k + 1;
        }
        assert k == |es| - 1;
        current.next := entry;
      }
      count, entries := count + 1, es + [entry];
    }

    /** Takes out the oldest packet for a destination. */
    method RetrievePacketForDest(target: Address) returns (found: Entry?)
      requires Valid()
      modifies this, entries
      ensures Valid() && entries == Without(old(entries), Oldest(old(entries), target))
      ensures found == NodeAt(old(entries), Oldest(old(entries), target))
    {
      var current, prev: Entry? := head, null;
      ghost var k := 0;
      while current != null && current.dest != target
        invariant k <= |entries| && current == NodeAt(entries, k)
        invariant if k == 0 then prev == null else prev == entries[k - 1]
        invariant forall i :: 0 <= i < k ==> entries[i].dest != target
        decreases |entries| - k
      {
        prev, current, k := current, current.next, k + 1;
      }
      assert k == Oldest(entries, target);
      if current != null {
        Unlink(prev, current, k);
        current.next := null;
      }
      return current;
    }

    /** Takes out the packet that an acknowledgement quotes: the oldest with its source and destination. */
    method DeletePacketByIpHeader(source: Address, dest: Address)
      returns (ghost k: nat)
      requires Valid()
      modifies this, entries
      ensures Valid() && entries == Without(old(entries), k)
      ensures k <= old(|entries|) && forall i :: 0 <= i < k ==> !Matches(old(entries)[i], source, dest)
      ensures k < old(|entries|) ==> Matches(old(entries)[k], source, dest) && old(entries)[k].dest == dest
    {
      var current, prev: Entry? := head, null;
      k := 0;
      while current != null && !Matches(current, source, dest)
        invariant k <= |entries| && current == NodeAt(entries, k)
        invariant if k == 0 then prev == null else prev == entries[k - 1]
        invariant forall i :: 0 <= i < k ==> !Matches(entries[i], source, dest)
        decreases |entries| - k
      {
        prev, current, k := current, current.next, k + 1;
      }
      if current != null {
        assert Addressed(entries[k]);
        Unlink(prev, current, k);
      }
    }

    /** Takes out the packet that an acknowledgement quotes, judging by its source, protocol and payload. */
    method DeletePacketByIcmpData(quote: seq<byte>) returns (ghost k: nat)
      requires Valid() && (|quote| >= IP6_HLEN + 8 ==> forall e :: e in entries ==> Comparable(e, quote))
      modifies this, entries
      ensures Valid() && entries == Without(old(entries), k)
      ensures k <= old(|entries|) && forall i :: 0 <= i < k ==> !Quoted(old(entries)[i], quote)
      ensures k < old(|entries|) ==> Quoted(old(entries)[k], quote)
    {
      if |quote| < IP6_HLEN + 8 {
        return |entries|;
      }
      var next, offset := quote[6], 0;
      if next == HOPOPTS {
        var units: nat := quote[41];
        offset := (units + 1) * 8;
        next := quote[40];
      }
      var bytes := (8 - offset) % 256;
      if bytes <= 0 {
        k := DeletePacketByIpHeader(quote[8..24], quote[24..40]);
        return;
      }
      k := FindQuoted(quote, next, offset, bytes);
    }

    method FindQuoted(quote: seq<byte>, next: byte, offset: nat, bytes: nat) returns (ghost k: nat)
      requires Valid() && |quote| >= IP6_HLEN + 8 && forall e :: e in entries ==> Comparable(e, quote)
      requires next == Protocol(quote) && offset == Skipped(quote) && bytes == Compared(quote) > 0
      modifies this, entries
      ensures Valid() && entries == Without(old(entries), k)
      ensures k <= old(|entries|) && forall i :: 0 <= i < k ==> !Quoted(old(entries)[i], quote)
      ensures k < old(|entries|) ==> Quoted(old(entries)[k], quote)
    {
      hide Protocol, Skipped, Compared;
      var current, prev: Entry? := head, null;
      k := 0;
      while current != null
        invariant k <= |entries| && current == NodeAt(entries, k)
        invariant if k == 0 then prev == null else prev == entries[k - 1]
        invariant forall i :: 0 <= i < k ==> !Quoted(entries[i], quote)
        invariant Valid() && entries == old(entries)
        decreases |entries| - k
      {
        assert Comparable(entries[k], quote);
        if |current.packet| >= IP6_HLEN && current.packet[8..24] == quote[8..24] {
          var matches := true;
          if |current.packet| >= IP6_HLEN + bytes {
            if current.packet[40..40 + bytes] != quote[40 + offset..40 + offset + bytes] {
              matches := false;
            }
          }
          if current.packet[6] != next {
            matches := false;
          }
          if matches {
            Unlink(prev, current, k);
            return;
          }
        }
        prev, current, k := current, current.next, k + 1;
      }
      assert entries == Without(entries, k);
    }

    method Unlink(prev: Entry?, found: Entry, ghost k: nat)
      requires Valid() && k < |entries| && found == entries[k]
      requires if k == 0 then prev == null else prev == entries[k - 1]
      modifies this, entries
      ensures Valid() && entries == Without(old(entries), k)
      ensures found !in entries
    {
      ghost var es := entries;
      if prev == null {
        head := found.next;
      } else {
        prev.next := found.next;
      }
      count := count - 1;
      entries := Without(es, k);
      forall i | 0 <= i < |entries| ensures entries[i].next == NodeAt(entries, i + 1) {
        assert i < k ==> entries[i] == es[i];
        assert i >= k ==> entries[i] == es[i + 1];
      }
    }
  }

  lemma StrippedKeepsAddress(s: seq<byte>)
    requires CanStrip(s)
    ensures HasHopByHop(s) ==> Stripped(s)[24..40] == s[24..40]
  {
    hide PayloadLength;
    if HasHopByHop(s) {
      assert forall i :: 24 <= i < 40 ==> Stripped(s)[i] == s[i];
    }
  }
}

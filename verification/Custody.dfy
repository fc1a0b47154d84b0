/** The custodian option: a hop-by-hop extension header that names the node holding a packet.

    A packet is an IPv6 packet in one buffer, as long as its header says.  Each operation that needs a new
    buffer is told whether there is room for one. */
module Custody {
  import opened OnesSum

  const IP6_HLEN: nat := 40
  const HBH_OPT_HDR_LEN: nat := 24
  const CUSTODY_OPTION_TYPE: byte := 0x1E
  const HOPOPTS: byte := 0
  const NONE: byte := 59

  type Address = a: seq<byte> | |a| == 16 witness seq(16, i => 0)

  // --- Packets -----------------------------------------------------------------------------------------------

  /** `IP6H_PLEN`: the length of what follows the IPv6 header. */
  function PayloadLength(s: seq<byte>): nat
    requires |s| >= IP6_HLEN
  {
    var high: nat := s[4];
    256 * high + s[5]
  }

  predicate IsPacket(s: seq<byte>) {
    IP6_HLEN <= |s| < 65536 && |s| == IP6_HLEN + PayloadLength(s)
  }

  /** Room for one more option within 16 bits. */
  predicate CanGrow(s: seq<byte>) {
    IsPacket(s) && |s| + HBH_OPT_HDR_LEN < 65536
  }

  /** The packet starts with a hop-by-hop header, of whatever kind. */
  predicate HasHopByHop(s: seq<byte>)
    requires IsPacket(s)
  {
    s[6] == HOPOPTS
  }

  /** What stripping takes for granted: a hop-by-hop header has the length of a custodian option. */
  predicate CanStrip(s: seq<byte>) {
    IsPacket(s) && (HasHopByHop(s) ==> PayloadLength(s) >= HBH_OPT_HDR_LEN)
  }

  /** The hop-by-hop header holds a custodian. */
  predicate HasCustodian(s: seq<byte>)
    requires CanStrip(s)
  {
    HasHopByHop(s) && s[42] == CUSTODY_OPTION_TYPE && s[43] == 16
  }

  /** The IPv6 header of `s` with another next header and payload length. */
  function Header(s: seq<byte>, next: byte, length: nat): (h: seq<byte>)
    requires |s| >= IP6_HLEN && length < 65536
    ensures |h| == IP6_HLEN && h[6] == next && PayloadLength(h) == length
    ensures forall i :: 0 <= i < IP6_HLEN && i != 4 && i != 5 && i != 6 ==> h[i] == s[i]
  {
    s[..4] + [length / 256, length % 256, next] + s[7..40]
  }

  function Option(next: byte, custodian: Address): (o: seq<byte>)
    ensures |o| == HBH_OPT_HDR_LEN && o[0] == next && o[4..20] == custodian
  {
    [next, HBH_OPT_HDR_LEN / 8 - 1, CUSTODY_OPTION_TYPE, 16] + custodian + [0, 0, 0, 0]
  }

  function Added(s: seq<byte>, custodian: Address): (r: seq<byte>)
    requires CanGrow(s)
    ensures CanStrip(r) && HasCustodian(r)
  {
    Header(s, HOPOPTS, PayloadLength(s) + HBH_OPT_HDR_LEN) + Option(s[6], custodian) + s[40..]
  }

  function Stripped(s: seq<byte>): (r: seq<byte>)
    requires CanStrip(s) && HasHopByHop(s)
    ensures CanGrow(r)
  {
    Header(s, s[40], PayloadLength(s) - HBH_OPT_HDR_LEN) + s[64..]
  }

  function Renamed(s: seq<byte>, custodian: Address): (r: seq<byte>)
    requires CanStrip(s) && HasHopByHop(s)
    ensures |r| == |s| && CanStrip(r)
  {
    s[..44] + custodian + s[60..]
  }

  /** What forwarding a packet at once makes of it. */
  function Updated(s: seq<byte>, custodian: Address): (r: seq<byte>)
    requires CanStrip(s) && (HasHopByHop(s) || CanGrow(s))
    ensures CanStrip(r)
  {
    if !HasHopByHop(s) then Added(s, custodian)
    else if HasCustodian(s) then Renamed(s, custodian)
    else Added(Stripped(s), custodian)
  }

  /** What storing a packet keeps of it. */
  function Kept(s: seq<byte>): (r: seq<byte>)
    requires CanStrip(s)
  {
    if HasHopByHop(s) then Stripped(s) else s
  }

  // --- The skipping of extension headers -------------------------------------------------------------------------

  /** The length of an extension header, in a `uint8_t`. */
  function Extent(b: byte): nat {
    var units: nat := b;
    (units + 1) * 8 % 256
  }

  /** The walk from a header of type `next` at `at` meets a hop-by-hop header, or the end, within the packet
      and after `n` other headers. */
  ghost predicate Ends(s: seq<byte>, next: byte, at: nat, n: nat)
    decreases n
  {
    if next == HOPOPTS then n == 0 && at + HBH_OPT_HDR_LEN <= |s|
    else if next == NONE then n == 0
    else n > 0 && at + 2 <= |s| && Ends(s, s[at], at + Extent(s[at + 1]), n - 1)
  }

  /** Where that walk ends, and with which type. */
  ghost function End(s: seq<byte>, next: byte, at: nat, n: nat): (byte, nat)
    requires Ends(s, next, at, n)
    decreases n
  {
    if n == 0 then (next, at) else End(s, s[at], at + Extent(s[at + 1]), n - 1)
  }

  /** The custodian that a packet names, if any. */
  ghost function Extracted(s: seq<byte>, n: nat): (c: seq<byte>)
    requires IsPacket(s) && Ends(s, s[6], IP6_HLEN, n)
  {
    EndBounds(s, s[6], IP6_HLEN, n);
    var (next, at) := End(s, s[6], IP6_HLEN, n);
    if next == HOPOPTS && s[at + 2] == CUSTODY_OPTION_TYPE && s[at + 3] == 16 then s[at + 4..at + 20] else []
  }

  lemma {:induction false} EndBounds(s: seq<byte>, next: byte, at: nat, n: nat)
    requires Ends(s, next, at, n)
    ensures var e := End(s, next, at, n); e.0 == HOPOPTS || e.0 == NONE
    ensures var e := End(s, next, at, n); e.0 == HOPOPTS ==> e.1 + HBH_OPT_HDR_LEN <= |s|
    decreases n
  {
    if n > 0 {
      EndBounds(s, s[at], at + Extent(s[at + 1]), n - 1);
    }
  }

  // --- The operations ----------------------------------------------------------------------------------------------

  /** `memcpy` */
  method Copy(dst: array<byte>, at: nat, src: seq<byte>)
    requires at + |src| <= dst.Length
    modifies dst
    ensures dst[..] == old(dst[..at]) + src + old(dst[at + |src|..])
  {
    for i := 0 to |src|
      invariant dst[at..at + i] == src[..i]
      invariant dst[..at] == old(dst[..at])
      invariant dst[at + i..] == old(dst[at + i..])
    {
      dst[at + i] := src[i];
      assert dst[at..at + i + 1] == dst[at..at + i] + [src[i]];
      assert dst[at + i + 1..] == dst[at + i..][1..] && old(dst[at + i + 1..]) == old(dst[at + i..])[1..];
    }
    assert dst[..] == dst[..at] + dst[at..at + |src|] + dst[at + |src|..];
  }

  /** A new buffer with the IPv6 header of `p`, changed, and two more pieces. */
  method Rebuild(p: array<byte>, next: byte, length: nat, option: seq<byte>, rest: seq<byte>) returns (q: array<byte>)
    requires IsPacket(p[..]) && length == |option| + |rest| && IP6_HLEN + length < 65536
    ensures fresh(q) && q[..] == Header(p[..], next, length) + option + rest
  {
    q := new byte[IP6_HLEN + length](_ => 0);
    Copy(q, 0, p[..40]);
    q[6] := next;
    q[4], q[5] := length / 256, length % 256;
    assert q[..40] == Header(p[..], next, length);
    Copy(q, 40, option);
    assert q[..40 + |option|] == Header(p[..], next, length) + option;
    Copy(q, 40 + |option|, rest);
  }

  method AddCustodianOption(p: array<byte>, custodian: Address, room: bool) returns (ok: bool, q: array<byte>)
    requires CanGrow(p[..])
    ensures ok == room
    ensures if ok then fresh(q) && q[..] == Added(p[..], custodian) else q == p
  {
    if !room {
      return false, p;
    }
    var length := PayloadLength(p[..]) + HBH_OPT_HDR_LEN;
    q := Rebuild(p, HOPOPTS, length, Option(p[6], custodian), p[40..]);
    ok := true;
  }

  method StripCustodianOption(p: array<byte>, room: bool) returns (ok: bool, q: array<byte>)
    requires CanStrip(p[..])
    ensures ok == (room && HasHopByHop(p[..]))
    ensures if ok then fresh(q) && q[..] == Stripped(p[..]) else q == p
  {
    if p[6] != HOPOPTS || !room {
      return false, p;
    }
    var length := PayloadLength(p[..]) - HBH_OPT_HDR_LEN;
    q := Rebuild(p, p[40], length, [], p[64..]);
    ok := true;
  }

  /** A buffer is changed in place, or replaced.  Without room the packet is left alone, or left without any
      option if the room ran out between stripping and adding. */
  method UpdateOrAddCustodianOption(p: array<byte>, custodian: Address, room: bool, moreRoom: bool)
    returns (ok: bool, q: array<byte>)
    requires CanStrip(p[..]) && (HasHopByHop(p[..]) || CanGrow(p[..]))
    modifies p
    ensures ok <==> old(HasCustodian(p[..])) || (room && (old(HasHopByHop(p[..])) ==> moreRoom))
    ensures ok ==> q[..] == Updated(old(p[..]), custodian)
    ensures !ok ==> q[..] == if room then Kept(old(p[..])) else old(p[..])
    ensures q == p || (fresh(q) && p[..] == old(p[..]))
  {
    if p[6] == HOPOPTS {
      if p[42] == CUSTODY_OPTION_TYPE && p[43] == 16 {
        Copy(p, 44, custodian);
        return true, p;
      }
      ok, q := StripCustodianOption(p, room);
      if ok {
        ok, q := AddCustodianOption(q, custodian, moreRoom);
      }
    } else {
      ok, q := AddCustodianOption(p, custodian, room);
    }
  }

  /** `n` is how many headers come before the hop-by-hop header. */
  method ExtractCustodianOption(p: array<byte>, ghost n: nat) returns (ok: bool, custodian: seq<byte>)
    requires IsPacket(p[..]) && Ends(p[..], p[6], IP6_HLEN, n)
    ensures custodian == Extracted(p[..], n)
    ensures ok <==> custodian != []
  {
    var next: byte, at: nat := p[6], IP6_HLEN;
    ghost var left := n;
    while next != HOPOPTS && next != NONE
      invariant Ends(p[..], next, at, left)
      invariant End(p[..], next, at, left) == End(p[..], p[6], IP6_HLEN, n)
      decreases left
    {
      var length := Extent(p[at + 1]);
      next := p[at];
      at, left := at + length, left - 1;
    }
    if next != HOPOPTS || p[at + 2] != CUSTODY_OPTION_TYPE || p[at + 3] != 16 {
      return false, [];
    }
    assert p[at + 4..at + 20] == p[..][at + 4..at + 20];
    return true, p[at + 4..at + 20];
  }

  // --- Round trips ---------------------------------------------------------------------------------------------

  /** Two packets with the same length, next header, other header bytes and payload. */
  lemma SamePacket(a: seq<byte>, b: seq<byte>)
    requires |a| == |b| >= 40 && a[40..] == b[40..]
    requires PayloadLength(a) == PayloadLength(b) && a[6] == b[6]
    requires forall i :: 0 <= i < 40 && i != 4 && i != 5 && i != 6 ==> a[i] == b[i]
    ensures a == b
  {
    LengthBytes(a, b);
    hide PayloadLength;
    assert a == a[..40] + a[40..] && b == b[..40] + b[40..];
    assert a[..40] == b[..40];
  }

  lemma LengthBytes(a: seq<byte>, b: seq<byte>)
    requires |a| >= 40 && |b| >= 40 && PayloadLength(a) == PayloadLength(b)
    ensures a[4] == b[4] && a[5] == b[5]
  {
  }

  /** Stripping undoes adding, byte for byte. */
  lemma StripUndoesAdd(s: seq<byte>, c: Address)
    requires CanGrow(s)
    ensures Stripped(Added(s, c)) == s
  {
    hide Header, Option;
    var r := Stripped(Added(s, c));
    assert Added(s, c)[64..] == s[40..] && Added(s, c)[40] == s[6];
    assert PayloadLength(r[..40]) == PayloadLength(s);
    SamePacket(r, s);
  }

  /** Adding undoes stripping exactly for the options that adding writes. */
  lemma AddUndoesStrip(s: seq<byte>, c: Address)
    requires CanStrip(s) && HasHopByHop(s)
    ensures Added(Stripped(s), c) == s <==> s[40..64] == Option(s[40], c)
  {
    hide Header;
    var r := Added(Stripped(s), c);
    assert r[40..64] == Option(s[40], c) && r[64..] == s[64..];
    assert PayloadLength(r[..40]) == PayloadLength(s[..40]);
    if s[40..64] == Option(s[40], c) {
      assert r[40..] == r[40..64] + r[64..] && s[40..] == s[40..64] + s[64..];
      SamePacket(r, s);
    }
  }

  /** The custodian that was written last is the one that is read. */
  lemma ExtractFindsUpdate(s: seq<byte>, c: Address)
    requires CanStrip(s) && (HasHopByHop(s) || CanGrow(s))
    ensures Ends(Updated(s, c), Updated(s, c)[6], IP6_HLEN, 0) && Extracted(Updated(s, c), 0) == c
  {
    var r := Updated(s, c);
    assert r[44..60] == c;
  }

  lemma ExtractFindsAdd(s: seq<byte>, c: Address)
    requires CanGrow(s)
    ensures Ends(Added(s, c), Added(s, c)[6], IP6_HLEN, 0) && Extracted(Added(s, c), 0) == c
  {
    assert Added(s, c)[44..60] == c;
  }

  /** Only the last custodian leaves a trace. */
  lemma LastCustodianWins(s: seq<byte>, c: Address, d: Address)
    requires CanStrip(s) && (HasHopByHop(s) || CanGrow(s))
    ensures Updated(Updated(s, c), d) == Updated(s, d)
  {
    RenamedAdded(s, c, d);
    if HasHopByHop(s) && !HasCustodian(s) {
      RenamedAdded(Stripped(s), c, d);
    }
  }

  lemma RenamedAdded(s: seq<byte>, c: Address, d: Address)
    requires IsPacket(s)
    ensures CanGrow(s) ==> Renamed(Added(s, c), d) == Added(s, d)
  {
    if CanGrow(s) {
      assert Added(s, c)[..44] == Added(s, d)[..44] && Added(s, c)[60..] == Added(s, d)[60..];
      var r := Added(s, d);
      assert r == r[..44] + r[44..60] + r[60..] && r[44..60] == d;
    }
  }

  /** A packet that was stored and then forwarded leaves as it would have left at once, unless it came with
      a custodian in a header that this code would have written differently. */
  lemma StoringIsInvisible(s: seq<byte>, c: Address)
    requires CanStrip(s) && (HasHopByHop(s) || CanGrow(s))
    ensures Added(Kept(s), c) == Updated(s, c)
       <==> (HasCustodian(s) ==> s[41] == 2 && s[60..64] == [0, 0, 0, 0])
  {
    if HasCustodian(s) {
      var r := Renamed(s, c);
      assert r[40..64] == s[40..44] + c + s[60..64];
      assert r[40..64][20..24] == s[60..64] && r[40..64][1] == s[41];
      assert Option(s[40], c)[20..24] == [0, 0, 0, 0];
      assert Stripped(r) == Stripped(s) by {
        assert r[64..] == s[64..];
        SamePacket(Stripped(r), Stripped(s));
      }
      AddUndoesStrip(r, c);
    }
  }

  // --- The bytes on the wire -----------------------------------------------------------------------------------------

  /** The packet with an added option, field by field, as sections 3 and 4.3 of RFC 8200 lay it out: the payload length
      in network byte order, and a hop-by-hop header of 8 * (2 + 1) bytes. */
  lemma AddedLayout(s: seq<byte>, c: Address)
    requires CanGrow(s)
    ensures var r := Added(s, c);
      && |r| == |s| + 24 && r[4] as int * 256 + r[5] as int == |r| - 40 && r[6] == 0
      && r[..4] == s[..4] && r[7..40] == s[7..40]
      && r[40] == s[6] && r[41] == 2 && r[42] == 0x1E && r[43] == 16 && r[44..60] == c && r[60..64] == [0, 0, 0, 0]
      && r[64..] == s[40..]
  {
    var r := Added(s, c);
    assert r[40..64] == Option(s[6], c);
    assert r[44..60] == Option(s[6], c)[4..20] && r[60..64] == Option(s[6], c)[20..24];
    assert r[..4] == s[..4] && r[7..40] == s[7..40];
  }

  lemma StrippedLayout(s: seq<byte>)
    requires CanStrip(s) && HasHopByHop(s)
    ensures var r := Stripped(s);
      && |r| == |s| - 24 && r[4] as int * 256 + r[5] as int == |r| - 40 && r[6] == s[40]
      && r[..4] == s[..4] && r[7..40] == s[7..40] && r[40..] == s[64..]
  {
    var r := Stripped(s);
    assert r[..4] == s[..4] && r[7..40] == s[7..40];
  }

  /** A custodian is found behind an extension header of 8 * (length + 1) bytes; of longer ones than 255 bytes the code
      skips a multiple of 256 bytes less. */
  lemma FoundBehindHeader(s: seq<byte>, wraps: nat, at: nat)
    requires IsPacket(s) && |s| >= 42 && s[6] != HOPOPTS && s[6] != NONE && s[40] == HOPOPTS
    requires 40 <= at < 40 + 256 && at + 256 * wraps == 40 + 8 * (s[41] as int + 1)
    requires at + 24 <= |s| && s[at + 2] == 0x1E && s[at + 3] == 16
    ensures Ends(s, s[6], IP6_HLEN, 1) && Extracted(s, 1) == s[at + 4..at + 20]
  {
    assert Extent(s[41]) == at - 40;
    assert Ends(s, HOPOPTS, at, 0);
    assert End(s, s[6], IP6_HLEN, 1) == End(s, HOPOPTS, at, 0) == (HOPOPTS, at);
  }
}

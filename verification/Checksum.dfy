/** The checksum routines of `inet_chksum.c`, on a little-endian host.

    All of them return `Ones` of the little-endian sum of the bytes, or its complement.  Unsigned
    32-bit additions wrap around explicitly, so that the absence of overflow is proved, not assumed. */
module Checksum {
  import opened OnesSum

  const U32: nat := 0x1_0000_0000

  /** `a + b` as a `u32_t` computes it. */
  function Add32(a: nat, b: nat): (r: nat)
    ensures a + b < U32 ==> r == a + b
  {
    (a + b) % U32
  }

  /** Two bytes as a `u16_t`. */
  function Word16(low: nat, high: nat): nat {
    low + 256 * high
  }

  function Htons(n: nat): nat
    requires n <= 65535
  {
    SwapBytes(n)
  }

  /** `(u16_t)~(acc & 0xffff)` */
  function Invert(n: nat): nat {
    65535 - n % 65536
  }

  // --- Three ways to sum a byte string --------------------------------------------------------------------

  /** `lwip_standard_chksum`, version 1: big-endian words, reordered at the end. */
  method Chksum1(data: seq<byte>) returns (sum: nat)
    requires |data| <= 0x20000
    ensures sum == Ones(Sum(data, false))
  {
    hide Add32, Ones, Fold;
    var acc := 0;
    var i := 0;
    ghost var k := 0;
    while |data| - i > 1
      invariant i == 2 * k <= |data|
      invariant acc == Sum(data[0..i], true) && acc <= 65535 * k
    {
      SumNextWord(data, 0, k, true);
      var src := Word16(data[i + 1], data[i]);
      acc := Add32(acc, src);
      i, k := i + 2, k + 1;
    }
    if |data| - i > 0 {
      SumNextByte(data, 0, k, true);
      acc := Add32(acc, Word16(0, data[i]));
      assert data[0..i + 1] == data;
    } else {
      assert data[0..i] == data;
    }
    assert acc == Sum(data, true);
    FoldTwice(acc);
    FoldBounds(acc);
    acc := Fold(acc);
    if acc / 65536 != 0 {
      acc := Fold(acc);
    } else {
      FoldIsDone(acc);
    }
    SwapCorrects(data);
    OnesBound(Sum(data, true));
    sum := Htons(acc);
  }

  lemma FoldIsDone(acc: nat)
    requires acc / 65536 == 0
    ensures Fold(acc) == acc
  {
  }

  lemma OnesBound(n: nat)
    ensures Ones(n) <= 65535
  {
  }

  /** Bytes that were summed one position off are put right by swapping the result. */
  lemma SwapCorrects(data: seq<byte>)
    ensures SwapBytes(Ones(Sum(data, true))) == Ones(Sum(data, false))
  {
    hide Ones, SwapBytes, Sum;
    SwapOnes(Sum(data, true));
    OnesShift(data, true, 0);
  }

  /** The bytes before and after `k` words, collected in `t`. */
  lemma EndBytes(data: seq<byte>, odd: bool, start: nat, k: nat)
    requires start == (if odd && data != [] then 1 else 0) && start + 2 * k <= |data| <= start + 2 * k + 1
    ensures var i := start + 2 * k;
      Sum(data, odd) == (if start == 1 then Word16(0, data[0]) else 0) + Sum(data[start..i], false)
                        + (if i < |data| then data[i] as nat else 0)
  {
    var i := start + 2 * k;
    if start == 1 {
      assert data == data[..1] + data[1..];
      SumConcat(data[..1], data[1..], true);
    }
    assert data[start..] == data[start..i] + data[i..];
    assert |data[start..i]| == 2 * k;
    EvenDouble(k);
    SumConcat(data[start..i], data[i..], false);
  }

  /** The end of versions 2 and 3: reduce the sum, and swap it if the data started at an odd address. */
  method FoldAndSwap(ghost data: seq<byte>, odd: bool, sum0: nat) returns (sum: nat)
    requires sum0 < U32 && Ones(sum0) == Ones(Sum(data, odd))
    ensures sum == Ones(Sum(data, false))
  {
    hide Ones, Fold, SwapBytes, Sum;
    FoldTwice(sum0);
    sum := Fold(sum0);
    sum := Fold(sum);
    if odd {
      SwapCorrects(data);
      sum := SwapBytes(sum);
    }
  }

  /** `lwip_standard_chksum`, version 2: host words from the first even address on. */
  method Chksum2(data: seq<byte>, odd: bool) returns (sum: nat)
    requires |data| <= 0x20000
    ensures sum == Ones(Sum(data, false))
  {
    hide Add32, Ones;
    var t: nat := 0;
    var i := 0;
    if odd && |data| > 0 {
      t := Word16(0, data[0]);
      i := 1;
    }
    ghost var start, k := i, 0;
    sum := 0;
    while |data| - i > 1
      invariant i == start + 2 * k <= |data|
      invariant sum == Sum(data[start..i], false) && sum <= 65535 * k
    {
      SumNextWord(data, start, k, false);
      sum := Add32(sum, Word16(data[i], data[i + 1]));
      i, k := i + 2, k + 1;
    }
    if |data| - i > 0 {
      t := t + data[i];
    }
    EndBytes(data, odd, start, k);
    sum := FoldAndSwap(data, odd, Add32(sum, t));
  }

  /** A 32-bit addition with the carry added back, as in the unrolled loop of version 3. */
  function AddWithCarry(sum: nat, word: nat): (r: nat)
    requires sum < U32 && word < U32
    ensures r < U32
    ensures Ones(r) == Ones(sum + word)
  {
    var tmp := Add32(sum, word);
    if tmp < sum then
      OnesPeriodic(tmp + 1, 65537);
      tmp + 1
    else tmp
  }

  /** Four bytes as a little-endian `u32_t`. */
  function Word32(data: seq<byte>, i: nat): (w: nat)
    requires i + 4 <= |data|
    ensures w < U32
  {
    Word16(data[i], data[i + 1]) + 65536 * Word16(data[i + 2], data[i + 3])
  }

  /** Sums that agree up to carries still do after adding the next words. */
  lemma AddWord16(data: seq<byte>, start: nat, k: nat, sum: nat)
    requires start + 2 * k + 2 <= |data|
    requires Ones(sum) == Ones(Sum(data[start..start + 2 * k], false))
    ensures var i := start + 2 * k;
      Ones(sum + Word16(data[i], data[i + 1])) == Ones(Sum(data[start..i + 2], false))
  {
    hide Ones;
    var i := start + 2 * k;
    SumNextWord(data, start, k, false);
    OnesAdd(sum, Word16(data[i], data[i + 1]));
    OnesAdd(Sum(data[start..i], false), Word16(data[i], data[i + 1]));
  }

  /** A 32-bit word counts like its two 16-bit words. */
  lemma AddWord32(data: seq<byte>, start: nat, k: nat, sum: nat)
    requires start + 2 * k + 4 <= |data| && sum < U32
    requires Ones(sum) == Ones(Sum(data[start..start + 2 * k], false))
    ensures var i := start + 2 * k;
      Ones(AddWithCarry(sum, Word32(data, i))) == Ones(Sum(data[start..i + 4], false))
  {
    hide Ones, AddWithCarry, Sum;
    var i := start + 2 * k;
    AddWord16(data, start, k, sum);
    AddWord16(data, start, k + 1, sum + Word16(data[i], data[i + 1]));
    var high := Word16(data[i + 2], data[i + 3]);
    OnesPeriodic(sum + Word16(data[i], data[i + 1]) + high, high);
  }

  /** The unrolled loop of version 3, followed by the fold that makes room in the upper bits. */
  method SumLongWords(data: seq<byte>, ghost start: nat, i0: nat, sum0: nat, ghost k0: nat)
    returns (i: nat, sum: nat, ghost k: nat)
    requires i0 == start + 2 * k0 <= |data| && sum0 < U32
    requires Ones(sum0) == Ones(Sum(data[start..i0], false))
    ensures i == start + 2 * k <= |data| < i + 8
    ensures sum <= 131070 && Ones(sum) == Ones(Sum(data[start..i], false))
  {
    hide Ones, Sum, AddWithCarry, Word32, Fold;
    i, sum, k := i0, sum0, k0;
    while |data| - i > 7
      invariant i == start + 2 * k <= |data|
      invariant sum < U32 && Ones(sum) == Ones(Sum(data[start..i], false))
    {
      AddWord32(data, start, k, sum);
      var tmp := AddWithCarry(sum, Word32(data, i));
      AddWord32(data, start, k + 2, tmp);
      sum := AddWithCarry(tmp, Word32(data, i + 4));
      i, k := i + 8, k + 4;
    }
    FoldKeepsOnes(sum);
    FoldBounds(sum);
    sum := Fold(sum);
  }

  /** The words that are left after the unrolled loop. */
  method SumRemainingWords(data: seq<byte>, ghost start: nat, i0: nat, sum0: nat, ghost k0: nat)
    returns (i: nat, sum: nat, ghost k: nat)
    requires i0 == start + 2 * k0 <= |data| < i0 + 8 && sum0 <= 131070
    requires Ones(sum0) == Ones(Sum(data[start..i0], false))
    ensures i == start + 2 * k <= |data| < i + 2
    ensures sum <= 131070 + 3 * 65535 && Ones(sum) == Ones(Sum(data[start..i], false))
  {
    hide Ones, Sum, Add32;
    i, sum, k := i0, sum0, k0;
    while |data| - i > 1
      invariant k0 <= k && i == start + 2 * k <= |data|
      invariant sum <= 131070 + 65535 * (k - k0)
      invariant Ones(sum) == Ones(Sum(data[start..i], false))
    {
      AddWord16(data, start, k, sum);
      sum := Add32(sum, Word16(data[i], data[i + 1]));
      i, k := i + 2, k + 1;
    }
  }

  lemma SumOfEmpty()
    ensures Sum([], false) == 0
  {
  }

  /** `lwip_standard_chksum`, version 3: 32-bit words with end-around carry, eight bytes at a time.
      `address` is the address of the first byte. */
  method Chksum3(data: seq<byte>, address: nat) returns (sum: nat)
    ensures sum == Ones(Sum(data, false))
  {
    hide Add32, Ones, Sum;
    SumOfEmpty();
    var odd := address % 2 == 1;
    var t: nat := 0;
    var i := 0;
    sum := 0;
    if odd && |data| > 0 {
      t := Word16(0, data[0]);
      i := 1;
    }
    ghost var start, k := i, 0;
    assert data[start..start] == [];
    if (address + i) % 4 != 0 && |data| - i > 1 {
      SumNextWord(data, start, k, false);
      sum := Add32(sum, Word16(data[i], data[i + 1]));
      i, k := i + 2, k + 1;
    }
    i, sum, k := SumLongWords(data, start, i, sum, k);
    i, sum, k := SumRemainingWords(data, start, i, sum, k);
    if |data| - i > 0 {
      t := t + data[i];
    }
    EndBytes(data, odd, start, k);
    OnesAdd(sum, t);
    OnesAdd(Sum(data[start..i], false), t);
    sum := FoldAndSwap(data, odd, Add32(sum, t));
  }

  // --- Checksums of chains --------------------------------------------------------------------------------

  /** A packet buffer: its bytes, and whether they start at an odd address. */
  datatype Pbuf = Pbuf(payload: seq<byte>, odd: bool)

  function Payloads(chain: seq<Pbuf>): (bs: seq<seq<byte>>)
    ensures |bs| == |chain| && forall i :: 0 <= i < |chain| ==> bs[i] == chain[i].payload
  {
    seq(|chain|, i requires 0 <= i < |chain| => chain[i].payload)
  }

  /** The bytes of a chain. */
  function Bytes(chain: seq<Pbuf>): seq<byte> {
    Concat(Payloads(chain))
  }

  lemma BytesSnoc(chain: seq<Pbuf>, i: nat)
    requires i < |chain|
    ensures Bytes(chain[..i + 1]) == Bytes(chain[..i]) + chain[i].payload
  {
    assert Payloads(chain[..i + 1])[..i] == Payloads(chain[..i]);
  }

  /** Lengths of packet buffers are 16-bit. */
  predicate ShortPieces(chain: seq<Pbuf>) {
    forall i :: 0 <= i < |chain| ==> |chain[i].payload| <= 0xffff
  }

  /** The accumulator holds the reduced sum of `total`, with its bytes swapped while `swapped` is set. */
  ghost predicate Framed(acc: nat, swapped: bool, total: nat) {
    acc == Ones(if swapped then 256 * total else total)
  }

  lemma FramedBound(acc: nat, swapped: bool, total: nat)
    requires Framed(acc, swapped, total)
    ensures acc <= 65535
  {
  }

  /** Adding a piece to a swapped accumulator adds it one byte off. */
  lemma AddFramed(acc: nat, swapped: bool, total: nat, piece: seq<byte>)
    requires Framed(acc, swapped, total)
    ensures Framed(Fold(acc + Ones(Sum(piece, false))), swapped, total + Sum(piece, swapped))
  {
    var part := Sum(piece, false);
    FoldOnce(acc, Ones(part));
    OnesAdd(part, acc);
    OnesAdd(if swapped then 256 * total else total, part);
    if swapped {
      OnesShift(piece, true, 256 * total);
    }
  }

  lemma SwapFramed(acc: nat, swapped: bool, total: nat)
    requires Framed(acc, swapped, total)
    ensures Framed(SwapBytes(acc), !swapped, total)
  {
    SwapOnes(if swapped then 256 * total else total);
    OnesTimes65536(total);
  }

  /** One round of the loops over a chain: add a piece and swap if `flip`. */
  method AddPiece(piece: seq<byte>, odd: bool, flip: bool, acc0: nat, swapped0: bool, ghost total: nat)
    returns (acc: nat, swapped: bool)
    requires Framed(acc0, swapped0, total) && |piece| <= 0xffff
    ensures Framed(acc, swapped, total + Sum(piece, swapped0)) && swapped == (swapped0 != flip)
  {
    FramedBound(acc0, swapped0, total);
    AddFramed(acc0, swapped0, total, piece);
    var part := Chksum2(piece, odd);
    acc, swapped := Fold(Add32(acc0, part)), swapped0;
    if flip {
      SwapFramed(acc, swapped, total + Sum(piece, swapped0));
      swapped := !swapped;
      acc := SwapBytes(acc);
    }
  }

  method Unswap(acc0: nat, swapped: bool, ghost total: nat) returns (acc: nat)
    requires Framed(acc0, swapped, total)
    ensures acc == Ones(total)
  {
    acc := acc0;
    if swapped {
      SwapFramed(acc, swapped, total);
      acc := SwapBytes(acc);
    }
  }

  lemma NothingSummed(chain: seq<Pbuf>, acc0: nat, n: nat)
    requires acc0 <= 65535
    ensures Framed(acc0, false, acc0 + Sum([], false)) && Bytes(chain[..0]) == [] && !Odd(0)
    ensures SummedSoFar(chain, 0, n, [], n, false)
  {
  }

  /** The loop over a whole chain. */
  method SumChain(chain: seq<Pbuf>, acc0: nat) returns (acc: nat)
    requires ShortPieces(chain) && acc0 <= 65535
    ensures acc == Ones(acc0 + Sum(Bytes(chain), false))
  {
    hide Framed, Ones, Sum, Bytes, Odd;
    var swapped;
    acc, swapped := acc0, false;
    NothingSummed(chain, acc0, 0);
    for i := 0 to |chain|
      invariant Framed(acc, swapped, acc0 + Sum(Bytes(chain[..i]), false)) && swapped == Odd(|Bytes(chain[..i])|)
    {
      var q := chain[i];
      BytesSnoc(chain, i);
      OddAdd(|Bytes(chain[..i])|, |q.payload|);
      SumConcat(Bytes(chain[..i]), q.payload, false);
      acc, swapped := AddPiece(q.payload, q.odd, Odd(|q.payload|), acc, swapped, acc0 + Sum(Bytes(chain[..i]), false));
    }
    assert chain[..|chain|] == chain;
    acc := Unswap(acc, swapped, acc0 + Sum(Bytes(chain), false));
  }

  /** The bytes summed after `i` buffers when `left` of `n` bytes are still to come. */
  ghost predicate SummedSoFar(chain: seq<Pbuf>, i: nat, n: nat, summed: seq<byte>, left: nat, swapped: bool) {
    && i <= |chain| && |summed| + left == n
    && (if left > 0 then summed == Bytes(chain[..i]) && swapped == Odd(|summed|) else summed <= Bytes(chain[..i]))
  }

  lemma SummedStep(chain: seq<Pbuf>, i: nat, n: nat, summed: seq<byte>, left: nat, swapped: bool)
    requires SummedSoFar(chain, i, n, summed, left, swapped) && i < |chain| && left > 0
    ensures swapped == Odd(|summed|)
    ensures var piece := chain[i].payload;
      var len := if |piece| > left then left else |piece|;
      SummedSoFar(chain, i + 1, n, summed + piece[..len], left - len, swapped != Odd(|piece|))
  {
    BytesSnoc(chain, i);
    OddAdd(|summed|, |chain[i].payload|);
  }

  /** The loop over the first `chksumLen` bytes of a chain.  Swapping depends on the length of the
      buffer, not on how much of it is summed, which makes no difference in the end. */
  method SumChainPartially(chain: seq<Pbuf>, chksumLen0: nat, acc0: nat) returns (acc: nat)
    requires ShortPieces(chain) && chksumLen0 <= 0xffff && acc0 <= 65535
    ensures acc == Ones(acc0 + Sum(Prefix(Bytes(chain), chksumLen0), false))
  {
    hide Framed, Ones, Sum, Bytes, Prefix, SummedSoFar, Odd;
    var swapped;
    acc, swapped := acc0, false;
    NothingSummed(chain, acc0, chksumLen0);
    var chksumLen: nat := chksumLen0;
    var i: nat := 0;
    ghost var summed: seq<byte> := [];
    while i < |chain| && chksumLen > 0
      invariant i <= |chain| && SummedSoFar(chain, i, chksumLen0, summed, chksumLen, swapped)
      invariant Framed(acc, swapped, acc0 + Sum(summed, false))
    {
      var q := chain[i];
      var chklen := if |q.payload| > chksumLen then chksumLen else |q.payload|;
      SummedStep(chain, i, chksumLen0, summed, chksumLen, swapped);
      SumConcat(summed, q.payload[..chklen], false);
      acc, swapped := AddPiece(q.payload[..chklen], q.odd, Odd(|q.payload|), acc, swapped, acc0 + Sum(summed, false));
      chksumLen := chksumLen - chklen;
      summed := summed + q.payload[..chklen];
      i := i + 1;
    }
    PrefixOfBytes(chain, i, chksumLen0, summed, chksumLen, swapped);
    acc := Unswap(acc, swapped, acc0 + Sum(summed, false));
  }

  function Prefix(bytes: seq<byte>, n: nat): seq<byte> {
    if n <= |bytes| then bytes[..n] else bytes
  }

  lemma {:induction false} PrefixOfPrefix(chain: seq<Pbuf>, i: nat, summed: seq<byte>)
    requires i <= |chain| && summed <= Bytes(chain[..i])
    ensures summed <= Bytes(chain)
    decreases |chain| - i
  {
    if i == |chain| {
      assert chain[..i] == chain;
    } else {
      BytesSnoc(chain, i);
      PrefixOfPrefix(chain, i + 1, summed);
    }
  }

  /** At the end, the bytes summed are the first `n` of the chain. */
  lemma PrefixOfBytes(chain: seq<Pbuf>, i: nat, n: nat, summed: seq<byte>, left: nat, swapped: bool)
    requires SummedSoFar(chain, i, n, summed, left, swapped) && (i == |chain| || left == 0)
    ensures summed == Prefix(Bytes(chain), n)
  {
    assert chain[..|chain|] == chain;
    PrefixOfPrefix(chain, i, summed);
  }

  // --- The checksum functions ---------------------------------------------------------------------------------

  /** The Internet checksum of a byte string, as a `u16_t` to be stored as it is. */
  function InternetChecksum(bytes: seq<byte>): nat {
    65535 - Ones(Sum(bytes, false))
  }

  /** `inet_chksum_pbuf`: the checksum of a chain is that of its bytes, however they are split. */
  method InetChksumPbuf(chain: seq<Pbuf>) returns (sum: nat)
    requires ShortPieces(chain)
    ensures sum == InternetChecksum(Bytes(chain))
  {
    var acc := SumChain(chain, 0);
    sum := Invert(acc);
  }

  /** The pseudo header of section 8.1 of RFC 8200. */
  function PseudoHeader(src: seq<byte>, dest: seq<byte>, proto: byte, protoLen: nat): seq<byte>
    requires protoLen <= 0xffff
  {
    src + dest + [0, 0, protoLen / 256, protoLen % 256, 0, 0, 0, proto]
  }

  lemma PseudoHeaderSum(src: seq<byte>, dest: seq<byte>, proto: byte, protoLen: nat, data: seq<byte>)
    requires |src| == 16 && |dest| == 16 && protoLen <= 0xffff
    ensures Sum(PseudoHeader(src, dest, proto, protoLen) + data, false) ==
      Sum(src, false) + Sum(dest, false) + Sum(data, false) + Htons(proto) + Htons(protoLen)
  {
    var tail: seq<byte> := [0, 0, protoLen / 256, protoLen % 256, 0, 0, 0, proto];
    PseudoTailSum(tail);
    hide Sum, SwapBytes;
    SumConcat(src + dest + tail, data, false);
    SumConcat(src + dest, tail, false);
    SumConcat(src, dest, false);
    HtonsIsSwapped(proto);
    HtonsIsSwapped(protoLen);
  }

  lemma PseudoTailSum(tail: seq<byte>)
    requires |tail| == 8 && tail[0] == tail[1] == tail[4] == tail[5] == tail[6] == 0
    ensures Sum(tail, false) == Word16(tail[2], tail[3]) + Word16(0, tail[7])
  {
    SumNextWord(tail, 0, 0, false);
    SumNextWord(tail, 0, 1, false);
    SumNextWord(tail, 0, 2, false);
    SumNextWord(tail, 0, 3, false);
    assert tail[0..8] == tail;
  }

  lemma HtonsBound(n: nat)
    requires n <= 65535
    ensures Htons(n) <= 65535
  {
  }

  lemma HtonsIsSwapped(n: nat)
    requires n <= 65535
    ensures Htons(n) == Word16(n / 256, n % 256)
  {
  }

  lemma Word32Halves(data: seq<byte>, i: nat)
    requires i + 4 <= |data|
    ensures Word32(data, i) % 65536 == Word16(data[i], data[i + 1])
    ensures Word32(data, i) / 65536 % 65536 == Word16(data[i + 2], data[i + 3])
  {
  }

  /** The sum of the two 16-bit halves of the four words of an address. */
  method AddAddress(addr: seq<byte>, acc0: nat) returns (acc: nat)
    requires |addr| == 16 && acc0 <= 8 * 65535
    ensures acc == acc0 + Sum(addr, false) && acc <= acc0 + 8 * 65535
  {
    hide Sum;
    acc := acc0;
    SumOfNothing(addr);
    for part := 0 to 4
      invariant acc == acc0 + Sum(addr[0..4 * part], false) && acc <= acc0 + 2 * 65535 * part
    {
      SumNextWord(addr, 0, 2 * part, false);
      SumNextWord(addr, 0, 2 * part + 1, false);
      acc := AddHalves(addr, 4 * part, acc);
    }
    assert addr[0..16] == addr;
  }

  lemma SumOfNothing(addr: seq<byte>)
    ensures Sum(addr[0..0], false) == 0
  {
  }

  method AddHalves(addr: seq<byte>, i: nat, acc0: nat) returns (acc: nat)
    requires i + 4 <= |addr| && acc0 <= 16 * 65535
    ensures acc == acc0 + Word16(addr[i], addr[i + 1]) + Word16(addr[i + 2], addr[i + 3])
  {
    hide Add32, Word32;
    Word32Halves(addr, i);
    var word := Word32(addr, i);
    acc := Add32(acc0, word % 65536);
    acc := Add32(acc, word / 65536 % 65536);
  }

  lemma InvertReduced(n: nat)
    requires n <= 65535
    ensures Invert(n) == 65535 - n
  {
  }

  /** Add the rest of the pseudo header, reduce and invert. */
  method FinishPseudo(proto: byte, protoLen: nat, acc0: nat, ghost total: nat) returns (sum: nat)
    requires protoLen <= 0xffff && acc0 == Ones(total)
    ensures sum == 65535 - Ones(total + Htons(proto) + Htons(protoLen))
  {
    HtonsBound(proto);
    HtonsBound(protoLen);
    OnesBound(total);
    OnesBound(total + Htons(proto) + Htons(protoLen));
    hide Ones, Fold, Add32, Htons, Invert;
    var acc := Add32(acc0, Htons(proto));
    acc := Add32(acc, Htons(protoLen));
    OnesAdd(total, Htons(proto) + Htons(protoLen));
    FoldTwice(acc);
    acc := Fold(acc);
    acc := Fold(acc);
    InvertReduced(acc);
    sum := Invert(acc);
  }

  /** Both addresses, reduced. */
  method SumAddresses(src: seq<byte>, dest: seq<byte>) returns (acc: nat)
    requires |src| == 16 && |dest| == 16
    ensures acc == Ones(Sum(src, false) + Sum(dest, false))
  {
    acc := AddAddress(src, 0);
    acc := AddAddress(dest, acc);
    FoldTwice(acc);
    acc := Fold(acc);
    acc := Fold(acc);
  }

  /** `ip6_chksum_pseudo`: the checksum over the pseudo header and the bytes of the chain. */
  method Ip6ChksumPseudo(chain: seq<Pbuf>, proto: byte, protoLen: nat, src: seq<byte>, dest: seq<byte>)
    returns (sum: nat)
    requires ShortPieces(chain) && protoLen <= 0xffff && |src| == 16 && |dest| == 16
    ensures sum == InternetChecksum(PseudoHeader(src, dest, proto, protoLen) + Bytes(chain))
  {
    var acc := SumAddresses(src, dest);
    OnesAdd(Sum(src, false) + Sum(dest, false), Sum(Bytes(chain), false));
    acc := SumChain(chain, acc);
    PseudoHeaderSum(src, dest, proto, protoLen, Bytes(chain));
    sum := FinishPseudo(proto, protoLen, acc, Sum(src, false) + Sum(dest, false) + Sum(Bytes(chain), false));
  }

  /** `ip6_chksum_pseudo_partial`: the same over the first `chksumLen` bytes of the chain. */
  method Ip6ChksumPseudoPartial(chain: seq<Pbuf>, proto: byte, protoLen: nat, chksumLen: nat, src: seq<byte>, dest: seq<byte>)
    returns (sum: nat)
    requires ShortPieces(chain) && protoLen <= 0xffff && chksumLen <= 0xffff && |src| == 16 && |dest| == 16
    ensures sum == InternetChecksum(PseudoHeader(src, dest, proto, protoLen) + Prefix(Bytes(chain), chksumLen))
  {
    var acc := SumAddresses(src, dest);
    ghost var data := Prefix(Bytes(chain), chksumLen);
    OnesAdd(Sum(src, false) + Sum(dest, false), Sum(data, false));
    acc := SumChainPartially(chain, chksumLen, acc);
    PseudoHeaderSum(src, dest, proto, protoLen, data);
    sum := FinishPseudo(proto, protoLen, acc, Sum(src, false) + Sum(dest, false) + Sum(data, false));
  }

  // --- Verification by the receiver -----------------------------------------------------------------------------

  /** `bytes` with a 16-bit value stored at `offset`, low byte first. */
  function Store16(bytes: seq<byte>, offset: nat, value: nat): seq<byte>
    requires offset + 2 <= |bytes| && value <= 65535
  {
    bytes[offset := value % 256][offset + 1 := value / 256]
  }

  lemma StoreSum(bytes: seq<byte>, offset: nat, value: nat)
    requires offset + 2 <= |bytes| && !Odd(offset) && value <= 65535
    ensures Sum(Store16(bytes, offset, value), false) == Sum(Store16(bytes, offset, 0), false) + value
  {
    var before, after := bytes[..offset], bytes[offset + 2..];
    forall v: nat | v <= 65535
      ensures Sum(Store16(bytes, offset, v), false) == Sum(before, false) + v + Sum(after, false)
    {
      var word: seq<byte> := [v % 256, v / 256];
      assert Store16(bytes, offset, v) == before + word + after;
      SumConcat(before + word, after, false);
      SumConcat(before, word, false);
      SumNextWord(word, 0, 0, false);
      assert word[0..2] == word;
    }
  }

  /** A message whose checksum field holds the checksum computed with the field zeroed sums to zero, and
      no other field value does, except that 65535 stands in for 0. */
  lemma ChecksumVerifies(header: seq<byte>, data: seq<byte>, offset: nat, field: nat)
    requires !Odd(|header|) && !Odd(offset) && offset + 2 <= |data| && field <= 65535
    requires Sum(header, false) > 0
    ensures var sum := InternetChecksum(header + Store16(data, offset, 0));
      InternetChecksum(header + Store16(data, offset, field)) == 0 <==>
        field == sum || (sum == 0 && field == 65535)
  {
    hide Ones, Sum, Store16;
    SumConcat(header, Store16(data, offset, 0), false);
    SumConcat(header, Store16(data, offset, field), false);
    StoreSum(data, offset, field);
    ComplementsToZero(Sum(header + Store16(data, offset, 0), false), field);
  }

  lemma ComplementsToZero(total: nat, field: nat)
    requires total > 0 && field <= 65535
    ensures Ones(total + field) == 65535 <==>
      field == 65535 - Ones(total) || (Ones(total) == 65535 && field == 65535)
  {
    var k := OnesOfOnes(total);
    OnesPeriodic(Ones(total) + field, k);
    var s := Ones(total) + field;
    assert Ones(s) == if s <= 65535 then s else s - 65535;
  }
}

/** One's complement sums of 16-bit words, as in RFC 1071.

    `Sum` adds the bytes of a string as little-endian words without ever dropping a carry; `Ones` is
    what is left of such a sum once all carries have been added back in. */
module OnesSum {

  type byte = x: nat | x < 256

  /** The 16-bit value of a sum after adding carries back in: 0 only for 0, else from 1 to 65535. */
  function Ones(n: nat): nat {
    if n == 0 then 0 else 1 + (n - 1) % 65535
  }

  /** Bytes with weights 1 and 256 in turn; `high` says whether the first byte has weight 256. */
  function Sum(bs: seq<byte>, high: bool): nat {
    if bs == [] then 0 else Weighted(bs[0], high) + Sum(bs[1..], !high)
  }

  function Weighted(b: nat, high: bool): nat {
    if high then 256 * b else b
  }

  /** Every other byte; `first` says whether the first one is taken. */
  function Alternate(bs: seq<byte>, first: bool): nat {
    if bs == [] then 0 else (if first then bs[0] else 0) + Alternate(bs[1..], !first)
  }

  function Concat(pieces: seq<seq<byte>>): seq<byte>
    decreases |pieces|
  {
    if pieces == [] then [] else Concat(pieces[..|pieces| - 1]) + pieces[|pieces| - 1]
  }

  function Odd(n: nat): bool {
    n % 2 == 1
  }

  function Fold(n: nat): nat {
    n / 65536 + n % 65536
  }

  function SwapBytes(n: nat): nat {
    n % 256 * 256 + n / 256 % 256
  }

  // --- Arithmetic of `Ones` ---------------------------------------------------------------------------

  /** Multiples of 65535 do not matter, except that a sum of 0 stays apart from the others. */
  lemma OnesPeriodic(n: nat, k: nat)
    requires n == 0 ==> k == 0
    ensures Ones(n + 65535 * k) == Ones(n)
  {
    assert (n + 65535 * k - 1) % 65535 == (n - 1) % 65535;
  }

  lemma OnesOfOnes(n: nat) returns (k: nat)
    ensures n == Ones(n) + 65535 * k && (Ones(n) == 0 ==> k == 0)
  {
    k := if n == 0 then 0 else (n - 1) / 65535;
  }

  lemma OnesAdd(a: nat, b: nat)
    ensures Ones(Ones(a) + b) == Ones(a + b)
  {
    var k := OnesOfOnes(a);
    OnesPeriodic(Ones(a) + b, k);
  }

  lemma OnesTimes256(a: nat)
    ensures Ones(256 * Ones(a)) == Ones(256 * a)
  {
    var k := OnesOfOnes(a);
    OnesPeriodic(256 * Ones(a), 256 * k);
  }

  /** One fold adds the carries back in; it may produce one more. */
  lemma FoldKeepsOnes(n: nat)
    ensures Ones(Fold(n)) == Ones(n)
  {
    OnesPeriodic(Fold(n), n / 65536);
  }

  /** Two folds reduce any 32-bit sum completely. */
  lemma FoldTwice(n: nat)
    requires n < 0x1_0000_0000
    ensures Fold(Fold(n)) == Ones(n)
  {
    FoldKeepsOnes(n);
    FoldBounds(n);
    FoldBounds(Fold(n));
    FoldKeepsOnes(Fold(n));
    OnesOfReduced(Fold(Fold(n)));
  }

  lemma FoldBounds(n: nat)
    requires n < 0x1_0000_0000
    ensures Fold(n) <= 131070
    ensures n <= 131070 ==> Fold(n) <= 65535
  {
  }

  lemma OnesOfReduced(n: nat)
    requires n <= 65535
    ensures Ones(n) == n
  {
  }

  /** One fold is enough after adding two reduced sums. */
  lemma FoldOnce(a: nat, b: nat)
    requires a <= 65535 && b <= 65535
    ensures Fold(a + b) == Ones(a + b)
  {
    FoldKeepsOnes(a + b);
  }

  lemma SwapIsTimes256(n: nat)
    requires n <= 65535
    ensures SwapBytes(n) == Ones(256 * n)
  {
    var high, low := n / 256, n % 256;
    assert 256 * n == SwapBytes(n) + 65535 * high;
    OnesPeriodic(SwapBytes(n), high);
  }

  /** Swapping a reduced sum of `a` gives the reduced sum of `256 * a`. */
  lemma SwapOnes(a: nat)
    ensures SwapBytes(Ones(a)) == Ones(256 * a)
  {
    SwapIsTimes256(Ones(a));
    OnesTimes256(a);
  }

  lemma OnesTimes65536(a: nat)
    ensures Ones(256 * (256 * a)) == Ones(a)
  {
    OnesPeriodic(a, a);
  }

  // --- Sums of bytes ------------------------------------------------------------------------------------

  lemma {:induction false} SumConcat(a: seq<byte>, b: seq<byte>, high: bool)
    ensures Sum(a + b, high) == Sum(a, high) + Sum(b, if Odd(|a|) then !high else high)
  {
    if a == [] {
      assert a + b == b;
    } else {
      SumConcat(a[1..], b, !high);
      assert (a + b)[1..] == a[1..] + b;
    }
  }

  /** Shifting a byte string by one byte multiplies its sum by 256, up to multiples of 65535. */
  lemma {:induction false} SumShift(bs: seq<byte>, high: bool)
    ensures 256 * Sum(bs, high) == Sum(bs, !high) + 65535 * Alternate(bs, high)
    ensures Alternate(bs, high) <= Sum(bs, !high)
  {
    if bs != [] {
      SumShift(bs[1..], !high);
    }
  }

  lemma OnesShift(bs: seq<byte>, high: bool, rest: nat)
    ensures Ones(rest + 256 * Sum(bs, high)) == Ones(rest + Sum(bs, !high))
  {
    SumShift(bs, high);
    OnesPeriodic(rest + Sum(bs, !high), Alternate(bs, high));
  }

  /** Adding word number `k` extends the sum of the words before it. */
  lemma SumNextWord(bs: seq<byte>, lo: nat, k: nat, high: bool)
    requires lo + 2 * k + 2 <= |bs|
    ensures var i := lo + 2 * k;
      Sum(bs[lo..i + 2], high) == Sum(bs[lo..i], high) + Weighted(bs[i], high) + Weighted(bs[i + 1], !high)
  {
    var i := lo + 2 * k;
    var word := [bs[i], bs[i + 1]];
    assert bs[lo..i + 2] == bs[lo..i] + word;
    assert |bs[lo..i]| == 2 * k;
    EvenDouble(k);
    SumConcat(bs[lo..i], word, high);
    assert word == [bs[i]] + [bs[i + 1]];
    SumConcat([bs[i]], [bs[i + 1]], high);
  }

  lemma SumNextByte(bs: seq<byte>, lo: nat, k: nat, high: bool)
    requires lo + 2 * k < |bs|
    ensures var i := lo + 2 * k;
      Sum(bs[lo..i + 1], high) == Sum(bs[lo..i], high) + Weighted(bs[i], high)
  {
    var i := lo + 2 * k;
    assert bs[lo..i + 1] == bs[lo..i] + [bs[i]];
    assert |bs[lo..i]| == 2 * k;
    EvenDouble(k);
    SumConcat(bs[lo..i], [bs[i]], high);
  }

  lemma EvenDouble(k: nat)
    ensures !Odd(2 * k)
  {
  }

  lemma OddAdd(a: nat, b: nat)
    ensures Odd(a + b) == (Odd(a) != Odd(b))
  {
  }
}

/** The block list of the heap as it lies in memory: headers with offsets of the next and the previous
    block.  Memory is what one would read as a header at each offset.  Headers that are less than eight bytes
    apart overlap, so writing one spoils the others. */
module Headers {
  import opened Blocks

  /** `struct mem` */
  datatype Header = Header(next: nat, prev: nat, used: bool)

  /** The offset of the block before block `i`; the first block points to itself. */
  function PrevOf(h: seq<Block>, i: nat): nat
    requires i < |h|
  {
    if i == 0 then h[0].start else h[i - 1].start
  }

  /** The header that block `i` should have. */
  function HeaderOf(h: seq<Block>, i: nat): Header
    requires i < |h|
  {
    Header(EndOf(h, i), PrevOf(h, i), h[i].used)
  }

  ghost predicate HeaderAt(mem: seq<Header>, h: seq<Block>, i: nat) {
    i < |h| && h[i].start < |mem| && mem[h[i].start] == HeaderOf(h, i)
  }

  /** Memory holds the list of blocks, and the sentinel at the end. */
  ghost predicate Holds(mem: seq<Header>, h: seq<Block>) {
    && |mem| == END + 1
    && Tiled(h)
    && (forall i: nat :: i < |h| ==> HeaderAt(mem, h, i))
    && mem[END] == Header(END, END, true)
  }

  lemma InOrder(h: seq<Block>, i: nat, j: nat)
    requires Tiled(h) && i <= j < |h|
    ensures h[i].start <= h[j].start && (i < j ==> h[i].start + HDR + MIN <= h[j].start)
    ensures h[j].start + HDR + MIN <= END
  {
  }

  /** The headers at `p` and `q` do not overlap. */
  predicate Apart(p: nat, q: nat) {
    p + HDR <= q || q + HDR <= p
  }

  /** `mem'` differs from `mem` at most where headers at the given offsets have been written. */
  ghost predicate SameBut(mem: seq<Header>, mem': seq<Header>, a: nat, b: nat, c: nat) {
    |mem'| == |mem| && forall q: nat :: q < |mem| && Apart(a, q) && Apart(b, q) && Apart(c, q) ==> mem'[q] == mem[q]
  }

  /** The block at `p` points back to `prev`; the sentinel is left alone. */
  ghost predicate LinkedBack(mem: seq<Header>, mem': seq<Header>, p: nat, prev: nat)
    requires p < |mem| == |mem'|
  {
    mem'[p] == if p == END then mem[p] else mem[p].(prev := prev)
  }

  // --- Splitting --------------------------------------------------------------------------------------------

  /** The stores that put a new free block at `p` between block `k` and the one after it. */
  ghost predicate SplitStores(mem: seq<Header>, mem': seq<Header>, h: seq<Block>, k: nat, p: nat) {
    && k < |h| && h[k].start + HDR <= p && p + HDR <= EndOf(h, k) <= END && |mem| == END + 1
    && SameBut(mem, mem', h[k].start, p, if EndOf(h, k) < END then EndOf(h, k) else p)
    && mem'[h[k].start] == mem[h[k].start].(next := p)
    && mem'[p] == Header(EndOf(h, k), h[k].start, false)
    && LinkedBack(mem, mem', EndOf(h, k), p)
  }

  lemma SplitHolds(mem: seq<Header>, mem': seq<Header>, h: seq<Block>, k: nat, p: nat)
    requires Holds(mem, h) && SplitStores(mem, mem', h, k, p)
    requires Aligned(p) && h[k].start + HDR + MIN <= p && p + HDR + MIN <= EndOf(h, k)
    ensures Holds(mem', Split(h, k, p))
  {
    SplitTiled(h, k, p);
    var g := Split(h, k, p);
    forall i: nat | i < |g| ensures HeaderAt(mem', g, i) {
      SplitHeader(mem, mem', h, k, p, i);
    }
  }

  lemma SplitHeader(mem: seq<Header>, mem': seq<Header>, h: seq<Block>, k: nat, p: nat, i: nat)
    requires Holds(mem, h) && SplitStores(mem, mem', h, k, p) && i <= |h|
    ensures HeaderAt(mem', Split(h, k, p), i)
  {
    hide Tiled;
    var g := Split(h, k, p);
    assert i != k + 1 ==> g[i] == h[if i <= k then i else i - 1] && HeaderAt(mem, h, if i <= k then i else i - 1);
    if i < k {
      InOrder(h, i, k);
      assert g[i + 1] == h[i + 1];
      assert i > 0 ==> g[i - 1] == h[i - 1];
    } else if i == k {
      assert k > 0 ==> g[k - 1] == h[k - 1];
    } else if i > k + 1 {
      InOrder(h, k + 1, i - 1);
      assert i > k + 2 ==> g[i - 1] == h[i - 2];
      assert i < |h| ==> g[i + 1] == h[i];
    }
  }

  // --- Joining ----------------------------------------------------------------------------------------------

  /** The stores that take the block after block `k` out of the list. */
  ghost predicate JoinStores(mem: seq<Header>, mem': seq<Header>, h: seq<Block>, k: nat) {
    && k + 1 < |h| && h[k].start < h[k + 1].start < EndOf(h, k + 1) <= END && |mem| == END + 1
    && SameBut(mem, mem', h[k].start, h[k].start, if EndOf(h, k + 1) < END then EndOf(h, k + 1) else h[k].start)
    && mem'[h[k].start] == mem[h[k].start].(next := EndOf(h, k + 1))
    && LinkedBack(mem, mem', EndOf(h, k + 1), h[k].start)
  }

  lemma JoinHolds(mem: seq<Header>, mem': seq<Header>, h: seq<Block>, k: nat)
    requires Holds(mem, h) && JoinStores(mem, mem', h, k)
    ensures Holds(mem', Join(h, k))
  {
    JoinTiled(h, k);
    var g := Join(h, k);
    forall i: nat | i < |g| ensures HeaderAt(mem', g, i) {
      JoinHeader(mem, mem', h, k, i);
    }
  }

  lemma JoinHeader(mem: seq<Header>, mem': seq<Header>, h: seq<Block>, k: nat, i: nat)
    requires Holds(mem, h) && JoinStores(mem, mem', h, k) && i + 1 < |h|
    ensures HeaderAt(mem', Join(h, k), i)
  {
    hide Tiled;
    var g := Join(h, k);
    assert g[i] == h[if i <= k then i else i + 1] && HeaderAt(mem, h, if i <= k then i else i + 1);
    if i < k {
      InOrder(h, i, k);
      assert g[i + 1] == h[i + 1];
      assert i > 0 ==> g[i - 1] == h[i - 1];
    } else if i == k {
      assert k > 0 ==> g[k - 1] == h[k - 1];
      assert k + 2 < |h| ==> g[k + 1] == h[k + 2];
    } else {
      InOrder(h, k + 2, i + 1);
      assert i > k + 1 ==> g[i - 1] == h[i];
      assert i + 2 < |h| ==> g[i + 1] == h[i + 2];
    }
  }

  // --- Moving -----------------------------------------------------------------------------------------------

  /** The stores that move the free block after block `k` down to `p`. */
  ghost predicate MoveStores(mem: seq<Header>, mem': seq<Header>, h: seq<Block>, k: nat, p: nat) {
    && k + 1 < |h| && h[k].start < p <= h[k + 1].start < EndOf(h, k + 1) <= END && |mem| == END + 1
    && SameBut(mem, mem', h[k].start, p, if EndOf(h, k + 1) < END then EndOf(h, k + 1) else p)
    && mem'[h[k].start] == mem[h[k].start].(next := p)
    && mem'[p] == Header(EndOf(h, k + 1), h[k].start, false)
    && LinkedBack(mem, mem', EndOf(h, k + 1), p)
  }

  lemma MoveHolds(mem: seq<Header>, mem': seq<Header>, h: seq<Block>, k: nat, p: nat)
    requires Holds(mem, h) && MoveStores(mem, mem', h, k, p)
    requires Aligned(p) && h[k].start + HDR + MIN <= p
    ensures Holds(mem', h[k + 1 := Block(p, false)])
  {
    MoveTiled(h, k, p);
    var g := h[k + 1 := Block(p, false)];
    forall i: nat | i < |g| ensures HeaderAt(mem', g, i) {
      MoveHeader(mem, mem', h, k, p, i);
    }
  }

  lemma MoveHeader(mem: seq<Header>, mem': seq<Header>, h: seq<Block>, k: nat, p: nat, i: nat)
    requires Holds(mem, h) && MoveStores(mem, mem', h, k, p) && i < |h|
    ensures HeaderAt(mem', h[k + 1 := Block(p, false)], i)
  {
    hide Tiled;
    assert HeaderAt(mem, h, i);
    if i < k {
      InOrder(h, i, k);
    } else if i > k + 1 {
      InOrder(h, k + 2, i);
    }
  }

  // --- Marking ----------------------------------------------------------------------------------------------

  lemma MarkHolds(mem: seq<Header>, mem': seq<Header>, h: seq<Block>, k: nat, used: bool)
    requires Holds(mem, h) && k < |h| && SameBut(mem, mem', h[k].start, h[k].start, h[k].start)
    requires mem'[h[k].start] == mem[h[k].start].(used := used)
    ensures Holds(mem', h[k := Block(h[k].start, used)])
  {
    MarkTiled(h, k, used);
    var g := h[k := Block(h[k].start, used)];
    hide Tiled;
    InOrder(h, k, k);
    forall i: nat | i < |g| ensures HeaderAt(mem', g, i) {
      assert HeaderAt(mem, h, i);
      InOrder(h, if i < k then i else k, if i < k then k else i);
    }
  }

  // --- What headers leave alone -------------------------------------------------------------------------------

  function Starts(h: seq<Block>): set<nat> {
    set i: nat | i < |h| :: h[i].start
  }

  /** The header of a block lies outside all regions that are in use. */
  lemma HeadersOutside(h: seq<Block>, p: nat, r: (nat, nat), x: nat)
    requires Tiled(h) && p in Starts(h) && r in Live(h) && r.0 <= x < r.1
    ensures !(p <= x < p + HDR)
  {
    var i: nat :| i < |h| && h[i].start == p;
    var j: nat :| j < |h| && h[j].used && Region(h, j) == r;
    InOrder(h, if i < j then i else j, if i < j then j else i);
    if j < i {
      InOrder(h, j + 1, i);
    }
  }

  /** A byte that is in use before and after an operation is under no header that the operation may write. */
  lemma BytesInUseAreKept(h: seq<Block>, g: seq<Block>, p: nat, a: (nat, nat), b: (nat, nat), x: nat)
    requires Tiled(h) && Tiled(g) && p in Starts(h) + Starts(g)
    requires a in Live(h) && a.0 <= x < a.1 && b in Live(g) && b.0 <= x < b.1
    ensures !(p <= x < p + HDR)
  {
    if p in Starts(h) {
      HeadersOutside(h, p, a, x);
    } else {
      HeadersOutside(g, p, b, x);
    }
  }

  lemma StartsOf(h: seq<Block>, k: nat)
    requires k < |h|
    ensures h[k].start in Starts(h) && (EndOf(h, k) < END ==> k + 1 >= |h| || EndOf(h, k) in Starts(h))
    ensures forall used :: Starts(h[k := Block(h[k].start, used)]) == Starts(h)
    ensures k + 1 < |h| ==> Starts(Join(h, k)) <= Starts(h)
    ensures forall p :: Starts(Split(h, k, p)) == Starts(h) + {p}
    ensures forall p :: k + 1 < |h| ==> p in Starts(h[k + 1 := Block(p, false)])
  {
    assert h[k].start in Starts(h);
    assert k + 1 < |h| ==> h[k + 1].start in Starts(h);
    forall used ensures Starts(h[k := Block(h[k].start, used)]) == Starts(h) {
      var g := h[k := Block(h[k].start, used)];
      assert forall i: nat :: i < |h| ==> g[i].start == h[i].start;
    }
    forall p ensures Starts(Split(h, k, p)) == Starts(h) + {p} {
      SplitStarts(h, k, p);
    }
    forall p | k + 1 < |h| ensures p in Starts(h[k + 1 := Block(p, false)]) {
      assert h[k + 1 := Block(p, false)][k + 1].start == p;
    }
  }

  lemma SplitStarts(h: seq<Block>, k: nat, p: nat)
    requires k < |h|
    ensures Starts(Split(h, k, p)) == Starts(h) + {p}
  {
    var g := Split(h, k, p);
    assert g[k + 1].start == p;
    forall i: nat | i < |h| ensures h[i].start in Starts(g) {
      assert g[if i <= k then i else i + 1] == h[i];
    }
  }
}

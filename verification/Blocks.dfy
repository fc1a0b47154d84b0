/** The blocks of the lwIP heap as a value: what `mem_malloc`, `mem_free` and `mem_trim` do to the list
    of blocks, and what every run of them keeps.

    Sizes are those of this build: a heap of 32768 bytes, headers of 8 bytes, at least 12 bytes of data
    in a block, alignment to 4 bytes, and 16-bit `mem_size_t`. */
module Blocks {

  const END: nat := 32768
  const HDR: nat := 8
  const MIN: nat := 12

  /** A block starts with its header and reaches to the next block or the end of the heap. */
  datatype Block = Block(start: nat, used: bool)

  function EndOf(h: seq<Block>, i: nat): nat
    requires i < |h|
  {
    if i + 1 < |h| then h[i + 1].start else END
  }

  /** The user data size of a block. */
  function Room(h: seq<Block>, i: nat): int
    requires i < |h|
  {
    EndOf(h, i) - h[i].start - HDR
  }

  predicate Aligned(p: nat) {
    p % 4 == 0
  }

  /** Blocks tile the heap in order; they are aligned and large enough. */
  ghost predicate Tiled(h: seq<Block>) {
    && h != [] && h[0].start == 0
    && (forall i :: 0 <= i < |h| ==> Aligned(h[i].start) && h[i].start + HDR + MIN <= END)
    && (forall i, j :: 0 <= i < j < |h| ==> h[i].start + HDR + MIN <= h[j].start)
  }

  /** No two free blocks are adjacent. */
  ghost predicate Plugged(h: seq<Block>) {
    forall i, j :: 0 <= i && j == i + 1 && j < |h| ==> h[i].used || h[j].used
  }

  ghost predicate WellFormed(h: seq<Block>) {
    Tiled(h) && Plugged(h)
  }

  const INITIAL: seq<Block> := [Block(0, false)]

  // --- Sizes ------------------------------------------------------------------------------------------------

  /** The size that a request is expanded to, as a 16-bit value that may have wrapped around. */
  function Adjusted(sizeIn: nat): nat
    requires sizeIn <= 0xffff
  {
    var size := (sizeIn + 3) / 4 * 4 % 0x10000;
    if size < MIN then MIN else size
  }

  /** The test that rejects requests that are too large or have wrapped around. */
  predicate Acceptable(sizeIn: nat)
    requires sizeIn <= 0xffff
  {
    Adjusted(sizeIn) <= END && Adjusted(sizeIn) >= sizeIn
  }

  /** An accepted request is never cut down by wrap-around, and every request that could be met is
      accepted. */
  lemma AcceptableIsLargeEnough(sizeIn: nat)
    requires sizeIn <= 0xffff
    ensures Acceptable(sizeIn) <==> sizeIn <= END
    ensures Acceptable(sizeIn) ==> sizeIn <= Adjusted(sizeIn) && Aligned(Adjusted(sizeIn)) && Adjusted(sizeIn) >= MIN
  {
  }

  /** Among the aligned sizes that are large enough, it is the least. */
  lemma AdjustedIsLeast(sizeIn: nat, size: nat)
    requires sizeIn <= 0xffff && Acceptable(sizeIn) && Aligned(size) && size >= MIN && size >= sizeIn
    ensures Adjusted(sizeIn) <= size
  {
  }

  // --- Allocation -------------------------------------------------------------------------------------------

  predicate Fits(h: seq<Block>, i: nat, size: nat)
    requires i < |h|
  {
    !h[i].used && Room(h, i) >= size
  }

  /** The first block from `i` on that can hold `size` bytes. */
  function FirstFit(h: seq<Block>, size: nat, i: nat): (k: nat)
    requires i <= |h|
    ensures i <= k <= |h|
    ensures k < |h| ==> Fits(h, k, size)
    ensures forall j :: i <= j < k ==> !Fits(h, j, size)
    decreases |h| - i
  {
    if i == |h| || Fits(h, i, size) then i else FirstFit(h, size, i + 1)
  }

  /** A new free block at `p`, inside block `k`. */
  function Split(h: seq<Block>, k: nat, p: nat): seq<Block>
    requires k < |h|
  {
    h[..k + 1] + [Block(p, false)] + h[k + 1..]
  }

  /** Block `k` becomes used; what it does not need is split off if that makes a block. */
  function Allocate(h: seq<Block>, k: nat, size: nat): seq<Block>
    requires k < |h|
  {
    var g := h[k := Block(h[k].start, true)];
    if Room(h, k) >= size + HDR + MIN then Split(g, k, h[k].start + HDR + size) else g
  }

  // --- Release ----------------------------------------------------------------------------------------------

  /** Block `k` joined to the block after it. */
  function Join(h: seq<Block>, k: nat): seq<Block>
    requires k + 1 < |h|
  {
    h[..k + 1] + h[k + 2..]
  }

  function PlugForward(h: seq<Block>, k: nat): seq<Block>
    requires k < |h|
  {
    if k + 1 < |h| && !h[k + 1].used then Join(h, k) else h
  }

  function PlugBackward(h: seq<Block>, k: nat): seq<Block>
    requires k < |h|
  {
    if k > 0 && !h[k - 1].used then Join(h, k - 1) else h
  }

  /** Block `k` becomes free and is joined to free neighbours. */
  function Release(h: seq<Block>, k: nat): seq<Block>
    requires k < |h|
  {
    PlugBackward(PlugForward(h[k := Block(h[k].start, false)], k), k)
  }

  // --- Trimming -----------------------------------------------------------------------------------------------

  /** Block `k` shrinks to `size` bytes of data: a free block after it grows down, or a new one is made
      if there is room for it. */
  function Trim(h: seq<Block>, k: nat, size: nat): seq<Block>
    requires k < |h|
  {
    var ptr2 := h[k].start + HDR + size;
    if size >= Room(h, k) then h
    else if k + 1 < |h| && !h[k + 1].used then h[k + 1 := Block(ptr2, false)]
    else if size + HDR + MIN <= Room(h, k) then Split(h, k, ptr2)
    else h
  }

  // --- The list of blocks stays well formed ---------------------------------------------------------------------

  lemma SplitTiled(h: seq<Block>, k: nat, p: nat)
    requires Tiled(h) && k < |h| && Aligned(p) && h[k].start + HDR + MIN <= p && p + HDR + MIN <= EndOf(h, k)
    ensures Tiled(Split(h, k, p))
  {
    var g := Split(h, k, p);
    assert forall i :: 0 <= i < |g| ==> g[i] == if i <= k then h[i] else if i == k + 1 then Block(p, false) else h[i - 1];
    forall i | 0 <= i <= k ensures h[i].start + HDR + MIN <= p {
      assert i < k ==> h[i].start <= h[k].start;
    }
    forall i | k < i < |h| ensures p + HDR + MIN <= h[i].start {
      assert k + 1 < i ==> h[k + 1].start <= h[i].start;
    }
  }

  lemma JoinTiled(h: seq<Block>, k: nat)
    requires Tiled(h) && k + 1 < |h|
    ensures Tiled(Join(h, k))
  {
    var g := Join(h, k);
    assert forall i :: 0 <= i < |g| ==> g[i] == if i <= k then h[i] else h[i + 1];
  }

  lemma AllocateKeeps(h: seq<Block>, k: nat, size: nat)
    requires WellFormed(h) && k < |h| && Fits(h, k, size) && Aligned(size) && size >= MIN
    ensures WellFormed(Allocate(h, k, size))
  {
    hide Tiled, Plugged, Aligned, Split;
    var g := h[k := Block(h[k].start, true)];
    var p := h[k].start + HDR + size;
    MarkTiled(h, k, true);
    MarkPlugged(h, k);
    StartIsAligned(h, k);
    AlignedSum(h[k].start, size);
    if Room(h, k) >= size + HDR + MIN {
      SplitTiled(g, k, p);
      SplitPlugged(g, k, p);
    }
  }

  lemma MarkPlugged(h: seq<Block>, k: nat)
    requires Plugged(h) && k < |h| && !h[k].used
    ensures Plugged(h[k := Block(h[k].start, true)]) && (k + 1 < |h| ==> h[k + 1].used)
  {
  }

  lemma StartIsAligned(h: seq<Block>, k: nat)
    requires Tiled(h) && k < |h|
    ensures Aligned(h[k].start)
  {
  }

  lemma MarkTiled(h: seq<Block>, k: nat, used: bool)
    requires Tiled(h) && k < |h|
    ensures Tiled(h[k := Block(h[k].start, used)])
  {
    hide Aligned;
    var g := h[k := Block(h[k].start, used)];
    assert forall i :: 0 <= i < |h| ==> g[i].start == h[i].start;
  }

  lemma AlignedSum(a: nat, b: nat)
    requires Aligned(a) && Aligned(b)
    ensures Aligned(a + HDR + b)
  {
  }

  lemma SplitPlugged(h: seq<Block>, k: nat, p: nat)
    requires Plugged(h) && k < |h| && h[k].used && (k + 1 < |h| ==> h[k + 1].used)
    ensures Plugged(Split(h, k, p))
  {
    var g := Split(h, k, p);
    assert forall i :: 0 <= i < |g| ==> g[i] == if i <= k then h[i] else if i == k + 1 then Block(p, false) else h[i - 1];
  }

  lemma ReleaseKeeps(h: seq<Block>, k: nat)
    requires WellFormed(h) && k < |h| && h[k].used
    ensures WellFormed(Release(h, k))
  {
    var h1 := h[k := Block(h[k].start, false)];
    var h2 := PlugForward(h1, k);
    if k + 1 < |h| && !h[k + 1].used {
      JoinTiled(h1, k);
    }
    if k > 0 && !h[k - 1].used {
      JoinTiled(h2, k - 1);
    }
    ReleasePlugged(h, k);
  }

  lemma ReleasePlugged(h: seq<Block>, k: nat)
    requires Plugged(h) && k < |h| && h[k].used
    ensures Plugged(Release(h, k))
  {
    var h1 := h[k := Block(h[k].start, false)];
    ForwardPlugged(h1, k);
    BackwardPlugged(PlugForward(h1, k), k);
  }

  /** Only the pair of blocks `k - 1` and `k` may both be free. */
  ghost predicate PluggedBut(h: seq<Block>, k: nat) {
    forall i, j :: 0 <= i && j == i + 1 && j < |h| && j != k ==> h[i].used || h[j].used
  }

  lemma ForwardPlugged(h: seq<Block>, k: nat)
    requires k < |h| && !h[k].used
    requires forall i, j :: 0 <= i && j == i + 1 && j < |h| && i != k && j != k ==> h[i].used || h[j].used
    ensures PluggedBut(PlugForward(h, k), k) && k < |PlugForward(h, k)| && !PlugForward(h, k)[k].used
  {
    var g := PlugForward(h, k);
    if k + 1 < |h| && !h[k + 1].used {
      assert forall i :: 0 <= i < |g| ==> g[i] == if i <= k then h[i] else h[i + 1];
    }
  }

  lemma BackwardPlugged(h: seq<Block>, k: nat)
    requires k < |h| && !h[k].used && PluggedBut(h, k)
    ensures Plugged(PlugBackward(h, k))
  {
    var g := PlugBackward(h, k);
    if k > 0 && !h[k - 1].used {
      assert forall i :: 0 <= i < |g| ==> g[i] == if i < k then h[i] else h[i + 1];
    }
  }

  lemma TrimKeeps(h: seq<Block>, k: nat, size: nat)
    requires WellFormed(h) && k < |h| && h[k].used && Aligned(size) && size >= MIN
    ensures WellFormed(Trim(h, k, size))
  {
    hide Tiled, Plugged, Aligned, Split;
    var p := h[k].start + HDR + size;
    StartIsAligned(h, k);
    AlignedSum(h[k].start, size);
    if k + 1 < |h| && !h[k + 1].used {
      MovePlugged(h, k, p);
    }
    if size < Room(h, k) {
      if k + 1 < |h| && !h[k + 1].used {
        MoveTiled(h, k, p);
      } else if size + HDR + MIN <= Room(h, k) {
        SplitTiled(h, k, p);
        SplitPlugged(h, k, p);
      }
    }
  }

  lemma MovePlugged(h: seq<Block>, k: nat, p: nat)
    requires Plugged(h) && k + 1 < |h| && !h[k + 1].used
    ensures Plugged(h[k + 1 := Block(p, false)])
  {
  }

  /** Moving the start of a block down, not below the data of the block before it. */
  lemma MoveTiled(h: seq<Block>, k: nat, p: nat)
    requires Tiled(h) && k + 1 < |h| && Aligned(p) && h[k].start + HDR + MIN <= p <= h[k + 1].start
    ensures Tiled(h[k + 1 := Block(p, false)])
  {
    forall i | 0 <= i <= k ensures h[i].start + HDR + MIN <= p {
      assert i < k ==> h[i].start <= h[k].start;
    }
  }

  // --- Live regions -------------------------------------------------------------------------------------------

  /** The data of block `i`: from the address given to the user to the end of the block. */
  function Region(h: seq<Block>, i: nat): (nat, nat)
    requires i < |h|
  {
    (h[i].start + HDR, EndOf(h, i))
  }

  /** The regions that users hold. */
  function Live(h: seq<Block>): set<(nat, nat)> {
    set i: nat | i < |h| && h[i].used :: Region(h, i)
  }

  /** The regions that users hold, apart from that of block `k`. */
  function LiveBut(h: seq<Block>, k: nat): set<(nat, nat)> {
    set i: nat | i < |h| && i != k && h[i].used :: Region(h, i)
  }

  lemma LiveWithout(h: seq<Block>, k: nat)
    requires Tiled(h) && k < |h|
    ensures Live(h) == LiveBut(h, k) + if h[k].used then {Region(h, k)} else {}
    ensures Region(h, k) !in LiveBut(h, k)
  {
    if h[k].used {
      assert Region(h, k) in Live(h);
    }
  }

  /** Splitting block `k` changes no region but its own. */
  lemma SplitLive(h: seq<Block>, k: nat, p: nat)
    requires k < |h|
    ensures LiveBut(Split(h, k, p), k) == LiveBut(h, k)
    ensures Region(Split(h, k, p), k) == (h[k].start + HDR, p)
  {
    var g := Split(h, k, p);
    assert |g| == |h| + 1 && g[k] == h[k] && g[k + 1] == Block(p, false);
    assert Region(g, k) == (h[k].start + HDR, p);
    hide Split, Region;
    forall i: nat | i < |g| && i != k && g[i].used ensures Region(g, i) in LiveBut(h, k) {
      SplitBlock(h, k, p, if i < k then i else i - 1);
    }
    forall i: nat | i < |h| && i != k && h[i].used ensures Region(h, i) in LiveBut(g, k) {
      SplitBlock(h, k, p, i);
    }
  }

  /** Block `i` of `h` is block `j` of `g`, with the same region. */
  ghost predicate SameBlock(h: seq<Block>, i: nat, g: seq<Block>, j: nat) {
    i < |h| && j < |g| && h[i].used == g[j].used && Region(h, i) == Region(g, j)
  }

  lemma SplitBlock(h: seq<Block>, k: nat, p: nat, i: nat)
    requires i < |h| && k < |h| && i != k
    ensures SameBlock(h, i, Split(h, k, p), if i < k then i else i + 1)
  {
  }

  lemma JoinBlock(h: seq<Block>, k: nat, i: nat)
    requires i < |h| && k + 1 < |h| && i != k && i != k + 1
    ensures SameBlock(h, i, Join(h, k), if i < k then i else i - 1)
  {
  }

  /** Joining two free blocks changes no live region. */
  lemma JoinLive(h: seq<Block>, k: nat)
    requires k + 1 < |h| && !h[k].used && !h[k + 1].used
    ensures Live(Join(h, k)) == Live(h)
  {
    var g := Join(h, k);
    assert |g| == |h| - 1 && g[k] == h[k];
    hide Join, Region;
    forall i: nat | i < |g| && g[i].used ensures Region(g, i) in Live(h) {
      JoinBlock(h, k, if i < k then i else i + 1);
    }
    forall i: nat | i < |h| && h[i].used ensures Region(h, i) in Live(g) {
      JoinBlock(h, k, i);
    }
  }

  lemma MoveLive(h: seq<Block>, k: nat, p: nat)
    requires k + 1 < |h| && !h[k + 1].used
    ensures LiveBut(h[k + 1 := Block(p, false)], k) == LiveBut(h, k)
    ensures Region(h[k + 1 := Block(p, false)], k) == (h[k].start + HDR, p)
  {
    var g := h[k + 1 := Block(p, false)];
    forall i: nat | i < |h| && i != k && h[i].used ensures Region(g, i) == Region(h, i) {
    }
  }

  lemma MarkLive(h: seq<Block>, k: nat, used: bool)
    requires k < |h|
    ensures LiveBut(h[k := Block(h[k].start, used)], k) == LiveBut(h, k)
  {
    var g := h[k := Block(h[k].start, used)];
    assert forall i: nat :: i < |h| ==> Region(g, i) == Region(h, i);
  }

  /** Live regions lie in the heap, are aligned, hold at least the minimum, and do not overlap. */
  lemma LiveDisjoint(h: seq<Block>, a: (nat, nat), b: (nat, nat))
    requires Tiled(h) && a in Live(h) && b in Live(h)
    ensures Aligned(a.0) && HDR <= a.0 && a.0 + MIN <= a.1 <= END
    ensures a == b || a.1 <= b.0 || b.1 <= a.0
  {
    var i: nat :| i < |h| && h[i].used && Region(h, i) == a;
    var j: nat :| j < |h| && h[j].used && Region(h, j) == b;
    assert i + 1 < j ==> h[i + 1].start <= h[j].start;
    assert j + 1 < i ==> h[j + 1].start <= h[i].start;
  }

  /** Allocation adds one region of the requested size, or of that of the whole block if the rest would be too small
      for a block of its own, and changes no other. */
  lemma AllocateLive(h: seq<Block>, k: nat, size: nat)
    requires WellFormed(h) && k < |h| && Fits(h, k, size) && Aligned(size) && size >= MIN
    ensures var g := Allocate(h, k, size);
      && k < |g| && Live(g) == Live(h) + {Region(g, k)} && Region(g, k) !in Live(h)
      && Region(g, k).0 == h[k].start + HDR
      && Region(g, k).1 - Region(g, k).0 == if Room(h, k) >= size + HDR + MIN then size else Room(h, k)
  {
    hide Tiled, Plugged, Aligned, Live, LiveBut, Allocate, Region;
    AllocateKeeps(h, k, size);
    AllocateRegion(h, k, size);
    LiveWithout(h, k);
    LiveWithout(Allocate(h, k, size), k);
  }

  lemma AllocateRegion(h: seq<Block>, k: nat, size: nat)
    requires k < |h| && Fits(h, k, size)
    ensures var g := Allocate(h, k, size);
      && k < |g| && g[k].used && LiveBut(g, k) == LiveBut(h, k)
      && Region(g, k).0 == h[k].start + HDR
      && Region(g, k).1 - Region(g, k).0 == if Room(h, k) >= size + HDR + MIN then size else Room(h, k)
  {
    hide LiveBut;
    var g := h[k := Block(h[k].start, true)];
    MarkLive(h, k, true);
    if Room(h, k) >= size + HDR + MIN {
      SplitLive(g, k, h[k].start + HDR + size);
    }
  }

  /** Release removes exactly the region of the block. */
  lemma ReleaseLive(h: seq<Block>, k: nat)
    requires WellFormed(h) && k < |h| && h[k].used
    ensures Live(Release(h, k)) == Live(h) - {Region(h, k)}
  {
    var h1 := h[k := Block(h[k].start, false)];
    MarkLive(h, k, false);
    LiveWithout(h, k);
    LiveWithout(h1, k);
    if k + 1 < |h| && !h[k + 1].used {
      JoinLive(h1, k);
    }
    if k > 0 && !h[k - 1].used {
      JoinLive(PlugForward(h1, k), k - 1);
    }
  }

  /** Trimming keeps the address of the region and at least the new size, and changes no other region.
      All of the rest is given back, unless it is too small for a block of its own. */
  lemma TrimLive(h: seq<Block>, k: nat, size: nat)
    requires WellFormed(h) && k < |h| && h[k].used && Aligned(size) && MIN <= size <= Room(h, k)
    ensures var g := Trim(h, k, size);
      && k < |g| && Live(g) == Live(h) - {Region(h, k)} + {Region(g, k)}
      && Region(g, k).0 == Region(h, k).0
      && Region(g, k).1 == if (k + 1 < |h| && !h[k + 1].used) || size + HDR + MIN <= Room(h, k)
                           then Region(h, k).0 + size else Region(h, k).1
  {
    hide Tiled, Plugged, Aligned, Live, LiveBut, Trim, Region, Room;
    TrimKeeps(h, k, size);
    TrimRegion(h, k, size);
    LiveWithout(h, k);
    LiveWithout(Trim(h, k, size), k);
  }

  lemma TrimRegion(h: seq<Block>, k: nat, size: nat)
    requires k < |h| && h[k].used && MIN <= size <= Room(h, k)
    ensures var g := Trim(h, k, size);
      && k < |g| && g[k].used && LiveBut(g, k) == LiveBut(h, k)
      && Region(g, k).0 == Region(h, k).0
      && Region(g, k).1 == if (k + 1 < |h| && !h[k + 1].used) || size + HDR + MIN <= Room(h, k)
                           then Region(h, k).0 + size else Region(h, k).1
  {
    hide LiveBut;
    var p := h[k].start + HDR + size;
    if size < Room(h, k) {
      if k + 1 < |h| && !h[k + 1].used {
        MoveLive(h, k, p);
      } else if size + HDR + MIN <= Room(h, k) {
        SplitLive(h, k, p);
      }
    }
  }

  /** Freeing a region right after it was allocated restores the list of blocks. */
  lemma ReleaseUndoesAllocate(h: seq<Block>, k: nat, size: nat)
    requires WellFormed(h) && k < |h| && Fits(h, k, size)
    ensures Release(Allocate(h, k, size), k) == h
  {
    var g := Allocate(h, k, size);
    var g1 := g[k := Block(g[k].start, false)];
    assert k + 1 < |h| ==> h[k + 1].used;
    assert PlugForward(g1, k) == h;
    assert k > 0 ==> h[k - 1].used;
  }

  // --- Whole runs -----------------------------------------------------------------------------------------------

  type u16 = n: nat | n <= 0xffff

  datatype Op = Malloc(sizeIn: u16) | Free(p: nat) | Shrink(p: nat, newSize: u16)

  /** The block whose data starts at `p`, from `i` on. */
  function Find(h: seq<Block>, p: nat, i: nat): (k: nat)
    requires i <= |h|
    ensures i <= k <= |h| && (k < |h| ==> h[k].start + HDR == p)
    ensures forall j :: i <= j < k ==> h[j].start + HDR != p
    decreases |h| - i
  {
    if i == |h| || h[i].start + HDR == p then i else Find(h, p, i + 1)
  }

  function Step(h: seq<Block>, op: Op): seq<Block> {
    match op
    case Malloc(sizeIn) =>
      if sizeIn == 0 || !Acceptable(sizeIn) then h
      else
        var k := FirstFit(h, Adjusted(sizeIn), 0);
        if k == |h| then h else Allocate(h, k, Adjusted(sizeIn))
    case Free(p) =>
      var k := Find(h, p, 0);
      if k < |h| && h[k].used then Release(h, k) else h
    case Shrink(p, newSize) =>
      var k := Find(h, p, 0);
      if k < |h| && h[k].used && Acceptable(newSize) then Trim(h, k, Adjusted(newSize)) else h
  }

  function Run(ops: seq<Op>): seq<Block> {
    if ops == [] then INITIAL else Step(Run(ops[..|ops| - 1]), ops[|ops| - 1])
  }

  lemma StepKeeps(h: seq<Block>, op: Op)
    requires WellFormed(h)
    ensures WellFormed(Step(h, op))
  {
    match op
    case Malloc(sizeIn) =>
      AcceptableIsLargeEnough(sizeIn);
      var k := FirstFit(h, Adjusted(sizeIn), 0);
      if sizeIn != 0 && Acceptable(sizeIn) && k < |h| {
        AllocateKeeps(h, k, Adjusted(sizeIn));
      }
    case Free(p) =>
      var k := Find(h, p, 0);
      if k < |h| && h[k].used {
        ReleaseKeeps(h, k);
      }
    case Shrink(p, newSize) =>
      AcceptableIsLargeEnough(newSize);
      var k := Find(h, p, 0);
      if k < |h| && h[k].used && Acceptable(newSize) {
        TrimKeeps(h, k, Adjusted(newSize));
      }
  }

  /** Every run keeps the heap well formed. */
  lemma {:induction false} RunKeeps(ops: seq<Op>)
    ensures WellFormed(Run(ops))
  {
    if ops != [] {
      RunKeeps(ops[..|ops| - 1]);
      StepKeeps(Run(ops[..|ops| - 1]), ops[|ops| - 1]);
    }
  }

  lemma UsedIsLive(h: seq<Block>, i: nat)
    requires i < |h| && h[i].used
    ensures Live(h) != {}
  {
    assert Region(h, i) in Live(h);
  }

  function SomeUsed(h: seq<Block>): (i: nat)
    requires Plugged(h) && |h| > 1
    ensures i < |h| && h[i].used
  {
    if h[0].used then 0 else 1
  }

  /** A well-formed heap without live regions is the one block of `mem_init`. */
  lemma NothingLive(h: seq<Block>)
    requires WellFormed(h) && Live(h) == {}
    ensures h == INITIAL
  {
    if |h| > 1 {
      UsedIsLive(h, SomeUsed(h));
    } else if h[0].used {
      UsedIsLive(h, 0);
    }
  }

  /** However a run went, once all regions have been freed the heap is as it was at the start. */
  lemma RunConserves(ops: seq<Op>)
    requires Live(Run(ops)) == {}
    ensures Run(ops) == INITIAL
  {
    RunKeeps(ops);
    NothingLive(Run(ops));
  }
}

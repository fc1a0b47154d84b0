/** How much of the heap is given to whom: over all runs, regions are hardly larger than what was asked for. */
module HeapSizes {
  import opened Blocks

  /** The size last asked for, rounded up, for each region in use; by the address given to the user. */
  type Sizes = map<nat, nat>

  function Asked(h: seq<Block>, sizes: Sizes, op: Op): Sizes {
    match op
    case Malloc(sizeIn) =>
      var k := FirstFit(h, Adjusted(sizeIn), 0);
      if sizeIn == 0 || !Acceptable(sizeIn) || k == |h| then sizes else sizes[h[k].start + HDR := Adjusted(sizeIn)]
    case Free(p) => sizes - {p}
    case Shrink(p, newSize) =>
      var k := Find(h, p, 0);
      if k < |h| && h[k].used && Acceptable(newSize) && Adjusted(newSize) <= Room(h, k) then sizes[p := Adjusted(newSize)]
      else sizes
  }

  function RunSizes(ops: seq<Op>): Sizes {
    if ops == [] then map[] else Asked(Run(ops[..|ops| - 1]), RunSizes(ops[..|ops| - 1]), ops[|ops| - 1])
  }

  function Starts(rs: set<(nat, nat)>): set<nat> {
    set r | r in rs :: r.0
  }

  ghost predicate SnugRegion(sizes: Sizes, r: (nat, nat)) {
    r.0 in sizes && sizes[r.0] <= r.1 - r.0 < sizes[r.0] + HDR + MIN
  }

  /** Every region is as large as asked for, and exceeds that by less than what would make a block. */
  ghost predicate Snug(h: seq<Block>, sizes: Sizes) {
    sizes.Keys == Starts(Live(h)) && forall r :: r in Live(h) ==> SnugRegion(sizes, r)
  }

  lemma StartsDiffer(h: seq<Block>, a: (nat, nat), b: (nat, nat))
    requires WellFormed(h) && a in Live(h) && b in Live(h) && a.0 == b.0
    ensures a == b
  {
    LiveDisjoint(h, a, b);
    LiveDisjoint(h, b, a);
  }

  lemma MallocSnug(h: seq<Block>, sizes: Sizes, sizeIn: u16)
    requires WellFormed(h) && Snug(h, sizes)
    ensures Snug(Step(h, Malloc(sizeIn)), Asked(h, sizes, Malloc(sizeIn)))
  {
    hide Live, Allocate, Adjusted, Tiled, Plugged;
    AcceptableIsLargeEnough(sizeIn);
    var size := Adjusted(sizeIn);
    var k := FirstFit(h, size, 0);
    if sizeIn != 0 && Acceptable(sizeIn) && k < |h| {
      var g := Allocate(h, k, size);
      AllocateKeeps(h, k, size);
      AllocateLive(h, k, size);
      AddedSnug(h, g, sizes, Region(g, k), size);
    }
  }

  lemma AddedSnug(h: seq<Block>, g: seq<Block>, sizes: Sizes, r: (nat, nat), size: nat)
    requires WellFormed(g) && Snug(h, sizes) && Live(g) == Live(h) + {r} && r !in Live(h)
    requires size <= r.1 - r.0 < size + HDR + MIN
    ensures Snug(g, sizes[r.0 := size])
  {
    hide Live, WellFormed;
    forall x | x in Live(g) ensures SnugRegion(sizes[r.0 := size], x) {
      if x != r && x.0 == r.0 {
        StartsDiffer(g, x, r);
      }
    }
    assert Starts(Live(g)) == Starts(Live(h)) + {r.0};
  }

  lemma RemovedSnug(h: seq<Block>, g: seq<Block>, sizes: Sizes, r: (nat, nat))
    requires WellFormed(h) && Snug(h, sizes) && r in Live(h) && Live(g) == Live(h) - {r}
    ensures Snug(g, sizes - {r.0})
  {
    hide Live, WellFormed;
    forall x | x in Live(g) ensures x.0 != r.0 {
      if x.0 == r.0 {
        StartsDiffer(h, x, r);
      }
    }
    assert Starts(Live(g)) == Starts(Live(h)) - {r.0};
  }

  lemma FreeSnug(h: seq<Block>, sizes: Sizes, p: nat)
    requires WellFormed(h) && Snug(h, sizes)
    ensures Snug(Step(h, Free(p)), Asked(h, sizes, Free(p)))
  {
    var k := Find(h, p, 0);
    if k < |h| && h[k].used {
      ReleaseLive(h, k);
      RegionIsLive(h, k);
      hide Live, Release, Tiled, Plugged;
      RemovedSnug(h, Release(h, k), sizes, Region(h, k));
    } else {
      NotInUse(h, p);
      assert sizes - {p} == sizes;
    }
  }

  lemma RegionIsLive(h: seq<Block>, k: nat)
    requires k < |h| && h[k].used
    ensures Region(h, k) in Live(h)
  {
  }

  lemma NotInUse(h: seq<Block>, p: nat)
    requires Tiled(h) && (Find(h, p, 0) == |h| || !h[Find(h, p, 0)].used)
    ensures p !in Starts(Live(h))
  {
    forall i: nat | i < |h| && h[i].used ensures h[i].start + HDR != p {
      var k := Find(h, p, 0);
      assert i < k ==> h[i].start + HDR != p;
    }
  }

  lemma ShrinkSnug(h: seq<Block>, sizes: Sizes, p: nat, newSize: u16)
    requires WellFormed(h) && Snug(h, sizes)
    ensures Snug(Step(h, Shrink(p, newSize)), Asked(h, sizes, Shrink(p, newSize)))
  {
    hide Live, Adjusted, Tiled, Plugged, Aligned;
    AcceptableIsLargeEnough(newSize);
    var size, k := Adjusted(newSize), Find(h, p, 0);
    if k < |h| && h[k].used && Acceptable(newSize) && size <= Room(h, k) {
      var g := Trim(h, k, size);
      TrimKeeps(h, k, size);
      TrimLive(h, k, size);
      RegionIsLive(h, k);
      TrimmedSnug(h, g, sizes, Region(h, k), Region(g, k), size);
    }
  }

  lemma TrimmedSnug(h: seq<Block>, g: seq<Block>, sizes: Sizes, r: (nat, nat), r': (nat, nat), size: nat)
    requires WellFormed(h) && WellFormed(g) && Snug(h, sizes)
    requires r in Live(h) && Live(g) == Live(h) - {r} + {r'} && r'.0 == r.0 && size <= r'.1 - r'.0 < size + HDR + MIN
    ensures Snug(g, sizes[r.0 := size])
  {
    hide Live, WellFormed;
    forall x | x in Live(g) ensures SnugRegion(sizes[r.0 := size], x) {
      if x != r' && x.0 == r.0 {
        StartsDiffer(h, x, r);
      }
    }
    assert Starts(Live(g)) == Starts(Live(h));
  }

  /** In every run of allocations, releases and shrinks, each region in use is as large as last asked for, and exceeds
      that by less than a header and the least data of a block. */
  lemma {:induction false} RunIsSnug(ops: seq<Op>)
    ensures Snug(Run(ops), RunSizes(ops))
  {
    hide Step, Asked, Snug;
    if ops == [] {
      NothingAsked();
    } else {
      var before, op := ops[..|ops| - 1], ops[|ops| - 1];
      RunIsSnug(before);
      RunKeeps(before);
      match op
      case Malloc(sizeIn) => MallocSnug(Run(before), RunSizes(before), sizeIn);
      case Free(p) => FreeSnug(Run(before), RunSizes(before), p);
      case Shrink(p, newSize) => ShrinkSnug(Run(before), RunSizes(before), p, newSize);
    }
  }

  lemma NothingAsked()
    ensures Snug(INITIAL, map[])
  {
    assert Live(INITIAL) == {};
  }

  // --- The whole heap ---------------------------------------------------------------------------------------------

  /** The data bytes of the first `n` blocks that are in use, or not. */
  function Bytes(h: seq<Block>, used: bool, n: nat): int
    requires n <= |h|
  {
    if n == 0 then 0 else Bytes(h, used, n - 1) + if h[n - 1].used == used then Room(h, n - 1) else 0
  }

  lemma {:induction false} BytesUpTo(h: seq<Block>, n: nat)
    requires Tiled(h) && n <= |h|
    ensures Bytes(h, true, n) + Bytes(h, false, n) + n * HDR == if n < |h| then h[n].start else END
  {
    if n > 0 {
      BytesUpTo(h, n - 1);
    }
  }

  /** Headers, regions in use and free room make up the heap. */
  lemma HeapAddsUp(ops: seq<Op>)
    ensures var h := Run(ops); Bytes(h, true, |h|) + Bytes(h, false, |h|) + |h| * HDR == END
  {
    RunKeeps(ops);
    BytesUpTo(Run(ops), |Run(ops)|);
  }
}

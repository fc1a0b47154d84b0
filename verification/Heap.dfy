/** The lwIP heap of `mem.c`: the block list updated in place, and what its functions do to it. */
module Heap {
  import opened Blocks
  import opened Headers

  datatype Pointer = Null | Ptr(offset: nat)

  /** Block `i` is free and has at least `size` bytes between its header and the next block or the end of the heap. */
  predicate HasRoom(h: seq<Block>, i: nat, size: nat)
    requires i < |h|
  {
    !h[i].used && h[i].start + 8 + size <= if i + 1 < |h| then h[i + 1].start else END
  }

  /** `p` is the lowest free block, which is block number `low`, or the end of the heap. */
  ghost predicate IsLowest(h: seq<Block>, low: nat, p: nat) {
    && low <= |h|
    && (forall j :: 0 <= j < low ==> h[j].used)
    && (if low < |h| then !h[low].used && p == h[low].start else p == END)
  }

  /** `p` is the lowest free block but for the free block `k` right before it. */
  ghost predicate IsSecond(h: seq<Block>, low: nat, p: nat, k: nat) {
    && low == k + 1 < |h| && !h[k].used && !h[low].used && p == h[low].start
    && (forall j :: 0 <= j < k ==> h[j].used)
  }

  class Heap {
    /** `ram[p]` is the `struct mem` at offset `p`. */
    const ram: array<Header>
    var lfree: nat

    ghost var blocks: seq<Block>
    ghost var low: nat
    /** where headers have been written since the heap was set up */
    ghost var written: set<nat>

    /** The list in memory is `blocks`, and `lfree` is its lowest free block. */
    ghost predicate Linked()
      reads this, ram
    {
      Holds(ram[..], blocks) && IsLowest(blocks, low, lfree)
    }

    ghost predicate Valid()
      reads this, ram
    {
      Linked() && WellFormed(blocks)
    }

    /** `mem_init` */
    constructor ()
      ensures Valid() && blocks == INITIAL && fresh(ram)
    {
      var mem := new Header[END + 1](_ => Header(0, 0, false));
      mem[0] := Header(END, 0, false);
      mem[END] := Header(END, END, true);
      ram := mem;
      lfree := 0;
      blocks, low, written := INITIAL, 0, {};
      new;
      assert HeaderAt(ram[..], INITIAL, 0);
    }

    /** Write a header.  What else would be read as a header from the same bytes is lost. */
    method Put(p: nat, x: Header)
      requires ram.Length == END + 1 && p < END
      modifies ram, this`written
      ensures ram[p] == x && SameBut(old(ram[..]), ram[..], p, p, p)
      ensures written == old(written) + {p}
    {
      for q := 0 to HDR
        invariant written == old(written)
        invariant forall i :: 0 <= i <= END && (i < p || p + q <= i) ==> ram[i] == old(ram[i])
      {
        if p + q <= END {
          var junk: Header := *;
          ram[p + q] := junk;
        }
      }
      for q := 1 to HDR
        invariant written == old(written)
        invariant forall i :: 0 <= i <= END && (i <= p - q || p + HDR <= i) ==> ram[i] == old(ram[i])
      {
        if q <= p {
          var junk: Header := *;
          ram[p - q] := junk;
        }
      }
      ram[p] := x;
      written := written + {p};
    }

    // --- Joining free blocks --------------------------------------------------------------------------------

    /** The first half of `plug_holes`.  It also makes `mem` the lowest free block if the block after it
        was taken for that. */
    method PlugForwardAt(mem: nat, ghost k: nat)
      requires Holds(ram[..], blocks) && k < |blocks| && blocks[k].start == mem && !blocks[k].used
      requires IsLowest(blocks, low, lfree) || IsSecond(blocks, low, lfree, k)
      modifies this, ram
      ensures Linked() && blocks == PlugForward(old(blocks), k)
      ensures Writes(old(written), written, old(blocks), blocks)
    {
      hide Holds, Starts, Tiled;
      OneBlock(ram[..], blocks, k);
      if k + 1 < |blocks| {
        OneBlock(ram[..], blocks, k + 1);
        LowestSame(blocks, low, k);
      }
      var nmem := ram[mem].next;
      if mem != nmem && !ram[nmem].used && nmem != END {
        if lfree == nmem {
          lfree, low := mem, k;
        }
        JoinInPlace(mem, nmem, k);
      }
    }

    /** The second half of `plug_holes`, likewise for the block before `mem`. */
    method PlugBackwardAt(mem: nat, ghost k: nat)
      requires Holds(ram[..], blocks) && k < |blocks| && blocks[k].start == mem && !blocks[k].used
      requires IsLowest(blocks, low, lfree) || (k > 0 && IsSecond(blocks, low, lfree, k - 1))
      modifies this, ram
      ensures Linked() && blocks == PlugBackward(old(blocks), k)
      ensures Writes(old(written), written, old(blocks), blocks)
    {
      hide Holds, Starts, Tiled;
      OneBlock(ram[..], blocks, k);
      if k > 0 {
        OneBlock(ram[..], blocks, k - 1);
        LowestSame(blocks, low, k - 1);
      }
      var pmem := ram[mem].prev;
      if pmem != mem && !ram[pmem].used {
        if lfree == mem {
          lfree, low := pmem, k - 1;
        }
        JoinInPlace(pmem, mem, k - 1);
      }
    }

    /** `plug_holes` */
    method PlugHoles(mem: nat, ghost k: nat)
      requires Holds(ram[..], blocks) && k < |blocks| && blocks[k].start == mem && !blocks[k].used
      requires IsLowest(blocks, low, lfree) || IsSecond(blocks, low, lfree, k)
      modifies this, ram
      ensures Linked() && blocks == PlugBackward(PlugForward(old(blocks), k), k)
      ensures Writes(old(written), written, old(blocks), blocks)
    {
      hide Holds, Starts, IsLowest, IsSecond;
      PlugForwardKeeps(blocks, k);
      StartsOf(blocks, k);
      PlugForwardAt(mem, k);
      StartsOf(blocks, k);
      PlugBackwardAt(mem, k);
    }

    // --- Freeing --------------------------------------------------------------------------------------------

    /** `mem_link_valid`: a block of the list is found to be linked correctly. */
    method MemLinkValid(mem: nat, ghost k: nat) returns (valid: bool)
      requires Holds(ram[..], blocks) && k < |blocks| && blocks[k].start == mem
      ensures valid
    {
      assert HeaderAt(ram[..], blocks, k);
      assert k > 0 ==> HeaderAt(ram[..], blocks, k - 1);
      assert k + 1 < |blocks| ==> HeaderAt(ram[..], blocks, k + 1);
      var nmem, pmem := ram[mem].next, ram[mem].prev;
      if nmem > END || pmem > END
         || (pmem != mem && ram[pmem].next != mem)
         || (nmem != END && ram[nmem].prev != mem) {
        return false;
      }
      return true;
    }

    /** `mem_free`: a pointer that `mem_malloc` returned is released; null, misaligned and foreign pointers
        and pointers to free blocks are ignored. */
    method MemFree(rmem: Pointer)
      requires Valid()
      requires rmem.Ptr? && Aligned(rmem.offset) && HDR <= rmem.offset && rmem.offset + MIN <= END ==>
        Find(blocks, rmem.offset, 0) < |blocks|
      modifies this, ram
      ensures Valid()
      ensures blocks == if rmem.Ptr? then Step(old(blocks), Free(rmem.offset)) else old(blocks)
      ensures Writes(old(written), written, old(blocks), blocks)
    {
      hide Holds, Tiled, Plugged, Starts, Release, PlugForward, PlugBackward;
      if rmem == Null {
        return;
      }
      ghost var k := Find(blocks, rmem.offset, 0);
      FoundIsLegal(blocks, rmem.offset);
      if rmem.offset % 4 != 0 {
        return;
      }
      if rmem.offset < HDR || rmem.offset + MIN > END {
        return;
      }
      var mem := rmem.offset - HDR;
      OneBlock(ram[..], blocks, k);
      if !ram[mem].used {
        return;
      }
      var valid := MemLinkValid(mem, k);
      if !valid {
        return;
      }
      ReleaseKeeps(blocks, k);
      ReleaseIs(blocks, k);
      StartsOf(blocks, k);
      MarkFree(mem, k);
      PlugHoles(mem, k);
    }

    /** The block at `mem` is now unused, and maybe the lowest such. */
    method MarkFree(mem: nat, ghost k: nat)
      requires Linked() && k < |blocks| && blocks[k].start == mem && blocks[k].used
      modifies this, ram
      ensures Linked() && blocks == old(blocks)[k := Block(mem, false)]
      ensures Writes(old(written), written, old(blocks), blocks)
    {
      ghost var h := blocks;
      assert HeaderAt(ram[..], h, k);
      InOrder(h, k, k);
      StartsOf(h, k);
      ghost var before := ram[..];
      Put(mem, ram[mem].(used := false));
      MarkHolds(before, ram[..], h, k, false);
      blocks := h[k := Block(mem, false)];
      LowestOrder(h, low, k);
      if mem < lfree {
        lfree, low := mem, k;
      }
    }

    /** Take the block at `second` out of the list; it becomes part of the block before it. */
    method JoinInPlace(first: nat, second: nat, ghost k: nat)
      requires Holds(ram[..], blocks) && k + 1 < |blocks| && blocks[k].start == first && blocks[k + 1].start == second
      modifies this`blocks, this`written, ram
      ensures Holds(ram[..], blocks) && blocks == Join(old(blocks), k)
      ensures Writes(old(written), written, old(blocks), blocks)
    {
      hide Holds, SameBut, Starts;
      ghost var mem0, h, end := ram[..], blocks, EndOf(blocks, k + 1);
      TwoBlocks(mem0, h, k);
      StartsOf(h, k);
      StartsOf(h, k + 1);
      Put(first, ram[first].(next := ram[second].next));
      ghost var mem1 := ram[..];
      Elsewhere(mem0, mem1, first, second);
      Elsewhere(mem0, mem1, first, end);
      if ram[second].next != END {
        Put(ram[second].next, ram[ram[second].next].(prev := first));
      }
      blocks := Join(h, k);
      JoinPuts(mem0, mem1, ram[..], h, k);
      JoinHolds(mem0, ram[..], h, k);
    }

    // --- Splitting ------------------------------------------------------------------------------------------

    /** Make a free block at `ptr2` between the block at `ptr` and the one after it. */
    method SplitInPlace(ptr: nat, ptr2: nat, ghost k: nat)
      requires Holds(ram[..], blocks) && k < |blocks| && blocks[k].start == ptr
      requires Aligned(ptr2) && ptr + HDR + MIN <= ptr2 && ptr2 + HDR + MIN <= EndOf(blocks, k)
      modifies this`blocks, this`written, ram
      ensures Holds(ram[..], blocks) && blocks == Split(old(blocks), k, ptr2)
      ensures Writes(old(written), written, old(blocks), blocks)
    {
      hide Holds, SameBut, Starts;
      ghost var mem0, h, end := ram[..], blocks, EndOf(blocks, k);
      OneBlock(mem0, h, k);
      StartsOf(h, k);
      Put(ptr2, Header(ram[ptr].next, ptr, false));
      ghost var mem1 := ram[..];
      Elsewhere(mem0, mem1, ptr2, ptr);
      Elsewhere(mem0, mem1, ptr2, end);
      Put(ptr, ram[ptr].(next := ptr2));
      ghost var mem2 := ram[..];
      Elsewhere(mem1, mem2, ptr, ptr2);
      Elsewhere(mem1, mem2, ptr, end);
      if ram[ptr2].next != END {
        Put(ram[ptr2].next, ram[ram[ptr2].next].(prev := ptr2));
      }
      blocks := Split(h, k, ptr2);
      ThreePuts(mem0, mem1, mem2, ram[..], ptr2, ptr, end);
      SplitHolds(mem0, ram[..], h, k, ptr2);
    }

    // --- Trimming -------------------------------------------------------------------------------------------

    /** Move the free block after the block at `ptr` down to `ptr2`. */
    method MoveInPlace(ptr: nat, ptr2: nat, ghost k: nat)
      requires Holds(ram[..], blocks) && k + 1 < |blocks| && blocks[k].start == ptr && !blocks[k + 1].used
      requires Aligned(ptr2) && ptr + HDR + MIN <= ptr2 <= blocks[k + 1].start
      modifies this`blocks, this`written, ram
      ensures Holds(ram[..], blocks) && blocks == old(blocks)[k + 1 := Block(ptr2, false)]
      ensures Writes(old(written), written, old(blocks), blocks)
    {
      hide Holds, SameBut, Starts;
      ghost var mem0, h, end := ram[..], blocks, EndOf(blocks, k + 1);
      TwoBlocks(mem0, h, k);
      StartsOf(h, k);
      StartsOf(h, k + 1);
      // the new header may lie over the old one, so `next` has to be saved first
      var next := ram[ram[ptr].next].next;
      Put(ptr2, Header(next, ptr, false));
      ghost var mem1 := ram[..];
      Elsewhere(mem0, mem1, ptr2, ptr);
      Elsewhere(mem0, mem1, ptr2, end);
      Put(ptr, ram[ptr].(next := ptr2));
      ghost var mem2 := ram[..];
      Elsewhere(mem1, mem2, ptr, ptr2);
      Elsewhere(mem1, mem2, ptr, end);
      if ram[ptr2].next != END {
        Put(ram[ptr2].next, ram[ram[ptr2].next].(prev := ptr2));
      }
      blocks := h[k + 1 := Block(ptr2, false)];
      ThreePuts(mem0, mem1, mem2, ram[..], ptr2, ptr, end);
      MoveHolds(mem0, ram[..], h, k, ptr2);
    }

    /** `mem_trim`: shrink the region at `rmem`.  It fails without touching anything if the new size is too
        large. */
    method MemTrim(rmem: nat, newSize: u16) returns (r: Pointer)
      requires Valid()
      requires rmem < END ==> var k := Find(blocks, rmem, 0); k < |blocks| && blocks[k].used
      modifies this, ram
      ensures Valid() && blocks == Step(old(blocks), Shrink(rmem, newSize))
      ensures r == Null <==>
        !Acceptable(newSize) || (rmem < END && Room(old(blocks), Find(old(blocks), rmem, 0)) < Adjusted(newSize))
      ensures r.Ptr? ==> r.offset == rmem
      ensures Writes(old(written), written, old(blocks), blocks)
    {
      var newsize := Adjusted(newSize);
      AcceptableIsLargeEnough(newSize);
      FoundIsLegal(blocks, rmem);
      if newsize > END || newsize < newSize {
        return Null;
      }
      if rmem >= END {
        return Ptr(rmem);
      }
      ghost var h, k := blocks, Find(blocks, rmem, 0);
      var ptr := rmem - HDR;
      assert HeaderAt(ram[..], h, k);
      var size := ram[ptr].next - ptr - HDR;
      TrimKeeps(h, k, newsize);
      if newsize > size {
        return Null;
      }
      if newsize == size {
        return Ptr(rmem);
      }
      AlignedSum(ptr, newsize);
      TrimAt(ptr, size, newsize, k);
      return Ptr(rmem);
    }

    method TrimAt(ptr: nat, size: nat, newsize: nat, ghost k: nat)
      requires Linked() && k < |blocks| && blocks[k].start == ptr && blocks[k].used
      requires size == Room(blocks, k) && MIN <= newsize < size && Aligned(ptr + HDR + newsize)
      modifies this, ram
      ensures Linked() && blocks == Trim(old(blocks), k, newsize)
      ensures Writes(old(written), written, old(blocks), blocks)
    {
      hide Tiled, Aligned;
      ghost var h := blocks;
      assert HeaderAt(ram[..], h, k);
      assert k + 1 < |h| ==> HeaderAt(ram[..], h, k + 1);
      var mem2 := ram[ptr].next;
      var ptr2 := ptr + HDR + newsize;
      LowestOrder(h, low, k);
      if !ram[mem2].used {
        LowestSame(h, low, k);
        if lfree == mem2 {
          lfree := ptr2;
        }
        MoveInPlace(ptr, ptr2, k);
      } else if newsize + HDR + MIN <= size {
        TrimOrder(h, low, k, ptr2);
        if ptr2 < lfree {
          lfree, low := ptr2, k + 1;
        }
        SplitInPlace(ptr, ptr2, k);
      }
    }

    // --- Allocating -----------------------------------------------------------------------------------------

    /** `mem_malloc`: null exactly if nothing was requested or no free block is large enough, although the
        search starts at the lowest free block and stops short of the end; otherwise the first such block. */
    method MemMalloc(sizeIn: u16) returns (r: Pointer)
      requires Valid()
      modifies this, ram
      ensures Valid() && blocks == Step(old(blocks), Malloc(sizeIn))
      ensures r == Null <==> sizeIn == 0 || sizeIn > END || forall i: nat :: i < |old(blocks)| ==> !HasRoom(old(blocks), i, Adjusted(sizeIn))
      ensures r.Ptr? ==> exists k: nat ::
        && k < |old(blocks)| && HasRoom(old(blocks), k, Adjusted(sizeIn)) && r.offset == old(blocks)[k].start + HDR
        && forall i: nat :: i < k ==> !HasRoom(old(blocks), i, Adjusted(sizeIn))
      ensures Writes(old(written), written, old(blocks), blocks)
    {
      if sizeIn == 0 {
        return Null;
      }
      var size := Adjusted(sizeIn);
      AcceptableIsLargeEnough(sizeIn);
      if size > END || size < sizeIn {
        return Null;
      }
      var ptr;
      ghost var k;
      ptr, k := FindFit(size);
      ghost var h := blocks;
      forall i: nat | i < |h| ensures Fits(h, i, size) <==> HasRoom(h, i, size) {
        FitsIffRoom(h, i, size);
      }
      if ptr == END {
        return Null;
      }
      AllocateKeeps(blocks, k, size);
      AlignedSum(ptr, size);
      AllocateAt(ptr, size, k);
      assert HasRoom(h, k, size) && h[k].start == ptr;
      return Ptr(ptr + HDR);
    }

    /** The search loop of `mem_malloc`; the end of the heap stands for failure. */
    method FindFit(size: nat) returns (ptr: nat, ghost k: nat)
      requires Valid() && MIN <= size <= END
      ensures k == FirstFit(blocks, size, 0)
      ensures ptr == if k < |blocks| then blocks[k].start else END
    {
      ptr, k := lfree, low;
      FitsFrom(blocks, size, low);
      while ptr < END - size
        invariant k <= |blocks| && ptr == if k < |blocks| then blocks[k].start else END
        invariant FirstFit(blocks, size, 0) == FirstFit(blocks, size, k)
        decreases |blocks| - k
      {
        assert HeaderAt(ram[..], blocks, k);
        if !ram[ptr].used && ram[ptr].next - (ptr + HDR) >= size {
          return;
        }
        ptr, k := ram[ptr].next, k + 1;
      }
      NoneFits(blocks, size, k);
      ptr, k := END, |blocks|;
    }

    /** Use the free block at `ptr`, splitting off what is not needed, and find the lowest free block. */
    method AllocateAt(ptr: nat, size: nat, ghost k: nat)
      requires Valid() && k < |blocks| && blocks[k].start == ptr && Fits(blocks, k, size)
      requires size >= MIN && Aligned(ptr + HDR + size)
      modifies this, ram
      ensures Linked() && blocks == Allocate(old(blocks), k, size)
      ensures Writes(old(written), written, old(blocks), blocks)
    {
      hide Holds, Starts, Tiled, Plugged, Aligned;
      ghost var h, g := blocks, Allocate(blocks, k, size);
      MarkUsed(ptr, k);
      OneBlock(ram[..], blocks, k);
      StartsOf(blocks, k);
      AllocatePrefix(h, k, size);
      if ram[ptr].next - (ptr + HDR) >= size + HDR + MIN {
        SplitInPlace(ptr, ptr + HDR + size, k);
      }
      assert blocks == g;
      StillLowest(h, g, low, lfree, k);
      if ptr == lfree {
        AdjustLfree(k);
      }
    }

    /** The block at `mem` is now used. */
    method MarkUsed(mem: nat, ghost k: nat)
      requires Holds(ram[..], blocks) && k < |blocks| && blocks[k].start == mem
      modifies ram, this`blocks, this`written
      ensures Holds(ram[..], blocks) && blocks == old(blocks)[k := Block(mem, true)]
      ensures Writes(old(written), written, old(blocks), blocks)
    {
      hide Holds, Starts, SameBut;
      ghost var mem0, h := ram[..], blocks;
      OneBlock(mem0, h, k);
      StartsOf(h, k);
      Put(mem, ram[mem].(used := true));
      MarkHolds(mem0, ram[..], h, k, true);
      blocks := h[k := Block(mem, true)];
    }

    /** Find the next free block after the one that was the lowest. */
    method AdjustLfree(ghost k: nat)
      requires Holds(ram[..], blocks) && k < |blocks| && lfree == blocks[k].start
      requires forall j :: 0 <= j < k ==> blocks[j].used
      modifies this`lfree, this`low
      ensures IsLowest(blocks, low, lfree)
    {
      var cur := lfree;
      low := k;
      while ram[cur].used && cur != END
        invariant low <= |blocks| && cur == if low < |blocks| then blocks[low].start else END
        invariant forall j :: 0 <= j < low ==> blocks[j].used
        invariant low < |blocks| ==> HeaderAt(ram[..], blocks, low) && cur < END
        decreases |blocks| - low
      {
        InOrder(blocks, low, low);
        cur := ram[cur].next;
        low := low + 1;
        if low < |blocks| {
          InOrder(blocks, low, low);
        }
      }
      lfree := cur;
    }
  }

  lemma FitsIffRoom(h: seq<Block>, i: nat, size: nat)
    requires i < |h|
    ensures Fits(h, i, size) <==> HasRoom(h, i, size)
  {
  }

  /** All headers written since are those of blocks that were there before, or are there after. */
  ghost predicate Writes(written0: set<nat>, written: set<nat>, h: seq<Block>, g: seq<Block>) {
    written <= written0 + Starts(h) + Starts(g)
  }

  lemma Elsewhere(mem: seq<Header>, mem': seq<Header>, p: nat, q: nat)
    requires SameBut(mem, mem', p, p, p)
    ensures |mem'| == |mem| && (q < |mem| && Apart(p, q) ==> mem'[q] == mem[q])
  {
  }

  lemma OneBlock(mem: seq<Header>, h: seq<Block>, k: nat)
    requires Holds(mem, h) && k < |h|
    ensures |mem| == END + 1 && mem[END] == Header(END, END, true) && Tiled(h)
    ensures h[k].start + HDR + MIN <= EndOf(h, k) <= END && mem[h[k].start] == HeaderOf(h, k)
  {
    assert HeaderAt(mem, h, k);
  }

  lemma TwoBlocks(mem: seq<Header>, h: seq<Block>, k: nat)
    requires Holds(mem, h) && k + 1 < |h|
    ensures |mem| == END + 1 && mem[END] == Header(END, END, true)
    ensures h[k].start + HDR + MIN <= h[k + 1].start && h[k + 1].start + HDR + MIN <= EndOf(h, k + 1) <= END
    ensures mem[h[k].start] == HeaderOf(h, k) && mem[h[k + 1].start] == HeaderOf(h, k + 1)
  {
    OneBlock(mem, h, k);
    OneBlock(mem, h, k + 1);
  }

  lemma JoinPuts(mem0: seq<Header>, mem1: seq<Header>, mem2: seq<Header>, h: seq<Block>, k: nat)
    requires Holds(mem0, h) && k + 1 < |h| && SameBut(mem0, mem1, h[k].start, h[k].start, h[k].start)
    requires mem1[h[k].start] == mem0[h[k].start].(next := EndOf(h, k + 1))
    requires var end := EndOf(h, k + 1);
      if end == END then mem2 == mem1
      else end < |mem1| && SameBut(mem1, mem2, end, end, end) && mem2[end] == mem1[end].(prev := h[k].start)
    ensures JoinStores(mem0, mem2, h, k)
  {
    TwoBlocks(mem0, h, k);
    hide Holds;
  }

  /** Three headers written one after the other, the last of them not if it is at the end of the heap. */
  lemma ThreePuts(mem0: seq<Header>, mem1: seq<Header>, mem2: seq<Header>, mem3: seq<Header>, a: nat, b: nat, c: nat)
    requires |mem0| == END + 1 && a < END && b < END && c <= END && Apart(a, b) && Apart(a, c) && Apart(b, c)
    requires SameBut(mem0, mem1, a, a, a) && SameBut(mem1, mem2, b, b, b)
    requires if c == END then mem3 == mem2 else SameBut(mem2, mem3, c, c, c)
    ensures |mem3| == END + 1 && SameBut(mem0, mem3, b, a, if c < END then c else a)
    ensures mem3[a] == mem1[a] && mem3[b] == mem2[b] && (c == END ==> mem3[c] == mem0[c])
  {
  }

  lemma ReleaseIs(h: seq<Block>, k: nat)
    requires k < |h|
    ensures Release(h, k) == PlugBackward(PlugForward(h[k := Block(h[k].start, false)], k), k)
  {
  }

  /** Unless the lowest free block has been allocated, it stays the lowest one. */
  lemma StillLowest(h: seq<Block>, g: seq<Block>, low: nat, lfree: nat, k: nat)
    requires Tiled(h) && IsLowest(h, low, lfree) && k < |h| && !h[k].used && k < |g| && g[k] == Block(h[k].start, true)
    requires forall j :: 0 <= j < k ==> g[j] == h[j]
    ensures lfree == h[k].start ==> forall j :: 0 <= j < k ==> g[j].used
    ensures lfree != h[k].start ==> low < k && IsLowest(g, low, lfree)
  {
    if low != k {
      LowestOrder(h, low, k);
    }
  }

  lemma PlugForwardKeeps(h: seq<Block>, k: nat)
    requires k < |h| && !h[k].used
    ensures var g := PlugForward(h, k); k < |g| && g[k] == h[k] && Starts(g) <= Starts(h)
  {
    StartsOf(h, k);
  }

  /** The lowest free block lies before a used block exactly if its number is smaller. */
  lemma LowestOrder(h: seq<Block>, low: nat, k: nat)
    requires Tiled(h) && low <= |h| && k < |h| && k != low
    ensures h[k].start < (if low < |h| then h[low].start else END) <==> k < low
  {
    InOrder(h, k, k);
    if low < |h| {
      InOrder(h, if k < low then k else low, if k < low then low else k);
    }
  }

  /** Blocks start at legal pointers. */
  lemma FoundIsLegal(h: seq<Block>, p: nat)
    requires Tiled(h)
    ensures Find(h, p, 0) < |h| ==> p % 4 == 0 && HDR <= p && p + MIN <= END
  {
    var k := Find(h, p, 0);
    if k < |h| {
      InOrder(h, k, k);
      assert Aligned(h[k].start);
    }
  }

  /** `lfree` is the block after block `k` exactly if that is the lowest free block. */
  lemma LowestSame(h: seq<Block>, low: nat, k: nat)
    requires Tiled(h) && low <= |h| && k + 1 < |h|
    ensures (if low < |h| then h[low].start else END) == h[k + 1].start <==> low == k + 1
  {
    if low != k + 1 {
      LowestOrder(h, low, k + 1);
    }
    InOrder(h, k + 1, k + 1);
  }

  /** A block made inside the used block `k` is the lowest free one exactly if `lfree` lies after `k`. */
  lemma TrimOrder(h: seq<Block>, low: nat, k: nat, p: nat)
    requires Tiled(h) && low <= |h| && k < |h| && low != k && h[k].start < p < EndOf(h, k)
    ensures p < (if low < |h| then h[low].start else END) <==> k < low
  {
    InOrder(h, k, k);
    if k + 1 < |h| {
      InOrder(h, k + 1, k + 1);
    }
    if low < |h| {
      InOrder(h, if k < low then k + 1 else low, if k < low then low else k);
    }
  }

  lemma SplitRange(h: seq<Block>, k: nat)
    requires Tiled(h) && k < |h|
    ensures h[k].start < EndOf(h, k) <= END
  {
  }

  /** Used blocks can be skipped. */
  lemma {:induction false} FitsFrom(h: seq<Block>, size: nat, i: nat)
    requires i <= |h| && forall j :: 0 <= j < i ==> h[j].used
    ensures FirstFit(h, size, 0) == FirstFit(h, size, i)
  {
    var k := FirstFit(h, size, 0);
    var m := FirstFit(h, size, i);
    assert k < |h| ==> Fits(h, k, size);
    assert m < |h| ==> Fits(h, m, size);
    assert forall j :: 0 <= j < i ==> !Fits(h, j, size);
  }

  /** A block that starts within `size` of the end is too small, and so are those after it. */
  lemma NoneFits(h: seq<Block>, size: nat, k: nat)
    requires Tiled(h) && k <= |h| && MIN <= size <= END && FirstFit(h, size, 0) == FirstFit(h, size, k)
    requires k < |h| ==> END - size <= h[k].start
    ensures FirstFit(h, size, 0) == |h|
  {
    var m := FirstFit(h, size, k);
    if m < |h| {
      InOrder(h, k, m);
      SplitRange(h, m);
    }
  }

  /** Allocating block `k` leaves the blocks before it alone. */
  lemma AllocatePrefix(h: seq<Block>, k: nat, size: nat)
    requires k < |h|
    ensures var g := Allocate(h, k, size);
      && k < |g| && g[k] == Block(h[k].start, true)
      && forall j :: 0 <= j < k ==> g[j] == h[j]
  {
  }
}

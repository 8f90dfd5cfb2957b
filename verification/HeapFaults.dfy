/**
  Concrete heaps on which the code, as it stands, does not keep its promises. The
  exact conditions are SplitTilesIff, GrownTilesIff, FreedSoundIff and the
  contracts of Heap.FreeBlock and Heap.Free.
 */
module HeapFaults {
  import opened Basics
  import opened Ram
  import opened Regions
  import opened HeapSteps
  import opened KernelHeap

  const BASE: nat := 0x100000

  /** Block, hole, block: freeing the first leaves a merged hole whose footer still
      names the absorbed header, unless the footer is rewritten. */
  lemma StaleFooter()
    ensures var rs := [Region(BASE, 64, false), Region(BASE + 64, 64, true), Region(BASE + 128, 0x10000 - 128, false)];
      && Tiles(rs, BASE, BASE + 0x10000) && Coalesced(rs)
      && !FreeIsSound(rs, 0, BASE, false) && FreeIsSound(rs, 0, BASE, true)
  {
  }

  /** A last block that starts on a page boundary beyond the minimum size: freeing
      it leaves the heap's new end in the index. */
  lemma DanglingHeader()
    ensures var rs := [Region(BASE, 0x10000, false), Region(BASE + 0x10000, 0x1000, false)];
      && Tiles(rs, BASE, BASE + 0x11000)
      && Remainder(rs, 1, BASE) == 0
      && !FreeIsSound(rs, 1, BASE, true)
      && BASE + 0x10000 == EndAfterFree(rs, 1, BASE, BASE + 0x11000)
      && BASE + 0x10000 in FreedIndex(Holes(rs), rs, 1)
  {
  }

  /** The only hole is not the last region: growth makes it overlap the block
      behind it. */
  lemma OverlappingGrowth()
    ensures var rs := [Region(BASE, 64, true), Region(BASE + 64, 0x10000 - 64, false)];
      && Tiles(rs, BASE, BASE + 0x10000)
      && !SomeFits(rs, 128, false)
      && !Tiles(Grown(rs, BASE + 0x10000, 0x1000), BASE, BASE + 0x11000)
  {
    var rs := [Region(BASE, 64, true), Region(BASE + 64, 0x10000 - 64, false)];
    assert Tiles(rs, BASE, BASE + 0x10000);
    GrownTilesIff(rs, BASE, BASE + 0x10000, 0x1000);
    assert rs[..1] == [rs[0]];
    assert HighestHole([rs[0]]) == 0;
    assert HighestHole(rs) == 0;
  }

  /** A page-aligned request that would leave a front gap of 16 bytes. */
  lemma NarrowGap()
    ensures var r := Region(BASE + PAGE - 32, 0x2000, true);
      && Fits(r, 64, true) && !SafeSplit(r, 64, true)
      && !Tiles(Split(r, 64, true), r.pos, r.End())
  {
    var r := Region(BASE + PAGE - 32, 0x2000, true);
    AlignFacts(r.pos);
    SplitTilesIff(r, 64, true);
  }

  // ----- runs of the code's own steps ------------------------------------------------------

  const START: nat := BASE + 0x9000       // behind the index
  const FIRST_END: nat := START + 0x17000  // where the heap ends at first, as in the kernel
  const SHORT_END: nat := START + 0x10000  // where it ends at its minimum size
  const END: nat := START + 0x21000        // where it ends when it has grown from there
  const CUT: nat := START + 0x11000        // where it will end

  lemma SameEntry(xs: seq<nat>, p: nat, i: nat, j: nat)
    requires Members(xs) <= {p} && i < |xs| && j < |xs|
    ensures xs[i] == xs[j]
  {
    assert xs[i] in Members(xs) && xs[j] in Members(xs);
  }

  lemma OneEntry(xs: seq<nat>, p: nat)
    requires Distinct(xs) && Members(xs) <= {p}
    ensures |xs| <= 1
  {
    if |xs| > 1 {
      SameEntry(xs, p, 0, 1);
    }
  }

  lemma LastHoleFits(front: seq<Region>, r: Region, ns: nat)
    requires (forall t :: 0 <= t < |front| ==> !front[t].hole) && r.hole && r.size >= ns
    ensures FitsIn(front + [r], |front|, ns, false) && SomeFits(front + [r], ns, false)
    ensures forall k :: 0 <= k < |front + [r]| && FitsIn(front + [r], k, ns, false) ==> k == |front|
    ensures Holes(front + [r]) == {r.pos}
  {
    var rs := front + [r];
    assert FitsIn(rs, |front|, ns, false);
    assert rs[|front|] == r;
  }

  /** An allocation from the only hole, which is the last region. */
  method AllocLast(h: Heap, size: nat, ghost front: seq<Region>, ghost r: Region) returns (p: nat)
    requires h.Valid() && h.regions == front + [r] && r.hole && size + OVERHEAD <= r.size
    requires forall t :: 0 <= t < |front| ==> !front[t].hole
    modifies h`endAddress, h`kernelNextBlock, h`regions, h.ram.bytes, h.index`size, h.index.slots
    ensures h.Valid() && h.endAddress == old(h.endAddress) && p == r.pos + HEADER_SIZE
    ensures SameOutside(old(h.Image()), h.Image(), h.startAddress, h.endAddress) && h.Slack() == old(h.Slack())
    ensures h.regions == front + Split(r, size + OVERHEAD, false)
  {
    var ns := size + OVERHEAD;
    LastHoleFits(front, r, ns);
    RoomIff(h.regions, ns, false);
    OneEntry(h.index.Contents(), r.pos);
    ghost var k, grown;
    p, k, grown := h.Alloc(size, false);
    assert Splice(grown, |front|, |front| + 1, Split(r, ns, false)) == front + Split(r, ns, false);
  }

  /** A heap of one hole that is too small grows by what is asked for. */
  lemma OneHoleGrows(r: Region, ns: nat, max: nat, g: nat)
    requires r.hole && OVERHEAD <= r.size < ns <= g && r.End() + g <= max
    ensures !SomeFits([r], ns, false) && GrowsSafely([r], r.End(), max, ns, false, g)
    ensures GrownToFit([r], r.End(), ns, false, g) == [r.(size := r.size + g)]
    ensures Holes([r]) == {r.pos}
  {
    assert HighestHole([r]) == 0;
    assert Grown([r], r.End(), g) == [r.(size := r.size + g)];
    assert FitsIn([r.(size := r.size + g)], 0, ns, false);
  }

  method AllocGrown(h: Heap, size: nat, ghost r: Region) returns (p: nat)
    requires h.Valid() && h.regions == [r] && r.hole && OVERHEAD <= r.size < size + OVERHEAD < 0x1_0000_0000
    requires h.endAddress + RoundUp(size + OVERHEAD) <= h.maxAddress
    modifies h`endAddress, h`kernelNextBlock, h`regions, h.ram.bytes, h.index`size, h.index.slots
    ensures h.Valid() && p == r.pos + HEADER_SIZE && h.Slack() == old(h.Slack())
    ensures SameOutside(old(h.Image()), h.Image(), h.startAddress, h.endAddress)
    ensures h.regions == Split(r.(size := r.size + RoundUp(size + OVERHEAD)), size + OVERHEAD, false)
  {
    var ns := size + OVERHEAD;
    RoundUpPage(ns);
    OneHoleGrows(r, ns, h.maxAddress, RoundUp(ns));
    OneEntry(h.index.Contents(), r.pos);
    ghost var k, grown;
    p, k, grown := h.Alloc(size, false);
    ghost var big := r.(size := r.size + RoundUp(ns));
    assert Splice([big], 0, 1, Split(big, ns, false)) == Split(big, ns, false);
  }

  /** A free that leaves the heap sound. */
  method FreeSound(h: Heap, p: nat, ghost k: nat, ghost q: nat)
    requires h.Valid() && h.Live(p, k) && Holes(h.regions) <= {q} && ProbeMapped(h.regions, k, h.Slack())
    requires !Stray(h.Image(), h.regions, k, h.endAddress) && FreeIsSound(h.regions, k, h.startAddress, false)
    modifies h`endAddress, h`regions, h.ram.bytes, h.index`size, h.index.slots
    ensures h.Valid() && h.regions == Freed(old(h.regions), k, h.startAddress)
    ensures h.endAddress == EndAfterFree(old(h.regions), k, h.startAddress, old(h.endAddress))
    ensures SameOutside(old(h.Image()), h.Image(), Merged(old(h.regions), k).pos, Merged(old(h.regions), k).End())
    ensures FreeLeaves(old(h.Image()), h.Image(), old(h.regions), k, h.startAddress, old(h.endAddress))
  {
    OneEntry(h.index.Contents(), q);
    var halted := h.Free(p, false, k);
  }

  /** create_heap as the kernel calls it: all that has been handed out is the heap. */
  method NewHeap(memory: Memory) returns (h: Heap)
    requires END + HEADER_SIZE <= memory.bytes.Length
    requires Load(memory.Image(), START - FOOTER_SIZE, 4) != HEAP_MAGIC
    modifies memory.bytes
    ensures h.Valid() && h.ram == memory && fresh(h) && fresh(h.index) && fresh(h.index.slots)
    ensures h.startAddress == START && h.endAddress == FIRST_END && h.maxAddress == END && h.Slack() == 0
    ensures h.regions == [Region(START, 0x17000, true)]
    ensures SameOutside(old(memory.Image()), h.Image(), START, FIRST_END)
  {
    h := new Heap(memory, BASE, FIRST_END, END, FIRST_END / PAGE);
  }

  /** One block fills the heap, and its release halts the machine: there is no page where
      free looks for a neighbour. */
  method HaltingFree(memory: Memory, repaired: bool) returns (h: Heap, halted: bool)
    requires END + HEADER_SIZE <= memory.bytes.Length
    requires Load(memory.Image(), START - FOOTER_SIZE, 4) != HEAP_MAGIC
    modifies memory.bytes
    ensures h.regions == [Region(START, 0x17000, false)] && halted
  {
    h := NewHeap(memory);
    ghost var all := Region(START, 0x17000, true);
    PlainSplit(all, 0x17000, false);
    var p := AllocLast(h, 0x17000 - OVERHEAD, [], all);
    assert [] + Split(all, 0x17000, false) == [Region(START, 0x17000, false)];
    assert Holes(h.regions) <= {START};
    OneEntry(h.index.Contents(), START);
    halted := h.Free(p, repaired, 0);
  }

  const P := Region(START, 64, false)
  const X := Region(START, 0x11000 - 64, false)
  const A := Region(CUT - 64, 64, false)
  const B := Region(CUT, 64, false)
  const C := Region(CUT + 64, 0x10000 - 64, false)

  /** The release of the first block cuts the heap to its minimum size. */
  lemma FreedP()
    ensures var rs := [P, Region(START + 64, 0x17000 - 64, true)];
      && FreeIsSound(rs, 0, START, false) && Holes(rs) <= {START + 64} && Shrinks(rs, 0)
      && Merged(rs, 0) == Region(START, 0x17000, true)
      && EndAfterFree(rs, 0, START, FIRST_END) == SHORT_END
      && Freed(rs, 0, START) == [Region(START, 0x10000, true)]
  {
    var rs := [P, Region(START + 64, 0x17000 - 64, true)];
    assert Remainder(rs, 0, START) == 0x10000;
    assert Freed(rs, 0, START) == rs[..0] + [Region(START, 0x10000, true)] + rs[2..];
  }

  lemma FreedA()
    ensures var rs := [X, A, B, C];
      && FreeIsSound(rs, 1, START, false) && Holes(rs) <= {START} && !Shrinks(rs, 1)
      && Merged(rs, 1) == A.(hole := true)
      && Freed(rs, 1, START) == [X, A.(hole := true), B, C]
  {
    var rs := [X, A, B, C];
    assert Freed(rs, 1, START) == rs[..1] + [A.(hole := true)] + rs[2..];
  }

  lemma FreedB()
    ensures var rs := [X, A.(hole := true), B, C];
      && FreeIsSound(rs, 2, START, false) && Holes(rs) <= {A.pos} && !Shrinks(rs, 2) && MergesLeft(rs, 2)
      && Merged(rs, 2) == Region(A.pos, 128, true)
      && Freed(rs, 2, START) == [X, Region(A.pos, 128, true), C]
  {
    var rs := [X, A.(hole := true), B, C];
    assert Freed(rs, 2, START) == rs[..1] + [Region(A.pos, 128, true)] + rs[3..];
  }

  /** The heap is cut back to the middle of the hole that A and B have left, which is
      where B's header lies. */
  lemma FreedC()
    ensures var rs := [X, Region(A.pos, 128, true), C];
      && FreeIsSound(rs, 2, START, false) && Holes(rs) <= {A.pos} && Shrinks(rs, 2) && MergesLeft(rs, 2)
      && Merged(rs, 2) == Region(A.pos, 128 + C.size, true)
      && Remainder(rs, 2, START) == 64 && EndAfterFree(rs, 2, START, END) == CUT
      && Freed(rs, 2, START) == [X, Region(A.pos, 64, true)]
  {
    var rs := [X, Region(A.pos, 128, true), C];
    assert RoundUp(0x11000 - 64) == 0x11000;
    assert Remainder(rs, 2, START) == 64;
    assert Freed(rs, 2, START) == rs[..1] + [Region(A.pos, 64, true)] + rs[3..];
  }

  /** A small block is allocated and given back: the heap is cut to its minimum size. */
  method CutHeap(memory: Memory) returns (h: Heap)
    requires END + HEADER_SIZE <= memory.bytes.Length
    requires Load(memory.Image(), START - FOOTER_SIZE, 4) != HEAP_MAGIC
    modifies memory.bytes
    ensures h.Valid() && h.ram == memory && fresh(h) && fresh(h.index) && fresh(h.index.slots)
    ensures h.startAddress == START && h.endAddress == SHORT_END && h.maxAddress == END && h.Slack() > 0
    ensures h.regions == [Region(START, 0x10000, true)]
    ensures SameOutside(old(memory.Image()), h.Image(), START, FIRST_END)
  {
    h := NewHeap(memory);
    PlainSplit(Region(START, 0x17000, true), 64, false);
    var p := AllocLast(h, 32, [], Region(START, 0x17000, true));
    FreedP();
    assert h.regions == [P, Region(START + 64, 0x17000 - 64, true)];
    FreeSound(h, p, 0, START + 64);
  }

  /** And it grows again: from then on something is mapped behind it. */
  method GrownHeap(memory: Memory) returns (h: Heap)
    requires END + HEADER_SIZE <= memory.bytes.Length
    requires Load(memory.Image(), START - FOOTER_SIZE, 4) != HEAP_MAGIC
    modifies memory.bytes
    ensures h.Valid() && h.ram == memory && fresh(h) && fresh(h.index) && fresh(h.index.slots)
    ensures h.startAddress == START && h.endAddress == END && h.Slack() > 0
    ensures h.regions == [X, Region(A.pos, 0x10000 + 64, true)]
    ensures SameOutside(old(memory.Image()), h.Image(), START, END)
  {
    h := CutHeap(memory);
    PlainSplit(Region(START, 0x21000, true), X.size, false);
    assert RoundUp(X.size) == 0x11000;
    var p := AllocGrown(h, X.size - OVERHEAD, Region(START, 0x10000, true));
    assert Tiles(h.regions, START, END);
  }

  lemma Cuts()
    ensures [X] + Split(Region(A.pos, 0x10000 + 64, true), 64, false) == [X, A] + [Region(B.pos, 0x10000, true)]
    ensures [X, A] + Split(Region(B.pos, 0x10000, true), 64, false) == [X, A, B] + [Region(C.pos, C.size, true)]
    ensures [X, A, B] + Split(Region(C.pos, C.size, true), C.size, false) == [X, A, B, C]
  {
    PlainSplit(Region(A.pos, 0x10000 + 64, true), 64, false);
    PlainSplit(Region(B.pos, 0x10000, true), 64, false);
    PlainSplit(Region(C.pos, C.size, true), C.size, false);
  }

  /** Four blocks fill it. */
  method FillHeap(memory: Memory) returns (h: Heap)
    requires END + HEADER_SIZE <= memory.bytes.Length
    requires Load(memory.Image(), START - FOOTER_SIZE, 4) != HEAP_MAGIC
    requires Load(memory.Image(), END, 4) != HEAP_MAGIC
    modifies memory.bytes
    ensures h.Valid() && h.ram == memory && fresh(h) && fresh(h.index) && fresh(h.index.slots)
    ensures h.startAddress == START && h.endAddress == END && h.regions == [X, A, B, C] && h.Slack() > 0
    ensures Load(h.Image(), END, 4) != HEAP_MAGIC
  {
    h := GrownHeap(memory);
    LoadFrame(old(memory.Image()), h.Image(), END, 4, START, END);
    Cuts();
    ghost var m := h.Image();
    var p := AllocLast(h, A.size - OVERHEAD, [X], Region(A.pos, 0x10000 + 64, true));
    LoadFrame(m, h.Image(), END, 4, START, END);
    m := h.Image();
    p := AllocLast(h, B.size - OVERHEAD, [X, A], Region(B.pos, 0x10000, true));
    LoadFrame(m, h.Image(), END, 4, START, END);
    m := h.Image();
    p := AllocLast(h, C.size - OVERHEAD, [X, A, B], Region(C.pos, C.size, true));
    LoadFrame(m, h.Image(), END, 4, START, END);
  }

  /** Allocations and frees, none of which breaks the heap or reads where nothing is
      mapped, lead to a heap that was cut back to where the header of a freed block lies.
      Freeing its last block takes that header for a hole behind the heap. */
  method StrayHeader(memory: Memory) returns (h: Heap, p: nat)
    requires END + HEADER_SIZE <= memory.bytes.Length
    requires Load(memory.Image(), START - FOOTER_SIZE, 4) != HEAP_MAGIC
    requires Load(memory.Image(), END, 4) != HEAP_MAGIC
    modifies memory.bytes
    ensures h.Valid() && h.Live(p, 1) && h.index.size < h.index.slots.Length && h.ram == memory && h.Slack() > 0
    ensures Stray(h.Image(), h.regions, 1, h.endAddress)
    ensures forall repaired ::
      !FreeKeepsHeap(h.Image(), h.index.Contents(), h.regions, 1, h.startAddress, h.endAddress, repaired)
    ensures fresh(h) && fresh(h.index) && fresh(h.index.slots)
  {
    h := FillHeap(memory);
    p := FreeThree(h);
    OneEntry(h.index.Contents(), CUT);
    assert SizeField(h.Image(), CUT) == 64;
  }

  /** The free after that leaves no heap. */
  method StrayFree(memory: Memory, repaired: bool) returns (h: Heap)
    requires END + HEADER_SIZE <= memory.bytes.Length
    requires Load(memory.Image(), START - FOOTER_SIZE, 4) != HEAP_MAGIC
    requires Load(memory.Image(), END, 4) != HEAP_MAGIC
    modifies memory.bytes
    ensures !h.Valid()
    ensures h.index.Valid() ==> !SomeHeap(h.Image(), h.Entries(), h.startAddress, h.endAddress)
  {
    var p;
    h, p := StrayHeader(memory);
    var halted := h.Free(p, repaired, 1);
  }

  /** A, B and C are freed and D is allocated where A was. */
  method FreeThree(h: Heap) returns (p: nat)
    requires h.Valid() && h.startAddress == START && h.endAddress == END && h.regions == [X, A, B, C] && h.Slack() > 0
    requires Load(h.Image(), END, 4) != HEAP_MAGIC
    modifies h`endAddress, h`kernelNextBlock, h`regions, h.ram.bytes, h.index`size, h.index.slots
    ensures h.Valid() && h.endAddress == CUT && h.regions == [X, Region(A.pos, 64, false)]
    ensures p == A.pos + HEADER_SIZE && HeaderAt(h.Image(), CUT, 64, true) && h.Slack() > 0
  {
    FreedA();
    ghost var m := h.Image();
    FreeSound(h, A.pos + HEADER_SIZE, 1, START);
    LoadFrame(m, h.Image(), END, 4, A.pos, A.End());
    FreedB();
    m := h.Image();
    FreeSound(h, B.pos + HEADER_SIZE, 2, A.pos);
    LoadFrame(m, h.Image(), END, 4, A.pos, B.End());
    assert HeaderAt(h.Image(), CUT, 64, true);
    FreedC();
    m := h.Image();
    FreeSound(h, C.pos + HEADER_SIZE, 2, A.pos);
    HeaderBetween(m, h.Image(), CUT, 64, CUT, C.pos);
    m := h.Image();
    p := AllocLast(h, 32, [X], Region(A.pos, 64, true));
    TagFrame(m, h.Image(), CUT, START, CUT);
    PlainSplit(Region(A.pos, 64, true), 64, false);
  }

  lemma HeaderBetween(m: seq<byte>, n: seq<byte>, p: nat, size: nat, a: nat, b: nat)
    requires HeaderAt(m, p, size, true) && SameBetween(m, n, a, b) && a <= p && p + HEADER_SIZE <= b
    ensures HeaderAt(n, p, size, true)
  {
    assert m[p..p + 4] == n[p..p + 4];
    assert m[p + 8..p + 16] == n[p + 8..p + 16];
  }
}

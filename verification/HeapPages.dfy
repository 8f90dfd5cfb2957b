/**
  The pages behind the kernel heap: alloc_kernel_page maps them to frames of their own,
  the heap's growth takes its pages from there, and so do the blocks that a copied
  address space is made of.
 */
module HeapPages {
  import opened Basics
  import opened AddressSpace
  import opened CloneSpace
  import opened FrameDemand
  import opened Paging
  import opened Tables
  import HeapSteps
  import KernelHeap
  import Ram
  import Regions

  /** The page maps to a frame in use that holds no table. */
  ghost predicate OwnPage(m: seq<Word>, bits: seq<bool>, top: nat, own: Owners, page: nat) {
    Translate(m, top, page).Some? && var f := Translate(m, top, page).value; f !in own && f < |bits| && bits[f]
  }

  ghost predicate Differ(m: seq<Word>, top: nat, p: nat, q: nat) {
    Translate(m, top, p) != Translate(m, top, q)
  }

  /** So do all pages of the kernel's area from first to next, no two to the same. */
  ghost predicate OwnPages(m: seq<Word>, bits: seq<bool>, top: nat, own: Owners, first: nat, next: nat) {
    && (forall p: nat :: first <= p < next ==> OwnPage(m, bits, top, own, p))
    && (forall p: nat, q: nat :: first <= p < q < next ==> Differ(m, top, p, q))
  }

  lemma OldPageKept(m: seq<Word>, n: seq<Word>, bits: seq<bool>, after: seq<bool>, top: nat, own: Owners, out: Owners,
                    next: nat, fs: seq<nat>, p: nat)
    requires MapsRun(m, n, top, next, fs, false) && Grew(m, n, bits, after, own, out)
    requires p < next <= PAGES && OwnPage(m, bits, top, own, p)
    ensures OwnPage(n, after, top, out, p) && Translate(n, top, p) == Translate(m, top, p)
  {
    assert SameAt(m, n, top, p);
    var f := Translate(m, top, p).value;
    assert f in out ==> WasFree(bits, own, f);
  }

  /** New pages at the end of the area keep that so. */
  lemma RunKeepsOwn(m: seq<Word>, n: seq<Word>, bits: seq<bool>, after: seq<bool>, top: nat, own: Owners, out: Owners,
                    first: nat, next: nat, fs: seq<nat>)
    requires OwnPages(m, bits, top, own, first, next) && first <= next && next + |fs| <= PAGES
    requires MapsRun(m, n, top, next, fs, false) && Grew(m, n, bits, after, own, out)
    requires FreshRun(bits, after, fs) && NoTables(fs, out)
    ensures OwnPages(n, after, top, out, first, next + |fs|)
  {
    forall p: nat | first <= p < next + |fs|
      ensures OwnPage(n, after, top, out, p)
      ensures p < next ==> Translate(n, top, p) == Translate(m, top, p) && bits[Translate(n, top, p).value]
      ensures p >= next ==> Translate(n, top, p) == Some(fs[p - next])
    {
      if p < next {
        assert OwnPage(m, bits, top, own, p);
        OldPageKept(m, n, bits, after, top, own, out, next, fs, p);
      } else {
        assert MapsAt(n, top, next, fs, false, p - next);
      }
    }
    forall p: nat, q: nat | first <= p < q < next + |fs|
      ensures Differ(n, top, p, q)
    {
      if q < next { assert Differ(m, top, p, q); }
    }
  }

  /** The heap takes its pages from the kernel's area, which begins at page first. */
  ghost predicate Backed(h: KernelHeap.Heap, s: Space, first: nat)
    reads h, s, s.ram, s.frames, s.frames.words
  {
    && s.Steady() && h.Bounded() && h.kernelNextBlock == s.kernelNext
    && first * PAGE <= h.startAddress && first <= s.kernelNext <= PAGES
    && OwnPages(s.Mem(), s.Used(), s.top, s.own, first, s.kernelNext)
  }

  /** Then every address of the heap is in a page that is mapped, to a frame of its own. */
  lemma EveryHeapPage(h: KernelHeap.Heap, s: Space, first: nat, a: nat)
    requires Backed(h, s, first) && h.startAddress <= a < h.endAddress
    ensures first <= a / PAGE < s.kernelNext && OwnPage(s.Mem(), s.Used(), s.top, s.own, a / PAGE)
  {
    PageBounds(first, a, s.kernelNext);
  }

  lemma PageBounds(first: nat, a: nat, next: nat)
    requires first * PAGE <= a < next * PAGE
    ensures first <= a / PAGE < next
  {
  }

  // ----- what lies behind the heap -----------------------------------------------------------

  /** No page from next up to limit is mapped. */
  ghost predicate Unmapped(m: seq<Word>, top: nat, next: nat, limit: nat) {
    forall p: nat :: next <= p < limit ==> Translate(m, top, p) == None
  }

  /** New pages at the end of the area leave the pages behind them unmapped. */
  lemma RunKeepsUnmapped(m: seq<Word>, n: seq<Word>, top: nat, next: nat, fs: seq<nat>, limit: nat)
    requires MapsRun(m, n, top, next, fs, false) && Unmapped(m, top, next, limit) && limit <= PAGES
    ensures Unmapped(n, top, next + |fs|, limit)
  {
    forall p: nat | next + |fs| <= p < limit
      ensures Translate(n, top, p) == None
    {
      assert Translate(m, top, p) == None && SameAt(m, n, top, p);
    }
  }

  /** The processor can read a header at address a. */
  ghost predicate Readable(m: seq<Word>, root: nat, a: nat) {
    forall b: nat :: a <= b < a + Ram.HEADER_SIZE ==> Resolve(m, root, b).Some?
  }

  lemma AreaResolves(m: seq<Word>, bits: seq<bool>, top: nat, own: Owners, first: nat, next: nat, a: nat)
    requires OwnPages(m, bits, top, own, first, next) && first * PAGE <= a < next * PAGE && next <= PAGES
    ensures Resolve(m, top, a).Some?
  {
    PageBounds(first, a, next);
    assert OwnPage(m, bits, top, own, a / PAGE);
  }

  lemma AreaReadable(m: seq<Word>, bits: seq<bool>, top: nat, own: Owners, first: nat, next: nat, a: nat)
    requires OwnPages(m, bits, top, own, first, next) && next <= PAGES
    requires first * PAGE <= a && a + Ram.HEADER_SIZE <= next * PAGE
    ensures Readable(m, top, a)
  {
    forall b: nat | a <= b < a + Ram.HEADER_SIZE
      ensures Resolve(m, top, b).Some?
    {
      AreaResolves(m, bits, top, own, first, next, b);
    }
  }

  lemma NothingBehind(m: seq<Word>, top: nat, next: nat, limit: nat)
    requires Unmapped(m, top, next, limit) && next < limit <= PAGES
    ensures !Readable(m, top, next * PAGE)
  {
    assert next * PAGE / PAGE == next && Translate(m, top, next) == None;
    assert Resolve(m, top, next * PAGE) == None;
  }

  lemma WholePageBehind(hi: nat, next: nat)
    requires hi % PAGE == 0 && hi < next * PAGE
    ensures hi + PAGE <= next * PAGE
  {
  }

  /** free can read what it takes for the header behind block k exactly if the block is
      not the last, or pages behind the heap have been handed out. */
  lemma ProbeReads(h: KernelHeap.Heap, s: Space, first: nat, limit: nat, k: nat)
    requires Backed(h, s, first) && s.root == s.top && h.Valid() && k < |h.regions|
    requires Unmapped(s.Mem(), s.top, s.kernelNext, limit) && s.kernelNext < limit <= PAGES
    ensures Readable(s.Mem(), s.root, h.regions[k].End()) <==> KernelHeap.ProbeMapped(h.regions, k, h.Slack())
  {
    var e, next := h.regions[k].End(), s.kernelNext;
    Regions.RegionBounds(h.regions, h.startAddress, h.endAddress, k);
    KernelHeap.ProbeMappedIff(h.regions, h.startAddress, h.endAddress, k, next);
    if KernelHeap.ProbeMapped(h.regions, k, h.Slack()) {
      HeaderBehind(h, k, next);
      AreaReadable(s.Mem(), s.Used(), s.top, s.own, first, next, e);
    } else {
      NothingBehind(s.Mem(), s.top, next, limit);
    }
  }

  lemma HeaderBehind(h: KernelHeap.Heap, k: nat, next: nat)
    requires h.Valid() && k < |h.regions| && h.endAddress <= next * PAGE && h.regions[k].End() < next * PAGE
    ensures h.regions[k].End() + Ram.HEADER_SIZE <= next * PAGE
  {
    if k + 1 < |h.regions| {
      Regions.RegionBounds(h.regions, h.startAddress, h.endAddress, k + 1);
      assert Regions.Joins(h.regions, k);
    } else {
      WholePageBehind(h.endAddress, next);
    }
  }

  /** So free halts exactly where it reads what is not mapped. */
  method FreeBacked(h: KernelHeap.Heap, s: Space, p: nat, repaired: bool, ghost k: nat, ghost first: nat, ghost limit: nat)
    returns (halted: bool)
    requires Backed(h, s, first) && s.root == s.top && h.Valid() && h.Live(p, k) && p != 0
    requires h.index.size < h.index.slots.Length
    requires Unmapped(s.Mem(), s.top, s.kernelNext, limit) && s.kernelNext < limit <= PAGES
    modifies h`endAddress, h`regions, h.ram.bytes, h.index`size, h.index.slots
    ensures halted <==> !old(Readable(s.Mem(), s.root, h.regions[k].End()))
  {
    ProbeReads(h, s, first, limit, k);
    halted := h.Free(p, repaired, k);
  }

  // ----- growth ------------------------------------------------------------------------------

  ghost predicate PagesOwned(m: seq<Word>, bits: seq<bool>, top: nat, own: Owners, first: nat, last: nat) {
    forall p: nat :: first <= p < last ==> OwnPage(m, bits, top, own, p)
  }

  /** The addresses from lo up to hi are all in pages of their own. */
  ghost predicate AddressesOwned(m: seq<Word>, bits: seq<bool>, top: nat, own: Owners, lo: nat, hi: nat) {
    forall a: nat {:trigger Within(lo, a, hi)} :: Within(lo, a, hi) ==> OwnPage(m, bits, top, own, a / PAGE)
  }

  predicate Within(lo: nat, a: nat, hi: nat) {
    lo <= a < hi
  }

  /** What a run of new pages has not reached is as it was; so if nothing was mapped there,
      all pages asked for are owned exactly if all were got, and the addresses up to hi
      exactly if hi lies within those that were. */
  lemma GrowthVerdict(m: seq<Word>, n: seq<Word>, after: seq<bool>, top: nat, out: Owners, first: nat, next: nat,
                      fs: seq<nat>, asked: nat, lo: nat, hi: nat)
    requires MapsRun(m, n, top, next, fs, false) && Unmapped(m, top, next, next + asked)
    requires OwnPages(n, after, top, out, first, next + |fs|) && first <= next
    requires |fs| <= asked && next + asked <= PAGES
    requires first * PAGE <= lo <= next * PAGE && hi <= (next + asked) * PAGE
    ensures PagesOwned(n, after, top, out, next, next + asked) <==> |fs| == asked
    ensures AddressesOwned(n, after, top, out, lo, hi) <==> hi <= (next + |fs|) * PAGE
  {
    var reach := next + |fs|;
    if reach < next + asked {
      assert Translate(m, top, reach) == None && SameAt(m, n, top, reach);
      assert !OwnPage(n, after, top, out, reach);
    }
    if hi <= reach * PAGE {
      forall a: nat | Within(lo, a, hi)
        ensures OwnPage(n, after, top, out, a / PAGE)
      {
        PageBounds(first, a, reach);
      }
    } else {
      assert Within(lo, reach * PAGE, hi) && reach * PAGE / PAGE == reach;
    }
  }

  /** How many of the pages that expand asks for it gets. */
  ghost function Got(h: KernelHeap.Heap, s: Space, newSize: nat): nat
    requires s.frames.maxBlocks <= |s.Used()| && Asked(h, newSize) >= 0
    reads h, s, s.ram, s.frames, s.frames.words
  {
    Served(s.Mem(), s.Used(), s.frames.maxBlocks, s.top, s.kernelNext, s.kernelNext, Asked(h, newSize))
  }

  function Asked(h: KernelHeap.Heap, newSize: nat): int
    reads h`endAddress
  {
    (HeapSteps.RoundUp(newSize) - (h.endAddress - h.startAddress)) / PAGE
  }

  /** alloc_kernel_page keeps the area's pages their own, with those it got behind it. */
  method GrowArea(s: Space, n: nat, ghost first: nat) returns (ghost fs: seq<nat>)
    requires s.Steady() && first <= s.kernelNext && s.kernelNext + n <= PAGES
    requires OwnPages(s.Mem(), s.Used(), s.top, s.own, first, s.kernelNext)
    requires CanMap(s.Mem(), s.Used(), s.frames.maxBlocks, s.top, s.kernelNext, s.kernelNext, n, 1)
    modifies s.ram, s.frames, s.frames.words, s`own, s`kernelNext
    ensures s.Steady() && |fs| <= n && s.kernelNext == (if |fs| == n then old(s.kernelNext) + n else old(s.kernelNext))
    ensures |fs| == Served(old(s.Mem()), old(s.Used()), s.frames.maxBlocks, s.top, old(s.kernelNext), old(s.kernelNext), n)
    ensures MapsRun(old(s.Mem()), s.Mem(), s.top, old(s.kernelNext), fs, false)
    ensures OwnPages(s.Mem(), s.Used(), s.top, s.own, first, old(s.kernelNext) + |fs|)
  {
    ghost var m, bits, had, next := s.Mem(), s.Used(), s.own, s.kernelNext;
    var address;
    address, fs := s.AllocKernelPage(n);
    RunKeepsOwn(m, s.Mem(), bits, s.Used(), s.top, had, s.own, first, next, fs);
  }

  /** The memory that expand asks for, and what it gets: without enough frames the code,
      which looks at no answer, moves the heap's end all the same, and the area's end
      stays behind. Then the heap's addresses are still mapped if and only if its new end
      lies within the pages it got. */
  method ExpandBacked(h: KernelHeap.Heap, s: Space, newSize: nat, ghost first: nat) returns (ghost ok: bool)
    requires Backed(h, s, first)
    requires h.endAddress - h.startAddress <= newSize < 0x1_0000_0000
    requires h.startAddress + HeapSteps.RoundUp(newSize) <= h.maxAddress
    requires var n := Asked(h, newSize);
      && n >= 0 && s.kernelNext + n <= PAGES
      && CanMap(s.Mem(), s.Used(), s.frames.maxBlocks, s.top, s.kernelNext, s.kernelNext, n, 1)
    modifies h`endAddress, h`kernelNextBlock, s.ram, s.frames, s.frames.words, s`own, s`kernelNext
    ensures ok <==> old(Got(h, s, newSize)) == old(Asked(h, newSize))
    ensures ok <==> Backed(h, s, first)
    ensures h.endAddress == h.startAddress + HeapSteps.RoundUp(newSize)
    ensures OwnPages(s.Mem(), s.Used(), s.top, s.own, first, old(s.kernelNext + Got(h, s, newSize)))
    ensures old(Unmapped(s.Mem(), s.top, s.kernelNext, s.kernelNext + Asked(h, newSize))) ==>
      && (ok <==> PagesOwned(s.Mem(), s.Used(), s.top, s.own, old(s.kernelNext), old(s.kernelNext + Asked(h, newSize))))
      && (AddressesOwned(s.Mem(), s.Used(), s.top, s.own, h.startAddress, h.endAddress) <==>
            h.endAddress <= old(s.kernelNext + Got(h, s, newSize)) * PAGE)
  {
    var n := (HeapSteps.RoundUp(newSize) - (h.endAddress - h.startAddress)) / PAGE;
    ghost var m, next := s.Mem(), s.kernelNext;
    ghost var fs := GrowArea(s, n, first);
    h.Expand(newSize);
    ok := |fs| == n;
    if Unmapped(m, s.top, next, next + n) {
      GrowthVerdict(m, s.Mem(), s.Used(), s.top, s.own, first, next, fs, n, h.startAddress, h.endAddress);
    }
  }

  // ----- blocks of the heap for a copied space --------------------------------------------

  /** Two page-aligned blocks, each of a page or more, have different pages in the heap. */
  lemma BlocksApart(rs: seq<Regions.Region>, lo: nat, hi: nat, i: nat, j: nat)
    requires Regions.Tiles(rs, lo, hi) && i < |rs| && j < |rs| && i != j
    requires (rs[i].pos + Ram.HEADER_SIZE) % PAGE == 0 && rs[i].size >= PAGE + Regions.OVERHEAD
    requires (rs[j].pos + Ram.HEADER_SIZE) % PAGE == 0 && rs[j].size >= PAGE + Regions.OVERHEAD
    ensures (rs[i].pos + Ram.HEADER_SIZE) / PAGE != (rs[j].pos + Ram.HEADER_SIZE) / PAGE
    ensures lo <= rs[i].pos + Ram.HEADER_SIZE && rs[i].pos + Ram.HEADER_SIZE + PAGE <= hi
  {
    Regions.RegionsDisjoint(rs, lo, hi, i, j);
  }

  ghost predicate FromArea(m: seq<Word>, top: nat, supply: Supply, first: nat, next: nat, q: seq<nat>)
    requires q in supply
  {
    first <= supply[q] < next && (Translate(m, top, supply[q]).Some? ==> Translate(m, top, supply[q]).value < LOW_FRAMES)
  }

  /** A supply of different pages of the kernel's area, such as page-aligned blocks of the
      heap are: frames in use, each for one purpose, and no tables. What a copy needs
      besides holds over any run of a space (SpaceRuns.HeldReady). */
  lemma SuppliedByHeap(m: seq<Word>, bits: seq<bool>, top: nat, own: Owners, supply: Supply, first: nat, next: nat)
    requires OwnPages(m, bits, top, own, first, next) && next <= PAGES
    requires forall q {:trigger FromArea(m, top, supply, first, next, q)} :: q in supply ==> FromArea(m, top, supply, first, next, q)
    requires forall p, q :: p in supply && q in supply && p != q ==> supply[p] != supply[q]
    ensures forall q {:trigger Spare(m, bits, top, own, supply, q)} :: q in supply ==> Spare(m, bits, top, own, supply, q)
    ensures forall p, q {:trigger Unlike(m, top, supply, p, q)} ::
      p in supply && q in supply && p != q ==> Unlike(m, top, supply, p, q)
  {
    forall q | q in supply
      ensures Spare(m, bits, top, own, supply, q)
    {
      assert FromArea(m, top, supply, first, next, q) && OwnPage(m, bits, top, own, supply[q]);
    }
    forall p, q | p in supply && q in supply && p != q
      ensures Unlike(m, top, supply, p, q)
    {
      assert Spare(m, bits, top, own, supply, p) && Spare(m, bits, top, own, supply, q);
      assert FromArea(m, top, supply, first, next, p) && FromArea(m, top, supply, first, next, q);
      assert supply[p] < supply[q] ==> Differ(m, top, supply[p], supply[q]);
      assert supply[q] < supply[p] ==> Differ(m, top, supply[q], supply[p]);
    }
  }
}

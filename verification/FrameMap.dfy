/**
  The physical memory manager's frame bitmap: 64-bit words, a used counter, first
  fit searches, and the marking done at start-up. A word is its 64 bits, least
  significant first.
 */
module FrameMap {
  import opened Bitmap

  const WORD: nat := 64
  const BLOCK: nat := 4096

  type Word = w: seq<bool> | |w| == WORD witness seq(WORD, _ => false)

  const ALL_ONES: Word := seq(WORD, _ => true)

  /** An entry of the BIOS memory map; kind 1 is available memory. */
  datatype Range = Range(start: nat, size: nat, kind: nat)

  /** The highest address of available memory. */
  function Limit(rs: seq<Range>): nat {
    if rs == [] then 0
    else
      var rest := Limit(rs[..|rs| - 1]);
      var r := rs[|rs| - 1];
      if r.kind == 1 && r.start + r.size > rest then r.start + r.size else rest
  }

  lemma {:induction false} LimitCovers(rs: seq<Range>, i: nat)
    requires i < |rs| && rs[i].kind == 1
    ensures rs[i].start + rs[i].size <= Limit(rs)
    decreases |rs|
  {
    if i < |rs| - 1 {
      LimitCovers(rs[..|rs| - 1], i);
    }
  }

  /** It is the end of available memory, or 0 where there is none. */
  lemma {:induction false} LimitReached(rs: seq<Range>)
    ensures Limit(rs) == 0 || exists i: nat :: i < |rs| && rs[i].kind == 1 && rs[i].start + rs[i].size == Limit(rs)
    decreases |rs|
  {
    if rs != [] {
      var front := rs[..|rs| - 1];
      LimitReached(front);
      if Limit(rs) == Limit(front) {
        if i: nat :| i < |front| && front[i].kind == 1 && front[i].start + front[i].size == Limit(front) {
          assert rs[i] == front[i];
        }
      }
    }
  }

  /** Frame f is one of the blocks mem_init_region counts for r. */
  predicate Offers(r: Range, f: nat) {
    r.kind == 1 && r.start / BLOCK <= f < r.start / BLOCK + r.size / BLOCK
  }

  ghost predicate Offered(rs: seq<Range>, n: nat, f: nat) {
    exists i :: 0 <= i < n <= |rs| && Offers(rs[i], f)
  }

  /** None of the frames from lo up to hi is in the set. */
  ghost predicate Avoids(frames: iset<nat>, lo: nat, hi: nat) {
    forall g: nat :: lo <= g < hi ==> g !in frames
  }

  /** The frames that the first n ranges have made free: with each range the blocks it
      offers, up to the first that was free already, at which the marking stops. */
  ghost function Freed(rs: seq<Range>, n: nat): iset<nat>
    requires n <= |rs|
    decreases n
  {
    if n == 0 then iset{}
    else
      var was := Freed(rs, n - 1);
      iset f: nat | f in was || (Offers(rs[n - 1], f) && Avoids(was, rs[n - 1].start / BLOCK, f))
  }

  lemma {:induction false} FreedOffered(rs: seq<Range>, n: nat, f: nat)
    requires n <= |rs| && f in Freed(rs, n)
    ensures Offered(rs, n, f)
    decreases n
  {
    if f in Freed(rs, n - 1) {
      FreedOffered(rs, n - 1, f);
    }
  }

  ghost predicate DisjointBlocks(rs: seq<Range>) {
    forall i, j, f: nat :: 0 <= i < j < |rs| && Offers(rs[i], f) ==> !Offers(rs[j], f)
  }

  /** Of ranges whose blocks do not overlap every block is freed. */
  lemma {:induction false} DisjointAllFreed(rs: seq<Range>, n: nat, f: nat)
    requires DisjointBlocks(rs) && n <= |rs|
    ensures f in Freed(rs, n) <==> Offered(rs, n, f)
    decreases n
  {
    if n > 0 {
      DisjointAllFreed(rs, n - 1, f);
      if Offers(rs[n - 1], f) {
        var was := Freed(rs, n - 1);
        forall g: nat | rs[n - 1].start / BLOCK <= g < f
          ensures g !in was
        {
          DisjointAllFreed(rs, n - 1, g);
        }
      }
      OfferedNext(rs, n - 1, f);
    }
  }

  lemma OfferedNext(rs: seq<Range>, i: nat, f: nat)
    requires i < |rs|
    ensures Offered(rs, i + 1, f) <==> Offered(rs, i, f) || Offers(rs[i], f)
  {
  }

  lemma {:induction false} NotOffered(rs: seq<Range>, i: nat, n: nat, f: nat)
    requires i <= n <= |rs| && forall j: nat :: i <= j < n ==> !Offers(rs[j], f)
    ensures f in Freed(rs, n) <==> f in Freed(rs, i)
    decreases n
  {
    if i < n {
      NotOffered(rs, i, n - 1, f);
    }
  }

  /** A block of one range only stays marked exactly if the earlier ranges have freed one
      of the blocks before it in its own: with overlapping ranges frames are lost. */
  lemma OverlapLosesIff(rs: seq<Range>, i: nat, f: nat)
    requires i < |rs| && Offers(rs[i], f) && forall j: nat :: j < |rs| && j != i ==> !Offers(rs[j], f)
    ensures f !in Freed(rs, |rs|) <==> !Avoids(Freed(rs, i), rs[i].start / BLOCK, f)
  {
    NotOffered(rs, 0, i, f);
    NotOffered(rs, i + 1, |rs|, f);
  }

  // ----- frames and the memory they lie in --------------------------------------------

  /** Byte a is in available memory. */
  ghost predicate Available(rs: seq<Range>, a: nat) {
    exists i :: 0 <= i < |rs| && rs[i].kind == 1 && rs[i].start <= a < rs[i].start + rs[i].size
  }

  ghost predicate FrameAvailable(rs: seq<Range>, f: nat) {
    forall a: nat :: f * BLOCK <= a < f * BLOCK + BLOCK ==> Available(rs, a)
  }

  /** A range's first block begins where the range does, or else in memory that another
      range has. */
  ghost predicate FrontAvailable(rs: seq<Range>, i: nat)
    requires i < |rs|
  {
    forall a: nat :: rs[i].start / BLOCK * BLOCK <= a < rs[i].start ==> Available(rs, a)
  }

  /** Only the first of the blocks that a range offers can lie partly outside it. */
  lemma OffersInside(r: Range, f: nat)
    requires Offers(r, f)
    ensures f * BLOCK + BLOCK <= r.start + r.size
    ensures r.start <= f * BLOCK <==> f > r.start / BLOCK || r.start % BLOCK == 0
  {
    var lo, n := r.start / BLOCK, r.size / BLOCK;
    assert (f + 1) * BLOCK <= (lo + n) * BLOCK == lo * BLOCK + n * BLOCK;
  }

  /** All frames of a range lie inside it exactly if it starts on a block boundary or is
      smaller than a block. */
  lemma RangeInsideIff(r: Range)
    requires r.kind == 1
    ensures (forall f: nat :: Offers(r, f) ==> r.start <= f * BLOCK && f * BLOCK + BLOCK <= r.start + r.size) <==>
            (r.start % BLOCK == 0 || r.size < BLOCK)
  {
    if r.size >= BLOCK { assert Offers(r, r.start / BLOCK); }
    forall f: nat | Offers(r, f)
      ensures f * BLOCK + BLOCK <= r.start + r.size
      ensures r.start <= f * BLOCK <==> f > r.start / BLOCK || r.start % BLOCK == 0
    {
      OffersInside(r, f);
    }
  }

  /** A range offers as many frames as it has whole blocks: those that lie inside it once
      it is moved down to a block boundary. */
  lemma OffersIff(r: Range, f: nat)
    ensures Offers(r, f) <==>
      && r.kind == 1 && r.start - r.start % BLOCK <= f * BLOCK
      && f * BLOCK + BLOCK <= r.start - r.start % BLOCK + r.size
  {
    var lo, n := r.start / BLOCK, r.size / BLOCK;
    assert r.start - r.start % BLOCK == lo * BLOCK && r.size == n * BLOCK + r.size % BLOCK;
    if f < lo + n { assert (f + 1) * BLOCK <= (lo + n) * BLOCK == lo * BLOCK + n * BLOCK; }
    if f >= lo + n { assert (f + 1) * BLOCK >= (lo + n + 1) * BLOCK == lo * BLOCK + n * BLOCK + BLOCK; }
  }

  // ----- the kernel's own memory ---------------------------------------------------------

  const LOAD: nat := 0x20_0000          // where the kernel is loaded

  /** The byte that the kernel knows at address v lies in frame f: the page of kernelStart
      is loaded at LOAD, and the others follow. */
  ghost predicate Lies(v: nat, kernelStart: nat, f: nat) {
    f * BLOCK <= LOAD + v - (kernelStart - kernelStart % BLOCK) < f * BLOCK + BLOCK
  }

  /** The bitmap begins with the page behind the one that the kernel's image ends in. */
  function MapStart(kernelEnd: nat): nat {
    kernelEnd - kernelEnd % BLOCK + BLOCK
  }

  /** Address v is one of the image's, its end symbol among them, or of the bitmap, which
      has a word of 8 bytes for each 64 frames and one more. */
  predicate KernelByte(kernelStart: nat, kernelEnd: nat, maxBlocks: nat, v: nat) {
    kernelStart <= v <= kernelEnd || MapStart(kernelEnd) <= v < MapStart(kernelEnd) + 8 * (maxBlocks / WORD + 1)
  }

  /** Frame f holds a byte of the kernel's. */
  ghost predicate HoldsKernel(kernelStart: nat, kernelEnd: nat, maxBlocks: nat, f: nat) {
    exists v: nat :: KernelByte(kernelStart, kernelEnd, maxBlocks, v) && Lies(v, kernelStart, f)
  }

  lemma LiesAt(v: nat, kernelStart: nat, f: nat)
    ensures Lies(v, kernelStart, f) <==> f == KERNEL_FRAME + v / BLOCK - kernelStart / BLOCK
  {
    assert kernelStart - kernelStart % BLOCK == kernelStart / BLOCK * BLOCK;
    assert v == v / BLOCK * BLOCK + v % BLOCK;
  }

  /** The last byte of the bitmap lies in the page that the code's division finds. */
  lemma MapPages(maxBlocks: nat)
    ensures var q := maxBlocks / 8;
      q / BLOCK * BLOCK < 8 * (maxBlocks / WORD + 1) <= (q / BLOCK + 1) * BLOCK
  {
    var q := maxBlocks / 8;
    assert maxBlocks / WORD == q / 8;
    assert q / BLOCK * BLOCK == 8 * (q / BLOCK * 512);
  }

  /** The frames counted for the kernel are exactly those that hold a byte of it. */
  lemma KernelHeldIff(kernelStart: nat, kernelEnd: nat, maxBlocks: nat, f: nat)
    requires kernelStart <= kernelEnd
    ensures HoldsKernel(kernelStart, kernelEnd, maxBlocks, f) <==>
            KERNEL_FRAME <= f < KERNEL_FRAME + KernelFrames(kernelStart, kernelEnd, maxBlocks)
  {
    MapPages(maxBlocks);
    var first, last, q := kernelStart / BLOCK, kernelEnd / BLOCK, maxBlocks / 8;
    assert MapStart(kernelEnd) == (last + 1) * BLOCK;
    if HoldsKernel(kernelStart, kernelEnd, maxBlocks, f) {
      var v: nat :| KernelByte(kernelStart, kernelEnd, maxBlocks, v) && Lies(v, kernelStart, f);
      LiesAt(v, kernelStart, f);
      BytePage(kernelStart, kernelEnd, maxBlocks, v);
    }
    if KERNEL_FRAME <= f < KERNEL_FRAME + KernelFrames(kernelStart, kernelEnd, maxBlocks) {
      var page := first + f - KERNEL_FRAME;
      var v := if page == first then kernelStart else page * BLOCK;
      assert v / BLOCK == page;
      LiesAt(v, kernelStart, f);
      PageByte(kernelStart, kernelEnd, maxBlocks, page);
    }
  }

  lemma BytePage(kernelStart: nat, kernelEnd: nat, maxBlocks: nat, v: nat)
    requires kernelStart <= kernelEnd && KernelByte(kernelStart, kernelEnd, maxBlocks, v)
    ensures kernelStart / BLOCK <= v / BLOCK <= kernelEnd / BLOCK + 1 + maxBlocks / 8 / BLOCK
  {
    MapPages(maxBlocks);
    var last, q := kernelEnd / BLOCK, maxBlocks / 8;
    assert MapStart(kernelEnd) == (last + 1) * BLOCK;
    if v > kernelEnd {
      assert v < (last + 1) * BLOCK + (q / BLOCK + 1) * BLOCK == (last + 1 + q / BLOCK + 1) * BLOCK;
    }
  }

  lemma PageByte(kernelStart: nat, kernelEnd: nat, maxBlocks: nat, page: nat)
    requires kernelStart <= kernelEnd
    requires kernelStart / BLOCK <= page <= kernelEnd / BLOCK + 1 + maxBlocks / 8 / BLOCK
    ensures KernelByte(kernelStart, kernelEnd, maxBlocks, if page == kernelStart / BLOCK then kernelStart else page * BLOCK)
  {
    MapPages(maxBlocks);
    var last, q := kernelEnd / BLOCK, maxBlocks / 8;
    if page > last {
      assert page * BLOCK == (last + 1) * BLOCK + (page - last - 1) * BLOCK;
      assert (page - last - 1) * BLOCK <= q / BLOCK * BLOCK;
    }
  }

  // ----- what starts out free ------------------------------------------------------------

  const FIRST_MEGABYTE: nat := 0x10_0000

  /** Frame f is free when the bitmap has been set up. */
  ghost predicate StartsFree(rs: seq<Range>, kernelStart: nat, kernelEnd: nat, f: nat) {
    && f in Freed(rs, |rs|) && FIRST_MEGABYTE <= f * BLOCK
    && !HoldsKernel(kernelStart, kernelEnd, Limit(rs) / BLOCK, f)
  }

  ghost predicate FirstStartsFree(rs: seq<Range>, kernelStart: nat, kernelEnd: nat, i: nat)
    requires i < |rs|
  {
    Offers(rs[i], rs[i].start / BLOCK) && StartsFree(rs, kernelStart, kernelEnd, rs[i].start / BLOCK)
  }

  /** Every frame that starts out free lies in available memory exactly if this holds of
      the front of each range whose first block starts out free. */
  lemma FreeAvailableIff(rs: seq<Range>, kernelStart: nat, kernelEnd: nat)
    ensures (forall f: nat :: StartsFree(rs, kernelStart, kernelEnd, f) ==> FrameAvailable(rs, f)) <==>
            (forall i: nat :: i < |rs| && FirstStartsFree(rs, kernelStart, kernelEnd, i) ==> FrontAvailable(rs, i))
  {
    if forall i: nat :: i < |rs| && FirstStartsFree(rs, kernelStart, kernelEnd, i) ==> FrontAvailable(rs, i) {
      forall f: nat | StartsFree(rs, kernelStart, kernelEnd, f)
        ensures FrameAvailable(rs, f)
      {
        FreedOffered(rs, |rs|, f);
        var i: nat :| i < |rs| && Offers(rs[i], f);
        assert f == rs[i].start / BLOCK ==> FirstStartsFree(rs, kernelStart, kernelEnd, i);
        FrameIn(rs, i, f);
      }
    } else {
      var i: nat :| i < |rs| && FirstStartsFree(rs, kernelStart, kernelEnd, i) && !FrontAvailable(rs, i);
      assert !FrameAvailable(rs, rs[i].start / BLOCK);
    }
  }

  lemma FrameIn(rs: seq<Range>, i: nat, f: nat)
    requires i < |rs| && Offers(rs[i], f) && (f == rs[i].start / BLOCK ==> FrontAvailable(rs, i))
    ensures FrameAvailable(rs, f)
  {
    OffersInside(rs[i], f);
    forall a: nat | f * BLOCK <= a < f * BLOCK + BLOCK
      ensures Available(rs, a)
    {
      if a >= rs[i].start { assert rs[i].kind == 1; }
    }
  }

  const RESERVED_FRAMES: nat := 256          // the first megabyte
  const KERNEL_FRAME: nat := 0x200      // where the kernel is loaded

  /** Frames for the kernel and for the bitmap behind it. */
  function KernelFrames(kernelStart: nat, kernelEnd: nat, maxBlocks: nat): int {
    kernelEnd / BLOCK + 1 + maxBlocks / 8 / BLOCK + 1 - kernelStart / BLOCK
  }

  class Frames {
    const words: array<Word>
    const maxBlocks: nat
    var usedBlocks: nat

    ghost var bits: seq<bool>     // the bitmap, frame by frame

    /** The words hold the bitmap, 64 frames each. */
    ghost predicate Packed()
      reads `bits, words
    {
      |bits| == WORD * words.Length && forall f :: 0 <= f < |bits| ==> BitAt(f)
    }

    ghost predicate BitAt(f: nat)
      requires f < |bits| == WORD * words.Length
      reads `bits, words
    {
      bits[f] == words[f / WORD][f % WORD]
    }

    /** There is one word more than maxBlocks fills, and the bits past maxBlocks in
        it are set; so is frame 0. */
    ghost predicate Shaped()
      reads `bits, words
    {
      && Packed()
      && words.Length == maxBlocks / WORD + 1
      && AllSet(bits, maxBlocks, |bits|)
    }

    /** The counter agrees with the bitmap. */
    ghost predicate Counted()
      reads `usedBlocks, `bits, words
      requires Shaped()
    {
      usedBlocks == CountSet(bits, maxBlocks)
    }

    ghost predicate Valid()
      reads `usedBlocks, `bits, words
    {
      Shaped() && Counted() && bits[0]
    }

    lemma LastBitSet()
      requires Shaped()
      ensures maxBlocks < |bits| && bits[|bits| - 1]
    {
    }

    /** The bitmap part of memman_init, for a bitmap that reaches past the first megabyte
        and the kernel: a frame ends up free exactly when the available ranges free it,
        it lies above the first megabyte, and it holds no byte of the kernel's image or
        of the bitmap itself. */
    constructor (rs: seq<Range>, kernelStart: nat, kernelEnd: nat)
      requires kernelStart <= kernelEnd
      requires var n := Limit(rs) / BLOCK;
        RESERVED_FRAMES <= n && KERNEL_FRAME + KernelFrames(kernelStart, kernelEnd, n) <= n
      ensures fresh(words) && maxBlocks == Limit(rs) / BLOCK
      ensures Valid()
      ensures forall f :: 0 <= f < maxBlocks ==> (!bits[f] <==> StartsFree(rs, kernelStart, kernelEnd, f))
    {
      maxBlocks := Limit(rs) / BLOCK;
      usedBlocks := Limit(rs) / BLOCK;
      words := new Word[Limit(rs) / BLOCK / WORD + 1](_ => ALL_ONES);
      bits := seq(WORD * (Limit(rs) / BLOCK / WORD + 1), _ => true);
      new;
      assert Packed();
      CountBounds(bits, maxBlocks);
      InitRegions(rs);
      MarkUsed(0, RESERVED_FRAMES);
      MarkUsed(KERNEL_FRAME, KERNEL_FRAME + KernelFrames(kernelStart, kernelEnd, maxBlocks));
      forall f | 0 <= f < maxBlocks
        ensures !bits[f] <==> StartsFree(rs, kernelStart, kernelEnd, f)
      {
        KernelHeldIff(kernelStart, kernelEnd, maxBlocks, f);
      }
    }

    method InitRegions(rs: seq<Range>)
      requires Shaped() && Counted() && AllSet(bits, 0, |bits|)
      requires maxBlocks == Limit(rs) / BLOCK
      modifies `usedBlocks, `bits, words
      ensures Shaped() && Counted()
      ensures forall f :: 0 <= f < |bits| ==> (!bits[f] <==> f in Freed(rs, |rs|))
    {
      for i := 0 to |rs|
        invariant Shaped() && Counted()
        invariant forall f :: 0 <= f < |bits| ==> (!bits[f] <==> f in Freed(rs, i))
      {
        ghost var was := bits;
        if rs[i].kind == 1 {
          RangeInBitmap(rs, i);
          FirstClearFacts(was, rs[i].start / BLOCK, rs[i].size / BLOCK);
          InitRegion(rs[i].start, rs[i].size);
        }
        forall f | 0 <= f < |was|
          ensures !bits[f] <==> f in Freed(rs, i + 1)
        {
        }
      }
    }

    lemma RangeInBitmap(rs: seq<Range>, i: nat)
      requires i < |rs| && rs[i].kind == 1 && maxBlocks == Limit(rs) / BLOCK
      ensures rs[i].start / BLOCK + rs[i].size / BLOCK <= maxBlocks
    {
      LimitCovers(rs, i);
    }

    /** Marks a range of frames used, counting those that were free. */
    method MarkUsed(lo: nat, hi: nat)
      requires Shaped() && Counted() && lo <= hi <= maxBlocks
      modifies `usedBlocks, `bits, words
      ensures Shaped() && Counted()
      ensures bits == Filled(old(bits), lo, hi, true)
    {
      ghost var was := bits;
      for i := lo to hi
        invariant Shaped() && Counted()
        invariant bits == Filled(was, lo, i, true)
      {
        FilledStep(was, lo, i, true);
        CountAfter(bits, i, true, maxBlocks);
        var used := Test(i);
        if !used {
          usedBlocks := usedBlocks + 1;
          Set(i);
        }
      }
    }

    method Set(bit: nat)
      requires Packed() && bit < |bits|
      modifies `bits, words
      ensures Packed() && bits == old(bits)[bit := true]
    {
      Put(bit, true);
    }

    method Unset(bit: nat)
      requires Packed() && bit < |bits|
      modifies `bits, words
      ensures Packed() && bits == old(bits)[bit := false]
    {
      Put(bit, false);
    }

    method Put(bit: nat, v: bool)
      requires Packed() && bit < |bits|
      modifies `bits, words
      ensures Packed() && bits == old(bits)[bit := v]
    {
      words[bit / WORD] := words[bit / WORD][bit % WORD := v];
      bits := bits[bit := v];
      forall f | 0 <= f < |bits|
        ensures BitAt(f)
      {
        assert old(BitAt(f));
      }
    }

    method Test(bit: nat) returns (marked: bool)
      requires Packed() && bit < |bits|
      ensures marked == bits[bit]
    {
      assert BitAt(bit);
      marked := words[bit / WORD][bit % WORD];
    }

    /** mmap_first_free: the least clear bit in a full word, or 0. */
    method FirstFree() returns (frame: nat)
      requires Shaped()
      ensures frame == 0 || frame < maxBlocks / WORD * WORD
      ensures frame != 0 ==> !bits[frame] && AllSet(bits, 0, frame)
      ensures frame == 0 ==> !bits[0] || AllSet(bits, 0, maxBlocks / WORD * WORD)
    {
      var i := 0;
      while i < maxBlocks / WORD
        invariant i <= maxBlocks / WORD
        invariant AllSet(bits, 0, i * WORD)
      {
        if words[i] != ALL_ONES {
          var j := 0;
          while j < WORD
            invariant j <= WORD
            invariant AllSet(bits, 0, i * WORD + j)
          {
            assert BitAt(i * WORD + j);
            if !words[i][j] {
              return i * WORD + j;
            }
            j := j + 1;
          }
        } else {
          forall f | i * WORD <= f < (i + 1) * WORD
            ensures bits[f]
          {
            assert BitAt(f);
          }
        }
        i := i + 1;
      }
      frame := 0;
    }

    /** The count loop of the zone search: how far the run of clear bits at p
        goes, up to size. */
    method CountClear(p: nat, size: nat) returns (count: nat)
      requires Shaped() && p < |bits| && !bits[p]
      ensures count <= size && Clear(bits, p, p + count)
      ensures count < size ==> p + count < |bits| && bits[p + count]
    {
      LastBitSet();
      count := 0;
      while count <= size
        invariant count <= size && Clear(bits, p, p + count)
        decreases size - count
      {
        if count == size {
          break;
        }
        var blocked := Test(p + count);
        if blocked {
          break;
        }
        count := count + 1;
      }
    }

    /** mmap_first_free_zone: with bit 0 set, a nonzero answer is the least start
        of a zone of clear bits, and 0 means that no zone starts in a full word.
        For size 1 it is the search for a single clear bit. */
    method FirstFreeZone(size: nat) returns (r: nat)
      requires Shaped() && bits[0]
      ensures size == 0 ==> r == 0
      ensures r != 0 ==> ZoneAt(bits, r, size) && NoZoneBelow(bits, r, size)
      ensures r == 0 && size > 0 ==> NoZoneBelow(bits, maxBlocks / WORD * WORD, size)
    {
      if size == 0 {
        return 0;
      }
      if size == 1 {
        r := FirstFree();
        SetBitsNoZone(bits, r, size);
        SetBitsNoZone(bits, maxBlocks / WORD * WORD, size);
        return r;
      }
      var i := 0;
      while i < maxBlocks / WORD
        invariant NoZoneBelow(bits, i * WORD, size)
        decreases maxBlocks / WORD - i
      {
        if words[i] != ALL_ONES {
          var j := 0;
          ghost var start := i;
          while j < WORD
            invariant start <= i < words.Length && 0 <= j <= WORD
            invariant NoZoneBelow(bits, i * WORD + j, size)
            decreases |bits| - (i * WORD + j)
          {
            var p := i * WORD + j;
            assert BitAt(p);
            var count := 0;
            if !words[i][j] {
              count := CountClear(p, size);
              if count == size {
                return p;
              }
              i := (p + count) / WORD;
              j := (p + count) % WORD;
            }
            JumpSkipsNothing(bits, p, p + count, size);
            j := j + 1;
          }
        } else {
          OnesHoldNoZone(i, size);
        }
        i := i + 1;
      }
      r := 0;
    }

    lemma OnesHoldNoZone(i: nat, size: nat)
      requires Packed() && i < words.Length && words[i] == ALL_ONES && size > 0
      requires NoZoneBelow(bits, i * WORD, size)
      ensures NoZoneBelow(bits, (i + 1) * WORD, size)
    {
      forall s | 0 <= s < (i + 1) * WORD
        ensures !ZoneAt(bits, s, size)
      {
        if i * WORD <= s {
          assert BitAt(s);
        }
      }
    }

    function FreeCount(): int
      reads `usedBlocks
    {
      maxBlocks - usedBlocks
    }

    /** mem_alloc_block: marks the least free frame of the full words and returns
        its address; 0 exactly when there is none. */
    method AllocBlock() returns (addr: nat, ghost frame: nat)
      requires Valid()
      modifies `usedBlocks, `bits, words
      ensures Valid()
      ensures addr == frame * BLOCK
      ensures addr == 0 ==> bits == old(bits) && AllSet(bits, 0, maxBlocks / WORD * WORD)
      ensures addr != 0 ==>
        && 0 < frame < maxBlocks / WORD * WORD
        && !old(bits)[frame] && AllSet(old(bits), 0, frame)
        && bits == old(bits)[frame := true]
    {
      CountBounds(bits, maxBlocks);
      if FreeCount() == 0 {
        return 0, 0;
      }
      var first := FirstFree();
      frame := first;
      if first == 0 {
        return 0, 0;
      }
      CountAfter(bits, first, true, maxBlocks);
      Set(first);
      usedBlocks := usedBlocks + 1;
      addr := first * BLOCK;
    }

    /** mem_free_block: clears the frame's bit and lowers the counter. The counter
        still agrees with the bitmap exactly when the bit was set. */
    method FreeBlock(addr: nat)
      requires Valid() && 0 < addr / BLOCK < maxBlocks
      modifies `usedBlocks, `bits, words
      ensures Shaped() && bits == old(bits)[addr / BLOCK := false] && bits[0]
      ensures Counted() <==> old(bits)[addr / BLOCK]
    {
      CountAfter(bits, addr / BLOCK, false, maxBlocks);
      CountPositive(bits, maxBlocks);
      Unset(addr / BLOCK);
      usedBlocks := usedBlocks - 1;
    }

    /** mem_alloc_blocks: marks the first zone of free frames that is long enough
        and returns its address; 0 only if no zone starts in a full word. */
    method AllocBlocks(size: nat) returns (addr: nat, ghost frame: nat)
      requires Valid()
      modifies `usedBlocks, `bits, words
      ensures Valid()
      ensures addr == 0 ==> bits == old(bits)
      ensures addr == 0 && size > 0 ==> NoZoneBelow(bits, maxBlocks / WORD * WORD, size)
      ensures addr == frame * BLOCK
      ensures addr != 0 ==>
        && 0 < frame && size > 0 && frame + size <= maxBlocks
        && ZoneAt(old(bits), frame, size) && NoZoneBelow(old(bits), frame, size)
        && bits == Filled(old(bits), frame, frame + size, true)
    {
      if FreeCount() < size {
        TooFewFree(bits, maxBlocks, size);
        return 0, 0;
      }
      var first := FirstFreeZone(size);
      frame := first;
      if first == 0 {
        return 0, 0;
      }
      ClearBelow(bits, first, first + size, maxBlocks);
      CountFilled(bits, first, first + size, true, maxBlocks);
      SetRange(first, size);
      usedBlocks := usedBlocks + size;
      addr := first * BLOCK;
    }

    method SetRange(frame: nat, size: nat)
      requires Packed() && frame + size <= |bits|
      modifies `bits, words
      ensures Packed() && bits == Filled(old(bits), frame, frame + size, true)
    {
      ghost var was := bits;
      for i := 0 to size
        invariant Packed() && bits == Filled(was, frame, frame + i, true)
      {
        FilledStep(was, frame, frame + i, true);
        Set(frame + i);
      }
    }

    /** mem_free_blocks, for a zone whose bits are set: clears them and lowers the
        counter by their number. */
    method FreeBlocks(addr: nat, size: nat)
      requires Valid() && 0 < addr / BLOCK && addr / BLOCK + size <= maxBlocks
      requires AllSet(bits, addr / BLOCK, addr / BLOCK + size)
      modifies `usedBlocks, `bits, words
      ensures Valid()
      ensures bits == Filled(old(bits), addr / BLOCK, addr / BLOCK + size, false)
    {
      ghost var was := bits;
      var frame := addr / BLOCK;
      for i := frame to frame + size
        invariant Packed() && bits == Filled(was, frame, i, false) && usedBlocks == old(usedBlocks)
      {
        FilledStep(was, frame, i, false);
        Unset(i);
      }
      CountFilled(was, frame, frame + size, false, maxBlocks);
      usedBlocks := usedBlocks - size;
    }

    /** mem_init_region: frees the region's blocks one by one. The step to the next
        block is inside the test, so it stops for good at a block that is free
        already. */
    method InitRegion(base: nat, size: nat)
      requires Shaped() && Counted() && base / BLOCK + size / BLOCK <= maxBlocks
      modifies `usedBlocks, `bits, words
      ensures Shaped() && Counted()
      ensures bits == Filled(old(bits), base / BLOCK, FirstClear(old(bits), base / BLOCK, size / BLOCK), false)
    {
      ghost var was, lo, n := bits, base / BLOCK, size / BLOCK;
      var align := base / BLOCK;
      var blocks := size / BLOCK;
      FirstClearFacts(was, lo, n);
      while blocks > 0
        invariant 0 <= blocks <= n && Shaped() && Counted()
        invariant lo <= align <= FirstClear(was, lo, n)
        invariant bits == Filled(was, lo, align, false)
        invariant align == lo + (n - blocks) || align == FirstClear(was, lo, n) < lo + n
      {
        if align < |was| { FilledStep(was, lo, align, false); }
        align := InitBlock(align);
        blocks := blocks - 1;
      }
    }

    method InitBlock(align: nat) returns (next: nat)
      requires Shaped() && Counted() && align < maxBlocks
      modifies `usedBlocks, `bits, words
      ensures Shaped() && Counted()
      ensures bits == old(bits)[align := false]
      ensures next == if old(bits)[align] then align + 1 else align
    {
      next := align;
      var used := Test(align);
      if used {
        CountAfter(bits, align, false, maxBlocks);
        CountMonotone(bits, align + 1, maxBlocks);
        Unset(align);
        next := align + 1;
        usedBlocks := usedBlocks - 1;
      }
    }
  }
}

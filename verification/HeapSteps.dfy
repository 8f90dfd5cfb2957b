/**
  What one allocation, growth, or free does to the region sequence, written with
  the code's own 64-bit arithmetic, and exactly when each leaves a heap behind.
 */
module HeapSteps {
  import opened Ram
  import opened Regions

  const PAGE: nat := 4096
  const HEAP_MIN_SIZE: nat := 0x10000

  /** Unsigned 64-bit subtraction. */
  function Sub64(a: nat, b: nat): nat
    requires a < U64 && b < U64
  {
    if a >= b then a - b else a - b + U64
  }

  /** Unsigned 64-bit addition. */
  function Add64(a: nat, b: nat): (s: nat)
    requires a < U64 && b < U64
    ensures s < U64
  {
    if a + b < U64 then a + b else a + b - U64
  }

  /** The nearest following page boundary; the mask in the code keeps 32 bits. */
  function RoundUp(n: nat): nat {
    if n % PAGE != 0 then n % 0x1_0000_0000 / PAGE * PAGE + PAGE else n
  }

  lemma RoundUpPage(n: nat)
    requires n < 0x1_0000_0000
    ensures n <= RoundUp(n) < n + PAGE
    ensures RoundUp(n) % PAGE == 0
  {
  }

  lemma RoundUpIs(n: nat)
    requires n < 0x1_0000_0000
    ensures RoundUp(n) == n - n % PAGE + (if n % PAGE != 0 then PAGE else 0)
  {
  }

  lemma PagesAdd(a: nat, n: nat)
    requires a % PAGE == 0
    ensures (a + n) % PAGE == n % PAGE
  {
  }

  lemma RoundUpWhole(n: nat)
    ensures RoundUp(n) % PAGE == 0
  {
  }

  // ----- choosing a hole -----------------------------------------------------

  predicate Misaligned(pos: nat) {
    (pos + HEADER_SIZE) % PAGE != 0
  }

  function AlignOffset(pos: nat): nat {
    if Misaligned(pos) then PAGE - (pos + HEADER_SIZE) % PAGE else 0
  }

  /** The test find_smallest_hole makes of a hole at pos. */
  predicate FitsAt(pos: nat, size: nat, ns: nat, align: bool) {
    if align then size > AlignOffset(pos) && size - AlignOffset(pos) >= ns
    else size >= ns
  }

  predicate Fits(r: Region, ns: nat, align: bool) {
    r.hole && FitsAt(r.pos, r.size, ns, align)
  }

  predicate FitsIn(rs: seq<Region>, k: int, ns: nat, align: bool)
    requires 0 <= k < |rs|
  {
    Fits(rs[k], ns, align)
  }

  ghost predicate SomeFits(rs: seq<Region>, ns: nat, align: bool) {
    exists k :: 0 <= k < |rs| && FitsIn(rs, k, ns, align)
  }

  /** Hole r has ns bytes in a row from q on, behind whose header, when asked, a page
      begins. */
  ghost predicate RoomAt(r: Region, q: nat, ns: nat, align: bool) {
    r.hole && r.pos <= q && q + ns <= r.End() && (align ==> (q + HEADER_SIZE) % PAGE == 0)
  }

  ghost predicate Room(rs: seq<Region>, ns: nat, align: bool) {
    exists k, q: nat :: 0 <= k < |rs| && RoomAt(rs[k], q, ns, align)
  }

  /** The test passes exactly the holes in which there is such a place. */
  lemma FitsIff(r: Region, ns: nat, align: bool)
    requires ns > 0
    ensures Fits(r, ns, align) <==> exists q: nat :: RoomAt(r, q, ns, align)
  {
    AlignFacts(r.pos);
    if Fits(r, ns, align) {
      assert RoomAt(r, if align then r.pos + AlignOffset(r.pos) else r.pos, ns, align);
    }
    if q: nat :| RoomAt(r, q, ns, align) {
      if align { NextPage(r.pos, q); }
    }
  }

  /** No page begins behind a header between pos and the place AlignOffset finds. */
  lemma NextPage(pos: nat, q: nat)
    requires pos <= q && (q + HEADER_SIZE) % PAGE == 0
    ensures q >= pos + AlignOffset(pos)
  {
    var a, b := (pos + HEADER_SIZE) / PAGE, (q + HEADER_SIZE) / PAGE;
    assert pos + HEADER_SIZE == a * PAGE + (pos + HEADER_SIZE) % PAGE && q + HEADER_SIZE == b * PAGE;
  }

  /** A heap has a hole that fits exactly if it has room in one. */
  lemma RoomIff(rs: seq<Region>, ns: nat, align: bool)
    requires ns > 0
    ensures SomeFits(rs, ns, align) <==> Room(rs, ns, align)
  {
    if SomeFits(rs, ns, align) {
      var k :| 0 <= k < |rs| && FitsIn(rs, k, ns, align);
      FitsIff(rs[k], ns, align);
    }
    if Room(rs, ns, align) {
      var k, q: nat :| 0 <= k < |rs| && RoomAt(rs[k], q, ns, align);
      FitsIff(rs[k], ns, align);
      assert FitsIn(rs, k, ns, align);
    }
  }

  // ----- splitting the chosen hole -------------------------------------------

  /** The regions whose headers alloc writes over hole r, in address order. */
  function Split(r: Region, ns: nat, align: bool): seq<Region>
    requires r.End() + PAGE < U64 && ns < U64
  {
    var size := if Sub64(r.size, ns) < OVERHEAD then r.size else ns;
    var gap := align && Misaligned(r.pos);
    var front := if gap then Sub64(PAGE, r.pos % PAGE + HEADER_SIZE) else 0;
    var pos := if gap then Sub64(r.pos + PAGE, r.pos % PAGE + HEADER_SIZE) else r.pos;
    var rest := Sub64(Sub64(r.size, front), size);
    (if gap then [Region(r.pos, front, true)] else [])
    + [Region(pos, size, false)]
    + (if rest > 0 then [Region(pos + size, rest, true)] else [])
  }

  /** What a page-aligned request asks of the hole it is cut from: the header is
      not in the page's last 15 bytes, the gap in front can hold two tags, and
      what is left behind is nothing or can hold two tags. */
  predicate SafeSplit(r: Region, ns: nat, align: bool) {
    align && Misaligned(r.pos) ==>
      && r.pos % PAGE + HEADER_SIZE + OVERHEAD <= PAGE
      && (r.size - AlignOffset(r.pos) == ns || r.size - AlignOffset(r.pos) >= ns + OVERHEAD)
  }

  lemma AlignFacts(pos: nat)
    ensures Misaligned(pos) <==> pos % PAGE != PAGE - HEADER_SIZE
    ensures pos % PAGE < PAGE - HEADER_SIZE ==> AlignOffset(pos) == PAGE - HEADER_SIZE - pos % PAGE
    ensures AlignOffset(pos) < PAGE && (pos + AlignOffset(pos) + HEADER_SIZE) % PAGE == 0
  {
    var x := pos % PAGE;
    assert pos == pos / PAGE * PAGE + x;
    if x < PAGE - HEADER_SIZE {
      assert (pos + HEADER_SIZE) % PAGE == x + HEADER_SIZE;
    } else {
      assert (pos + HEADER_SIZE) % PAGE == x + HEADER_SIZE - PAGE;
    }
  }

  /** The split covers the hole exactly, with regions big enough for their tags,
      if and only if the request is safe; unaligned requests always are. */
  lemma SplitTilesIff(r: Region, ns: nat, align: bool)
    requires OVERHEAD <= ns < U64 && r.End() + PAGE < U64
    requires Fits(r, ns, align)
    ensures Tiles(Split(r, ns, align), r.pos, r.End()) <==> SafeSplit(r, ns, align)
  {
    AlignFacts(r.pos);
    if align && Misaligned(r.pos) {
      AlignedSplitTilesIff(r, ns);
    } else {
      PlainSplit(r, ns, align);
    }
  }

  lemma PlainSplit(r: Region, ns: nat, align: bool)
    requires OVERHEAD <= ns < U64 && r.End() + PAGE < U64
    requires r.size >= ns && !(align && Misaligned(r.pos))
    ensures Split(r, ns, align) ==
      if r.size - ns < OVERHEAD then [Region(r.pos, r.size, false)]
      else [Region(r.pos, ns, false), Region(r.pos + ns, r.size - ns, true)]
  {
  }

  lemma AlignedSplitTilesIff(r: Region, ns: nat)
    requires OVERHEAD <= ns < U64 && r.End() + PAGE < U64
    requires Fits(r, ns, true) && Misaligned(r.pos)
    ensures Tiles(Split(r, ns, true), r.pos, r.End()) <==> SafeSplit(r, ns, true)
  {
    AlignFacts(r.pos);
    var x := r.pos % PAGE;
    var out := Split(r, ns, true);
    if SafeSplit(r, ns, true) {
      SafeAlignedSplit(r, ns);
    } else if x > PAGE - HEADER_SIZE {
      assert !Joins(out, 0);
    } else if x + HEADER_SIZE + OVERHEAD > PAGE {
      assert out[0].size < OVERHEAD;
    } else {
      assert out[2] == Region(out[1].pos + ns, r.size - AlignOffset(r.pos) - ns, true);
    }
  }

  lemma SafeAlignedSplit(r: Region, ns: nat)
    requires OVERHEAD <= ns < U64 && r.End() + PAGE < U64
    requires Fits(r, ns, true) && Misaligned(r.pos) && SafeSplit(r, ns, true)
    ensures var gap := AlignOffset(r.pos);
      && gap >= OVERHEAD && gap == PAGE - r.pos % PAGE - HEADER_SIZE
      && Split(r, ns, true) ==
        [Region(r.pos, gap, true), Region(r.pos + gap, ns, false)]
        + (if r.size - gap > ns then [Region(r.pos + gap + ns, r.size - gap - ns, true)] else [])
  {
    AlignFacts(r.pos);
  }

  /** The block alloc carves out of a safe split. */
  function Carved(r: Region, ns: nat, align: bool): Region
    requires r.End() + PAGE < U64 && ns < U64
  {
    var out := Split(r, ns, align);
    if align && Misaligned(r.pos) then out[1] else out[0]
  }

  /** Block b cut out of hole r, with what is in front and behind as holes. */
  function Pieces(r: Region, b: Region): seq<Region>
    requires r.pos <= b.pos && b.End() <= r.End()
  {
    (if r.pos < b.pos then [Region(r.pos, b.pos - r.pos, true)] else [])
    + [b]
    + (if b.End() < r.End() then [Region(b.End(), r.End() - b.End(), true)] else [])
  }

  lemma PiecesRoom(r: Region, b: Region)
    requires r.pos <= b.pos && b.End() <= r.End()
    requires Tiles(Pieces(r, b), r.pos, r.End())
    ensures b.size >= OVERHEAD
    ensures r.pos < b.pos ==> r.pos + OVERHEAD <= b.pos
    ensures b.End() < r.End() ==> b.End() + OVERHEAD <= r.End()
  {
    var mid := Pieces(r, b);
    assert b == mid[if r.pos < b.pos then 1 else 0];
    assert r.pos < b.pos ==> mid[0].size >= OVERHEAD;
    assert mid[|mid| - 1].size >= OVERHEAD;
  }

  /** The holes among the pieces: the front, at the old header, and the rest. */
  lemma PiecesHoles(r: Region, b: Region, p: nat)
    requires r.pos <= b.pos && b.End() <= r.End() && !b.hole
    ensures var mid := Pieces(r, b);
      HoleAmong(mid, 0, |mid|, p) <==> (r.pos < b.pos && p == r.pos) || (b.End() < r.End() && p == b.End())
  {
    var mid := Pieces(r, b);
    if r.pos < b.pos && p == r.pos { assert mid[0].hole && mid[0].pos == p; }
    if b.End() < r.End() && p == b.End() {
      assert mid[|mid| - 1].hole && mid[|mid| - 1].pos == p;
    }
  }

  /** A safe split is a hole in front (when alignment asks for one), a block that
      is large enough and, when asked, page-aligned behind its header, and the
      rest as a hole. */
  lemma CarvedBlock(r: Region, ns: nat, align: bool)
    requires OVERHEAD <= ns < U64 && r.End() + PAGE < U64
    requires Fits(r, ns, align) && SafeSplit(r, ns, align)
    ensures var b := Carved(r, ns, align);
      && !b.hole && b.size >= ns && r.pos <= b.pos && b.End() <= r.End()
      && (align ==> (b.pos + HEADER_SIZE) % PAGE == 0)
      && Split(r, ns, align) == Pieces(r, b)
  {
    AlignFacts(r.pos);
    if align && Misaligned(r.pos) {
      SafeAlignedSplit(r, ns);
    } else {
      PlainSplit(r, ns, align);
    }
  }

  // ----- growing ---------------------------------------------------------------

  function GrowBy(len: nat, ns: nat): int {
    RoundUp(len + ns) - len
  }

  /** The hole at the highest address, which is what growth enlarges. */
  ghost function HighestHole(rs: seq<Region>): (k: int)
    ensures -1 <= k < |rs|
    ensures k >= 0 ==> rs[k].hole
    ensures forall j :: k < j < |rs| ==> !rs[j].hole
  {
    if rs == [] then -1
    else if rs[|rs| - 1].hole then |rs| - 1
    else HighestHole(rs[..|rs| - 1])
  }

  ghost function Grown(rs: seq<Region>, hi: nat, g: nat): seq<Region> {
    var k := HighestHole(rs);
    if k < 0 then Splice(rs, |rs|, |rs|, [Region(hi, g, true)])
    else Splice(rs, k, k + 1, [rs[k].(size := rs[k].size + g)])
  }

  /** There is no hole, or the highest hole ends the heap. */
  ghost predicate Growable(rs: seq<Region>) {
    rs != [] && (HighestHole(rs) < 0 || rs[|rs| - 1].hole)
  }

  /** The enlarged heap is tiled if and only if the hole that grew was the last
      region, or there was none. */
  lemma GrownTilesIff(rs: seq<Region>, lo: nat, hi: nat, g: nat)
    requires Tiles(rs, lo, hi)
    requires g >= OVERHEAD
    ensures Tiles(Grown(rs, hi, g), lo, hi + g) <==> Growable(rs)
  {
    var k := HighestHole(rs);
    var out := Grown(rs, hi, g);
    if k < 0 {
      SpliceTiles(rs, |rs|, |rs|, [Region(hi, g, true)], lo, hi, hi + g);
    } else if k == |rs| - 1 {
      var mid := [rs[k].(size := rs[k].size + g)];
      SpliceTiles(rs, k, |rs|, mid, lo, hi, hi + g);
    } else {
      assert Joins(rs, k);
      assert !Joins(out, k);
    }
  }

  lemma GrownGrowable(rs: seq<Region>, hi: nat, g: nat)
    requires Growable(rs)
    ensures Growable(Grown(rs, hi, g))
    ensures var out := Grown(rs, hi, g); out[|out| - 1].hole && out[|out| - 1].size >= g
  {
    var out := Grown(rs, hi, g);
    assert HighestHole(out) == |out| - 1;
  }

  /** How many times alloc has to grow the heap before the request fits. */
  ghost function GrowthsNeeded(rs: seq<Region>, hi: nat, ns: nat, align: bool, g: nat): (n: nat)
    ensures n <= 2
  {
    if SomeFits(rs, ns, align) then 0
    else if SomeFits(Grown(rs, hi, g), ns, align) then 1
    else 2
  }

  /** Growing by whole pages that cover the request, an unaligned request fits
      after one growth and a page-aligned one after two at the latest. */
  lemma GrowthSuffices(rs: seq<Region>, hi: nat, ns: nat, align: bool, g: nat)
    requires Growable(rs)
    requires g >= ns > 0 && g % PAGE == 0
    ensures !align ==> SomeFits(Grown(rs, hi, g), ns, align)
    ensures SomeFits(Grown(Grown(rs, hi, g), hi + g, g), ns, align)
  {
    GrownGrowable(rs, hi, g);
    var one := Grown(rs, hi, g);
    var last := one[|one| - 1];
    assert !align ==> FitsIn(one, |one| - 1, ns, align);
    var two := Grown(one, hi + g, g);
    assert HighestHole(one) == |one| - 1;
    assert two[|two| - 1] == last.(size := last.size + g);
    assert FitsIn(two, |two| - 1, ns, align);
  }

  // ----- freeing ---------------------------------------------------------------

  predicate MergesLeft(rs: seq<Region>, k: nat)
    requires k < |rs|
  {
    k > 0 && rs[k - 1].hole
  }

  predicate MergesRight(rs: seq<Region>, k: nat)
    requires k < |rs|
  {
    k + 1 < |rs| && rs[k + 1].hole
  }

  function First(rs: seq<Region>, k: nat): (i: nat)
    requires k < |rs|
    ensures i <= k
  {
    if MergesLeft(rs, k) then k - 1 else k
  }

  function Limit(rs: seq<Region>, k: nat): (j: nat)
    requires k < |rs|
    ensures k < j <= |rs|
  {
    if MergesRight(rs, k) then k + 2 else k + 1
  }

  /** The hole that freeing region k leaves, before the heap may shrink. */
  function Merged(rs: seq<Region>, k: nat): Region
    requires k < |rs|
  {
    var i, j := First(rs, k), Limit(rs, k);
    var size := rs[k].size + (if MergesLeft(rs, k) then rs[k - 1].size else 0)
                           + (if MergesRight(rs, k) then rs[k + 1].size else 0);
    Region(rs[i].pos, size, true)
  }

  lemma MergedSpan(rs: seq<Region>, lo: nat, hi: nat, k: nat)
    requires Tiles(rs, lo, hi)
    requires k < |rs|
    ensures Tiles([Merged(rs, k)], rs[First(rs, k)].pos, PosOf(rs, Limit(rs, k), hi))
    ensures Merged(rs, k).End() == rs[Limit(rs, k) - 1].End()
  {
    assert MergesLeft(rs, k) ==> Joins(rs, k - 1);
    assert MergesRight(rs, k) ==> Joins(rs, k);
    assert Limit(rs, k) < |rs| ==> Joins(rs, Limit(rs, k) - 1);
  }

  lemma MergedShape(rs: seq<Region>, lo: nat, hi: nat, k: nat)
    requires Tiles(rs, lo, hi)
    requires k < |rs|
    ensures Merged(rs, k).pos == if MergesLeft(rs, k) then rs[k - 1].pos else rs[k].pos
    ensures Merged(rs, k).End() == if MergesRight(rs, k) then rs[k + 1].End() else rs[k].End()
    ensures Merged(rs, k).size == Merged(rs, k).End() - Merged(rs, k).pos
  {
    MergedSpan(rs, lo, hi, k);
  }

  predicate Shrinks(rs: seq<Region>, k: nat)
    requires k < |rs|
  {
    Limit(rs, k) == |rs|
  }

  /** The length contract settles on when asked to keep n bytes. */
  function ContractedLength(n: nat): nat {
    if RoundUp(n) < HEAP_MIN_SIZE then HEAP_MIN_SIZE else RoundUp(n)
  }

  /** How much of the freed hole survives the contraction. */
  function Remainder(rs: seq<Region>, k: nat, lo: nat): int
    requires k < |rs|
  {
    var p := Merged(rs, k).pos;
    lo + ContractedLength(if p >= lo then p - lo else 0) - p
  }

  function EndAfterFree(rs: seq<Region>, k: nat, lo: nat, hi: nat): nat
    requires k < |rs|
  {
    if Shrinks(rs, k) then
      var p := Merged(rs, k).pos;
      lo + ContractedLength(if p >= lo then p - lo else 0)
    else hi
  }

  /** The regions after free: the code keeps the hole only if its remainder is
      positive. */
  ghost function Freed(rs: seq<Region>, k: nat, lo: nat): seq<Region>
    requires k < |rs|
  {
    var mid :=
      if !Shrinks(rs, k) then [Merged(rs, k)]
      else if Remainder(rs, k, lo) > 0 then [Merged(rs, k).(size := Remainder(rs, k, lo))]
      else [];
    Splice(rs, First(rs, k), Limit(rs, k), mid)
  }

  /** What free does to the index. When the remainder is zero the code looks for
      the right neighbour, which is not there to be found, so nothing more is
      removed and the header is inserted as in every other case. */
  ghost function FreedIndex(idx: set<nat>, rs: seq<Region>, k: nat): set<nat>
    requires k < |rs|
  {
    idx - (if MergesRight(rs, k) then {rs[k + 1].pos} else {})
        + (if MergesLeft(rs, k) then {} else {rs[k].pos})
  }

  lemma ContractionBounds(rs: seq<Region>, k: nat, lo: nat, hi: nat)
    requires Tiles(rs, lo, hi)
    requires k < |rs|
    requires hi - lo < 0x1_0000_0000 && (hi - lo) % PAGE == 0 && hi - lo >= HEAP_MIN_SIZE
    ensures Shrinks(rs, k) ==> 0 <= Remainder(rs, k, lo) <= Merged(rs, k).size
    ensures lo + HEAP_MIN_SIZE <= EndAfterFree(rs, k, lo, hi) <= hi
    ensures (EndAfterFree(rs, k, lo, hi) - lo) % PAGE == 0
  {
    RegionBounds(rs, lo, hi, First(rs, k));
    MergedSpan(rs, lo, hi, k);
    var n := Merged(rs, k).pos - lo;
    RoundUpPage(n);
    assert RoundUp(n) <= hi - lo;
  }

  /** The heap shrinks exactly when the merged hole ends it. */
  lemma ShrinksIff(rs: seq<Region>, lo: nat, hi: nat, k: nat)
    requires Tiles(rs, lo, hi) && k < |rs|
    ensures Shrinks(rs, k) <==> Merged(rs, k).End() == hi
  {
    MergedSpan(rs, lo, hi, k);
    RegionBounds(rs, lo, hi, |rs| - 1);
    if Limit(rs, k) < |rs| { RegionsAscend(rs, lo, hi, Limit(rs, k) - 1, |rs| - 1); }
  }

  /** And then to the nearest end that a heap can have: a page boundary, at the minimum
      size or above, not below the header of the merged hole. */
  lemma ContractionLeast(rs: seq<Region>, k: nat, lo: nat, hi: nat, e: nat)
    requires Tiles(rs, lo, hi) && k < |rs| && Shrinks(rs, k) && hi - lo < 0x1_0000_0000
    requires lo + HEAP_MIN_SIZE <= e && (e - lo) % PAGE == 0 && Merged(rs, k).pos <= e
    ensures Merged(rs, k).pos <= EndAfterFree(rs, k, lo, hi) <= e
  {
    RegionBounds(rs, lo, hi, First(rs, k));
    var n := Merged(rs, k).pos - lo;
    RoundUpPage(n);
    LeastBoundary(n, e - lo);
  }

  lemma LeastBoundary(n: nat, e: nat)
    requires n <= e && e % PAGE == 0 && n < 0x1_0000_0000
    ensures RoundUp(n) <= e
  {
    RoundUpIs(n);
    var q := n / PAGE;
    assert n == q * PAGE + n % PAGE && e == e / PAGE * PAGE;
  }

  lemma MergedHoles(rs: seq<Region>, k: nat, p: nat)
    requires k < |rs| && !rs[k].hole
    ensures HoleAmong(rs, First(rs, k), Limit(rs, k), p) <==>
      || (MergesLeft(rs, k) && p == rs[k - 1].pos)
      || (MergesRight(rs, k) && p == rs[k + 1].pos)
  {
  }

  /** The index entries after free, when the hole survives. */
  lemma FreedIndexHoles(rs: seq<Region>, k: nat, lo: nat, hi: nat, mid: Region)
    requires Tiles(rs, lo, hi)
    requires k < |rs| && !rs[k].hole
    requires mid.hole && mid.pos == Merged(rs, k).pos
    ensures FreedIndex(Holes(rs), rs, k) == Holes(Splice(rs, First(rs, k), Limit(rs, k), [mid]))
  {
    var out := Splice(rs, First(rs, k), Limit(rs, k), [mid]);
    forall p
      ensures p in FreedIndex(Holes(rs), rs, k) <==> p in Holes(out)
    {
      SpliceHoles(rs, First(rs, k), Limit(rs, k), [mid], lo, hi, p);
      MergedHoles(rs, k, p);
      SingleHole(mid, p);
      if MergesLeft(rs, k) && MergesRight(rs, k) {
        RegionsAscend(rs, lo, hi, k - 1, k + 1);
      }
    }
  }

  lemma SingleHole(r: Region, p: nat)
    ensures HoleAmong([r], 0, 1, p) <==> r.hole && p == r.pos
  {
    assert r.hole && p == r.pos ==> [r][0].hole && [r][0].pos == p;
  }

  /** With nothing left of the hole the index keeps an entry for it, at or beyond the
      heap's new end. */
  lemma DanglingEntry(rs: seq<Region>, k: nat, lo: nat, hi: nat)
    requires Tiles(rs, lo, hi)
    requires k < |rs| && !rs[k].hole && Shrinks(rs, k) && Remainder(rs, k, lo) <= 0
    ensures rs[First(rs, k)].pos in FreedIndex(Holes(rs), rs, k)
    ensures rs[First(rs, k)].pos >= EndAfterFree(rs, k, lo, hi)
    ensures FreedIndex(Holes(rs), rs, k) != Holes(Splice(rs, First(rs, k), |rs|, []))
  {
    var i := First(rs, k);
    var p := rs[i].pos;
    if MergesRight(rs, k) { RegionsAscend(rs, lo, hi, i, k + 1); }
    assert p in FreedIndex(Holes(rs), rs, k);
    var out := Splice(rs, i, |rs|, []);
    forall h | 0 <= h < |out|
      ensures out[h].pos != p
    {
      RegionsAscend(rs, lo, hi, h, i);
    }
  }

  /** After free the regions tile the heap and the index holds exactly the holes,
      each once, if and only if the freed hole does not end the heap or at least
      32 bytes of it survive the contraction. */
  lemma FreedSoundIff(rs: seq<Region>, k: nat, lo: nat, hi: nat)
    requires Tiles(rs, lo, hi)
    requires k < |rs| && !rs[k].hole
    requires hi - lo < 0x1_0000_0000 && (hi - lo) % PAGE == 0 && hi - lo >= HEAP_MIN_SIZE
    ensures (&& Tiles(Freed(rs, k, lo), lo, EndAfterFree(rs, k, lo, hi))
             && FreedIndex(Holes(rs), rs, k) == Holes(Freed(rs, k, lo)))
       <==> (Shrinks(rs, k) ==> Remainder(rs, k, lo) >= OVERHEAD)
  {
    var i, j := First(rs, k), Limit(rs, k);
    var rem := Remainder(rs, k, lo);
    MergedSpan(rs, lo, hi, k);
    ContractionBounds(rs, k, lo, hi);
    if Shrinks(rs, k) && rem <= 0 {
      DanglingEntry(rs, k, lo, hi);
    } else {
      var mid := if Shrinks(rs, k) then Merged(rs, k).(size := rem) else Merged(rs, k);
      FreedIndexHoles(rs, k, lo, hi, mid);
      var out := Splice(rs, i, j, [mid]);
      if mid.size >= OVERHEAD {
        SpliceTiles(rs, i, j, [mid], lo, hi, mid.End());
      } else {
        assert out[i] == mid;
      }
    }
  }

  // ----- coalescing ------------------------------------------------------------

  lemma SpliceCoalesced(rs: seq<Region>, i: nat, j: nat, mid: seq<Region>)
    requires Coalesced(rs) && Coalesced(mid)
    requires i <= j <= |rs| && mid != []
    requires mid[0].hole && 0 < i ==> !rs[i - 1].hole
    requires mid[|mid| - 1].hole && j < |rs| ==> !rs[j].hole
    ensures Coalesced(Splice(rs, i, j, mid))
  {
    var out := Splice(rs, i, j, mid);
    forall k | 0 <= k < |out| - 1
      ensures Apart(out, k)
    {
      if k + 1 < i {
        assert Apart(rs, k);
      } else if k + 1 == i {
        assert out[k + 1] == mid[0] && out[k] == rs[i - 1];
      } else if k + 1 < i + |mid| {
        assert Apart(mid, k - i);
      } else if k + 1 == i + |mid| {
        assert out[k] == mid[|mid| - 1] && out[k + 1] == rs[j];
      } else {
        assert out[k] == rs[k - i - |mid| + j];
        assert Apart(rs, k - i - |mid| + j);
      }
    }
  }

  /** Free merges with both neighbours, so holes never lie side by side. */
  lemma FreedCoalesced(rs: seq<Region>, k: nat, lo: nat)
    requires Coalesced(rs)
    requires k < |rs| && !rs[k].hole
    ensures Coalesced(Freed(rs, k, lo))
  {
    var i, j := First(rs, k), Limit(rs, k);
    assert 0 < i ==> Apart(rs, i - 1);
    assert j < |rs| ==> Apart(rs, j - 1);
    if Shrinks(rs, k) && Remainder(rs, k, lo) <= 0 {
      assert Freed(rs, k, lo) == rs[..i];
      forall t: nat | t + 1 < i
        ensures Apart(rs[..i], t)
      {
        assert Apart(rs, t);
      }
      assert Coalesced(rs[..i]);
    } else {
      var mid := [if Shrinks(rs, k) then Merged(rs, k).(size := Remainder(rs, k, lo)) else Merged(rs, k)];
      SpliceCoalesced(rs, i, j, mid);
      assert Freed(rs, k, lo) == Splice(rs, i, j, mid);
    }
  }
}

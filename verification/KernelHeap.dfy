/**
  The kernel heap: create_heap, alloc and free over boundary tags in memory, an
  index of holes, and kernel pages that back the heap's growth.
 */
module KernelHeap {
  import opened Basics
  import opened Ram
  import opened Regions
  import opened HeapSteps
  import opened OrderedArray

  /** What lies just below the heap does not read as a footer. */
  ghost predicate Guarded(m: seq<byte>, lo: nat) {
    Load(m, lo - FOOTER_SIZE, 4) != HEAP_MAGIC
  }

  /** Memory m and index idx represent the regions rs over [lo, hi). */
  ghost predicate Sound(m: seq<byte>, idx: set<nat>, rs: seq<Region>, lo: nat, hi: nat) {
    && Guarded(m, lo)
    && Tiles(rs, lo, hi)
    && Coalesced(rs)
    && Represents(m, rs)
    && idx == Holes(rs)
  }

  ghost function Members(xs: seq<nat>): set<nat> {
    set p | p in xs
  }

  function SizeField(m: seq<byte>, p: nat): nat {
    Load(m, p + 8, 8)
  }

  function SizeKey(m: seq<byte>): nat -> nat {
    (p: nat) => SizeField(m, p)
  }

  lemma EntryRegion(m: seq<byte>, idx: set<nat>, rs: seq<Region>, lo: nat, hi: nat, p: nat) returns (k: nat)
    requires Sound(m, idx, rs, lo, hi)
    requires p in idx
    ensures k < |rs| && rs[k].hole && rs[k].pos == p && SizeField(m, p) == rs[k].size
    ensures HeaderAt(m, p, rs[k].size, true)
    ensures lo <= p && rs[k].End() <= hi
  {
    k :| 0 <= k < |rs| && rs[k].hole && rs[k].pos == p;
    assert TaggedAt(m, rs, k);
    RegionBounds(rs, lo, hi, k);
  }

  lemma RegionEntry(m: seq<byte>, idx: set<nat>, rs: seq<Region>, lo: nat, hi: nat, k: nat)
    requires Sound(m, idx, rs, lo, hi)
    requires k < |rs| && rs[k].hole
    ensures rs[k].pos in idx && SizeField(m, rs[k].pos) == rs[k].size
  {
    assert TaggedAt(m, rs, k);
  }

  // ----- first fit in index order ---------------------------------------------

  ghost predicate EntryFits(m: seq<byte>, p: nat, ns: nat, align: bool) {
    FitsAt(p, SizeField(m, p), ns, align)
  }

  ghost predicate NoneFits(m: seq<byte>, xs: seq<nat>, ns: nat, align: bool) {
    forall p :: p in xs ==> !EntryFits(m, p, ns, align)
  }

  ghost predicate Readable(xs: seq<nat>, length: nat) {
    forall p :: p in xs ==> p + HEADER_SIZE <= length
  }

  lemma EntriesReadable(m: seq<byte>, xs: seq<nat>, rs: seq<Region>, lo: nat, hi: nat)
    requires Sound(m, Members(xs), rs, lo, hi)
    ensures Readable(xs, |m|)
  {
    forall p | p in xs
      ensures p + HEADER_SIZE <= |m|
    {
      var k := EntryRegion(m, Members(xs), rs, lo, hi, p);
    }
  }

  /** A heap of one hole. */
  lemma OneHoleSound(m: seq<byte>, lo: nat, hi: nat)
    requires lo + OVERHEAD <= hi && HeaderAt(m, lo, hi - lo, true)
    requires Guarded(m, lo)
    ensures Sound(m, {lo}, [Region(lo, hi - lo, true)], lo, hi)
  {
  }

  /** No fitting hole is smaller than size. */
  ghost predicate Smallest(rs: seq<Region>, size: nat, ns: nat, align: bool) {
    forall k :: 0 <= k < |rs| && FitsIn(rs, k, ns, align) ==> size <= rs[k].size
  }

  lemma NoEntryNoHole(m: seq<byte>, xs: seq<nat>, rs: seq<Region>, lo: nat, hi: nat, ns: nat, align: bool)
    requires Sound(m, Members(xs), rs, lo, hi)
    requires NoneFits(m, xs, ns, align)
    ensures !SomeFits(rs, ns, align)
  {
    forall k | 0 <= k < |rs|
      ensures !FitsIn(rs, k, ns, align)
    {
      if rs[k].hole {
        RegionEntry(m, Members(xs), rs, lo, hi, k);
        assert !EntryFits(m, rs[k].pos, ns, align);
      }
    }
  }

  lemma FirstFitFits(m: seq<byte>, xs: seq<nat>, rs: seq<Region>, lo: nat, hi: nat, ns: nat, align: bool, it: nat)
    requires Sound(m, Members(xs), rs, lo, hi)
    requires it < |xs| && EntryFits(m, xs[it], ns, align)
    requires NoneFits(m, xs[..it], ns, align)
    ensures SomeFits(rs, ns, align)
    ensures SortedBy(xs, SizeKey(m)) ==> Smallest(rs, SizeField(m, xs[it]), ns, align)
  {
    assert xs[it] in Members(xs);
    var h := EntryRegion(m, Members(xs), rs, lo, hi, xs[it]);
    assert FitsIn(rs, h, ns, align);
    if SortedBy(xs, SizeKey(m)) {
      forall k | 0 <= k < |rs| && FitsIn(rs, k, ns, align)
        ensures SizeField(m, xs[it]) <= rs[k].size
      {
        RegionEntry(m, Members(xs), rs, lo, hi, k);
        var j :| 0 <= j < |xs| && xs[j] == rs[k].pos;
        assert EntryFits(m, xs[j], ns, align);
        assert xs == xs[..it] + xs[it..];
        assert xs[j] !in xs[..it];
        assert SizeKey(m)(xs[it]) <= SizeKey(m)(xs[j]);
      }
    }
  }

  // ----- requests the heap can serve -----------------------------------------

  /** Entry i of the index is the first that fits. */
  ghost predicate FirstFitting(m: seq<byte>, xs: seq<nat>, i: nat, ns: nat, align: bool) {
    i < |xs| && EntryFits(m, xs[i], ns, align) && NoneFits(m, xs[..i], ns, align)
  }

  /** First fit takes the hole at p. */
  ghost predicate TakenFirst(m: seq<byte>, xs: seq<nat>, p: nat, ns: nat, align: bool) {
    exists i: nat :: FirstFitting(m, xs, i, ns, align) && xs[i] == p
  }

  /** The hole that first fit takes, if there is one, can be split. */
  ghost predicate ChosenSafe(m: seq<byte>, xs: seq<nat>, ns: nat, align: bool) {
    forall i: nat :: FirstFitting(m, xs, i, ns, align) ==> SafeSplit(Region(xs[i], SizeField(m, xs[i]), true), ns, align)
  }

  /** The heap's end may move up by g bytes, enough for the request, and growth
      enlarges the region that ends the heap. */
  ghost predicate CanGrow(rs: seq<Region>, hi: nat, max: nat, ns: nat, g: nat) {
    Growable(rs) && ns <= g && hi + g <= max
  }

  /** The hole that ends the heap can be split. */
  ghost predicate LastSafe(rs: seq<Region>, ns: nat, align: bool) {
    rs != [] && SafeSplit(rs[|rs| - 1], ns, align)
  }

  /** Growth stays below max_address, and the hole that grew can be split once it is
      large enough. */
  ghost predicate GrowsSafely(rs: seq<Region>, hi: nat, max: nat, ns: nat, align: bool, g: nat) {
    && CanGrow(rs, hi, max, ns, g)
    && var once := Grown(rs, hi, g);
    && if SomeFits(once, ns, align) then LastSafe(once, ns, align)
       else CanGrow(once, hi + g, max, ns, g) && LastSafe(Grown(once, hi + g, g), ns, align)
  }

  /** The request can be served: from the hole that first fit takes, or after growth. */
  ghost predicate Servable(m: seq<byte>, xs: seq<nat>, rs: seq<Region>, hi: nat, max: nat, ns: nat, align: bool, g: nat) {
    if SomeFits(rs, ns, align) then ChosenSafe(m, xs, ns, align) else GrowsSafely(rs, hi, max, ns, align, g)
  }

  lemma OnlyLastFits(rs: seq<Region>, hi: nat, ns: nat, align: bool, g: nat, k: nat)
    requires !SomeFits(rs, ns, align)
    requires Growable(rs) && k < |Grown(rs, hi, g)| && FitsIn(Grown(rs, hi, g), k, ns, align)
    ensures k == |Grown(rs, hi, g)| - 1
  {
    if k < |Grown(rs, hi, g)| - 1 {
      assert FitsIn(rs, k, ns, align);
    }
  }

  /** After growth first fit takes the hole that grew: no other fits. */
  lemma GrownChosen(m: seq<byte>, xs: seq<nat>, rs: seq<Region>, lo: nat, hi: nat, ns: nat, align: bool, g: nat)
    requires Growable(rs) && !SomeFits(rs, ns, align)
    requires Sound(m, Members(xs), Grown(rs, hi, g), lo, hi + g)
    requires LastSafe(Grown(rs, hi, g), ns, align)
    ensures ChosenSafe(m, xs, ns, align)
  {
    var out := Grown(rs, hi, g);
    forall i: nat | FirstFitting(m, xs, i, ns, align)
      ensures SafeSplit(Region(xs[i], SizeField(m, xs[i]), true), ns, align)
    {
      assert xs[i] in Members(xs);
      var k := EntryRegion(m, Members(xs), out, lo, hi + g, xs[i]);
      assert FitsIn(out, k, ns, align);
      OnlyLastFits(rs, hi, ns, align, g, k);
      assert out[k] == Region(xs[i], SizeField(m, xs[i]), true);
    }
  }

  lemma GrowStep(lo: nat, hi: nat, ns: nat)
    requires lo <= hi && (hi - lo) % PAGE == 0
    requires hi - lo + ns < 0x1_0000_0000
    ensures ns <= GrowBy(hi - lo, ns) < ns + PAGE
    ensures GrowBy(hi - lo, ns) % PAGE == 0
    ensures GrowBy(hi - lo, ns) == RoundUp(ns)
  {
    PagesAdd(hi - lo, ns);
    RoundUpIs(hi - lo + ns);
    RoundUpIs(ns);
    RoundUpWhole(ns);
  }

  // ----- writes that stay inside one run of regions --------------------------

  /** Every byte of r is the same in m and n. */
  ghost predicate Kept(m: seq<byte>, n: seq<byte>, r: Region) {
    |m| == |n| && forall k :: r.pos <= k < r.End() && k < |m| ==> n[k] == m[k]
  }

  ghost predicate BlocksKept(m: seq<byte>, n: seq<byte>, rs: seq<Region>) {
    forall r :: r in rs && !r.hole ==> Kept(m, n, r)
  }

  /** Blocks that are live stay where they are. */
  ghost predicate BlocksStay(rs: seq<Region>, out: seq<Region>) {
    forall r :: r in rs && !r.hole ==> r in out
  }

  lemma KeptTwice(m: seq<byte>, n: seq<byte>, q: seq<byte>, rs: seq<Region>, mid: seq<Region>)
    requires BlocksKept(m, n, rs) && BlocksStay(rs, mid) && BlocksKept(n, q, mid)
    ensures BlocksKept(m, q, rs)
  {
    forall r | r in rs && !r.hole
      ensures Kept(m, q, r)
    {
      assert Kept(m, n, r) && Kept(n, q, r);
    }
  }

  lemma StayTwice(rs: seq<Region>, mid: seq<Region>, out: seq<Region>)
    requires BlocksStay(rs, mid) && BlocksStay(mid, out)
    ensures BlocksStay(rs, out)
  {
  }

  lemma GrownThenCut(m: seq<byte>, n: seq<byte>, q: seq<byte>, rs: seq<Region>, mid: seq<Region>, out: seq<Region>,
                     a: nat, e: nat, b: nat)
    requires BlocksKept(m, n, rs) && BlocksStay(rs, mid) && SameOutside(m, n, a, e) && e <= b
    requires BlocksKept(n, q, mid) && BlocksStay(mid, out) && SameOutside(n, q, a, b)
    ensures BlocksKept(m, q, rs) && BlocksStay(rs, out) && SameOutside(m, q, a, b)
  {
    KeptTwice(m, n, q, rs, mid);
    StayTwice(rs, mid, out);
  }

  lemma OthersKept(m: seq<byte>, n: seq<byte>, rs: seq<Region>, lo: nat, hi: nat, i: nat, j: nat, b: nat)
    requires Tiles(rs, lo, hi)
    requires i <= j <= |rs|
    requires SameOutside(m, n, PosOf(rs, i, hi), b)
    requires j < |rs| ==> b <= rs[j].pos
    ensures forall t :: 0 <= t < |rs| && !(i <= t < j) ==> Kept(m, n, rs[t])
    ensures (forall t :: i <= t < j ==> rs[t].hole) ==> BlocksKept(m, n, rs)
  {
    forall t | 0 <= t < |rs| && !(i <= t < j)
      ensures Kept(m, n, rs[t])
    {
      if t < i {
        if i < |rs| { RegionsAscend(rs, lo, hi, t, i); } else { RegionBounds(rs, lo, hi, t); }
      } else if j < t {
        RegionsAscend(rs, lo, hi, j, t);
      }
    }
  }

  lemma LastHoleKept(m: seq<byte>, n: seq<byte>, rs: seq<Region>, lo: nat, hi: nat, b: nat)
    requires Tiles(rs, lo, hi) && rs[|rs| - 1].hole
    requires SameOutside(m, n, rs[|rs| - 1].pos, b)
    ensures BlocksKept(m, n, rs)
  {
    OthersKept(m, n, rs, lo, hi, |rs| - 1, |rs|, b);
  }

  /** Entries whose regions lie outside the rewritten run keep their sizes. */
  lemma EntriesKept(m: seq<byte>, n: seq<byte>, idx: set<nat>, rs: seq<Region>, lo: nat, hi: nat,
                    i: nat, j: nat, b: nat, p: nat)
    requires Sound(m, idx, rs, lo, hi)
    requires i <= j <= |rs|
    requires SameOutside(m, n, PosOf(rs, i, hi), b)
    requires j < |rs| ==> b <= rs[j].pos
    requires p in idx && forall t :: i <= t < j ==> rs[t].pos != p
    ensures SizeField(n, p) == SizeField(m, p)
  {
    var t := EntryRegion(m, idx, rs, lo, hi, p);
    if t < i {
      if i < |rs| { RegionsAscend(rs, lo, hi, t, i); }
    } else if j < t {
      RegionsAscend(rs, lo, hi, j, t);
    }
    LoadFrame(m, n, p + 8, 8, PosOf(rs, i, hi), b);
  }

  /** Address p is an entry after regions i to j have given way to mid: unless it was
      a hole among them, if it was before, and if it is a hole of mid. */
  ghost predicate EntryFollows(idx: set<nat>, entries: set<nat>, rs: seq<Region>, i: nat, j: nat,
                               mid: seq<Region>, p: nat) {
    p in entries <==> (p in idx && !HoleAmong(rs, i, j, p)) || HoleAmong(mid, 0, |mid|, p)
  }

  lemma SpliceEntries(idx: set<nat>, entries: set<nat>, rs: seq<Region>, i: nat, j: nat, mid: seq<Region>,
                      lo: nat, hi: nat)
    requires Tiles(rs, lo, hi) && idx == Holes(rs) && i <= j <= |rs|
    requires forall p :: EntryFollows(idx, entries, rs, i, j, mid, p)
    ensures entries == Holes(Splice(rs, i, j, mid))
  {
    forall p
      ensures p in entries <==> p in Holes(Splice(rs, i, j, mid))
    {
      assert EntryFollows(idx, entries, rs, i, j, mid, p);
      SpliceHoles(rs, i, j, mid, lo, hi, p);
    }
  }

  lemma GuardKept(m: seq<byte>, n: seq<byte>, lo: nat, a: nat, b: nat)
    requires Guarded(m, lo) && SameOutside(m, n, a, b) && lo <= a
    ensures Guarded(n, lo)
  {
    LoadFrame(m, n, lo - FOOTER_SIZE, 4, a, b);
  }

  /** Replacing a run of regions, with writes that stay inside it, keeps the heap
      sound; everything alloc, free and growth do is of this kind. */
  lemma SpliceSound(m: seq<byte>, n: seq<byte>, idx: set<nat>, rs: seq<Region>, i: nat, j: nat,
                    mid: seq<Region>, lo: nat, hi: nat, e: nat, a: nat, b: nat,
                    entries: set<nat>, out: seq<Region>)
    requires Sound(m, idx, rs, lo, hi)
    requires i <= j <= |rs|
    requires Tiles(mid, PosOf(rs, i, hi), e)
    requires j < |rs| ==> e == rs[j].pos
    requires Coalesced(mid)
    requires mid[0].hole && 0 < i ==> !rs[i - 1].hole
    requires mid[|mid| - 1].hole && j < |rs| ==> !rs[j].hole
    requires i == |rs| ==> !rs[i - 1].hole
    requires SameOutside(m, n, a, b)
    requires PosOf(rs, i, hi) <= a
    requires j < |rs| ==> b <= rs[j].pos
    requires forall k :: 0 <= k < |mid| ==> Tagged(n, mid[k], k + 1 < |mid| || j < |rs| || !mid[k].hole)
    requires forall p :: EntryFollows(idx, entries, rs, i, j, mid, p)
    requires out == Splice(rs, i, j, mid)
    ensures Sound(n, entries, out, lo, if j < |rs| then hi else e)
  {
    if i < |rs| { RegionBounds(rs, lo, hi, i); } else { RegionBounds(rs, lo, hi, 0); }
    GuardKept(m, n, lo, a, b);
    SpliceTiles(rs, i, j, mid, lo, hi, e);
    SpliceRepresents(m, n, rs, i, j, mid, lo, hi, a, b);
    SpliceCoalesced(rs, i, j, mid);
    SpliceEntries(idx, entries, rs, i, j, mid, lo, hi);
  }

  lemma RegionNeighbours(m: seq<byte>, idx: set<nat>, rs: seq<Region>, lo: nat, hi: nat, k: nat)
    requires Sound(m, idx, rs, lo, hi)
    requires k < |rs| && rs[k].hole
    ensures k + 1 < |rs| ==> rs[k].End() == rs[k + 1].pos && !rs[k + 1].hole
    ensures 0 < k ==> !rs[k - 1].hole
  {
    assert k + 1 < |rs| ==> Joins(rs, k) && Apart(rs, k);
    assert 0 < k ==> Apart(rs, k - 1);
  }

  // ----- allocation ---------------------------------------------------------------

  /** The block and the holes around it have their tags. */
  ghost predicate PiecesTagged(m: seq<byte>, r: Region, b: Region) {
    && Tagged(m, b, true)
    && (r.pos < b.pos ==> Tagged(m, Region(r.pos, b.pos - r.pos, true), true))
    && (b.End() < r.End() ==> Tagged(m, Region(b.End(), r.End() - b.End(), true), true))
  }

  /** Carving block b out of hole k. */
  lemma CarvedSound(m: seq<byte>, n: seq<byte>, idx: set<nat>, entries: set<nat>, rs: seq<Region>,
                    lo: nat, hi: nat, k: nat, b: Region)
    requires Sound(m, idx, rs, lo, hi)
    requires k < |rs| && rs[k].hole && !b.hole
    requires rs[k].pos <= b.pos && b.End() <= rs[k].End()
    requires Tiles(Pieces(rs[k], b), rs[k].pos, rs[k].End())
    requires SameOutside(m, n, rs[k].pos, rs[k].End())
    requires PiecesTagged(n, rs[k], b)
    requires entries == (if rs[k].pos < b.pos then idx else idx - {rs[k].pos})
                      + (if b.End() < rs[k].End() then {b.End()} else {})
    ensures Sound(n, entries, Splice(rs, k, k + 1, Pieces(rs[k], b)), lo, hi)
  {
    var r := rs[k];
    var mid := Pieces(r, b);
    RegionEntry(m, idx, rs, lo, hi, k);
    var j := k + 1;
    forall p
      ensures EntryFollows(idx, entries, rs, k, j, mid, p)
    {
      assert HoleAmong(rs, k, k + 1, p) <==> p == r.pos;
      PiecesHoles(r, b, p);
    }
    RegionNeighbours(m, idx, rs, lo, hi, k);
    SpliceSound(m, n, idx, rs, k, j, mid, lo, hi, r.End(), r.pos, r.End(),
                entries, Splice(rs, k, k + 1, mid));
  }

  lemma InsideNoEntry(m: seq<byte>, idx: set<nat>, rs: seq<Region>, lo: nat, hi: nat, k: nat, p: nat)
    requires Sound(m, idx, rs, lo, hi)
    requires k < |rs| && rs[k].pos < p < rs[k].End()
    ensures p !in idx
  {
    if p in idx {
      var t := EntryRegion(m, idx, rs, lo, hi, p);
      RegionsDisjoint(rs, lo, hi, k, t);
    }
  }

  /** What is left of a sorted index after an entry of a rewritten run is taken
      out is still sorted under the new sizes. */
  lemma RemovedStaysSorted(m: seq<byte>, n: seq<byte>, xs: seq<nat>, rs: seq<Region>, lo: nat, hi: nat,
                           i: nat, j: nat, b: nat, ys: seq<nat>)
    requires Sound(m, Members(xs), rs, lo, hi)
    requires i <= j <= |rs|
    requires SameOutside(m, n, PosOf(rs, i, hi), b)
    requires j < |rs| ==> b <= rs[j].pos
    requires SortedBy(ys, SizeKey(m))
    requires forall p :: p in ys ==> p in xs && !HoleAmong(rs, i, j, p)
    ensures SortedBy(ys, SizeKey(n))
  {
    forall p | p in ys
      ensures SizeKey(n)(p) == SizeKey(m)(p)
    {
      assert forall t :: i <= t < j ==> rs[t].pos != p by {
        forall t | i <= t < j
          ensures rs[t].pos != p
        {
          var e := EntryRegion(m, Members(xs), rs, lo, hi, p);
          if rs[t].pos == p && e != t { RegionsDisjoint(rs, lo, hi, e, t); }
        }
      }
      EntriesKept(m, n, Members(xs), rs, lo, hi, i, j, b, p);
    }
    SameKeysSameOrder(ys, SizeKey(m), SizeKey(n));
  }

  lemma RemainderSorted(m: seq<byte>, n: seq<byte>, xs: seq<nat>, it: nat, rs: seq<Region>, lo: nat, hi: nat, k: nat)
    requires Sound(m, Members(xs), rs, lo, hi) && Distinct(xs)
    requires it < |xs| && k < |rs| && rs[k].pos == xs[it]
    requires SameOutside(m, n, rs[k].pos, rs[k].End())
    requires SortedBy(xs, SizeKey(m))
    ensures SortedBy(Removed(xs, it), SizeKey(n))
  {
    RemovedMembers(xs, it);
    RemovedKeepsOrder(xs, it, SizeKey(m));
    assert k + 1 < |rs| ==> Joins(rs, k);
    RemovedStaysSorted(m, n, xs, rs, lo, hi, k, k + 1, rs[k].End(), Removed(xs, it));
  }

  /** Writes inside one hole leave the blocks, and everything outside the heap. */
  lemma CutKept(m: seq<byte>, n: seq<byte>, rs: seq<Region>, lo: nat, hi: nat, k: nat)
    requires Tiles(rs, lo, hi) && k < |rs| && rs[k].hole
    requires SameOutside(m, n, rs[k].pos, rs[k].End())
    ensures BlocksKept(m, n, rs) && SameOutside(m, n, lo, hi)
  {
    assert k + 1 < |rs| ==> Joins(rs, k);
    RegionBounds(rs, lo, hi, k);
    OthersKept(m, n, rs, lo, hi, k, k + 1, rs[k].End());
  }

  /** What the index needs to know when block b has been cut out of hole k. */
  lemma CutIndex(m: seq<byte>, n: seq<byte>, xs: seq<nat>, it: nat, rs: seq<Region>, lo: nat, hi: nat,
                 k: nat, b: Region)
    requires Sound(m, Members(xs), rs, lo, hi) && Distinct(xs)
    requires it < |xs| && k < |rs| && rs[k].pos == xs[it]
    requires SameOutside(m, n, rs[k].pos, rs[k].End())
    requires !b.hole && rs[k].pos <= b.pos && b.End() <= rs[k].End()
    requires Tiles(Pieces(rs[k], b), rs[k].pos, rs[k].End())
    ensures b.End() < rs[k].End() ==> b.End() !in xs
    ensures SortedBy(xs, SizeKey(m)) ==> SortedBy(Removed(xs, it), SizeKey(n))
  {
    if b.End() < rs[k].End() {
      assert b in Pieces(rs[k], b);
      InsideNoEntry(m, Members(xs), rs, lo, hi, k, b.End());
    }
    if SortedBy(xs, SizeKey(m)) {
      RemainderSorted(m, n, xs, it, rs, lo, hi, k);
    }
  }

  // ----- free -----------------------------------------------------------------------

  /** What the probe of the tag below a header at h finds: the footer of the
      region there, or nothing that reads as a footer. */
  ghost predicate LeftTags(m: seq<byte>, h: nat, left: Option<Region>) {
    match left
    case None => Load(m, h - FOOTER_SIZE, 4) != HEAP_MAGIC
    case Some(l) =>
      && l.End() == h && OVERHEAD <= l.size
      && FooterAt(m, h - FOOTER_SIZE, l.pos)
      && HeaderAt(m, l.pos, l.size, l.hole)
  }

  ghost function LeftOf(rs: seq<Region>, k: nat): Option<Region>
    requires k < |rs|
  {
    if k > 0 then Some(rs[k - 1]) else None
  }

  /** The tags free relies on: those of the freed block and of its left neighbour. */
  lemma FreedTags(m: seq<byte>, idx: set<nat>, rs: seq<Region>, lo: nat, hi: nat, k: nat)
    requires Sound(m, idx, rs, lo, hi)
    requires k < |rs| && !rs[k].hole
    ensures HeaderAt(m, rs[k].pos, rs[k].size, false)
    ensures FooterAt(m, rs[k].End() - FOOTER_SIZE, rs[k].pos)
    ensures lo <= rs[k].pos && rs[k].End() <= hi && OVERHEAD <= rs[k].size
    ensures LeftTags(m, rs[k].pos, LeftOf(rs, k))
  {
    RegionBounds(rs, lo, hi, k);
    assert TaggedAt(m, rs, k);
    assert k > 0 ==> TaggedAt(m, rs, k - 1) && Joins(rs, k - 1);
  }

  /** What the probe of the header at e finds: that of the region there, or, at the
      heap's end, whatever is there. */
  ghost predicate RightTags(m: seq<byte>, e: nat, right: Option<Region>) {
    e + HEADER_SIZE <= |m| &&
    match right
    case None => true
    case Some(r) => r.pos == e && OVERHEAD <= r.size && HeaderAt(m, e, r.size, r.hole)
  }

  ghost predicate HoleReadAt(m: seq<byte>, e: nat)
    requires e + HEADER_SIZE <= |m|
  {
    Load(m, e, 4) == HEAP_MAGIC && m[e + 4] != 0
  }

  /** What lies behind block k has been handed out, slack being how much that is behind
      the heap's end: free reads there what may be a header. */
  predicate ProbeMapped(rs: seq<Region>, k: nat, slack: int) {
    k + 1 < |rs| || slack > 0
  }

  lemma ProbeMappedIff(rs: seq<Region>, lo: nat, hi: nat, k: nat, next: nat)
    requires Tiles(rs, lo, hi) && k < |rs| && hi <= next * PAGE
    ensures ProbeMapped(rs, k, next * PAGE - hi) <==> rs[k].End() < next * PAGE
  {
    RegionBounds(rs, lo, hi, k);
    if k + 1 < |rs| { RegionBounds(rs, lo, hi, k + 1); assert Joins(rs, k); }
  }

  /** The probe takes what it finds at e for a hole. */
  ghost predicate ProbedHole(m: seq<byte>, e: nat, right: Option<Region>)
    requires e + HEADER_SIZE <= |m|
  {
    if right.Some? then right.value.hole else HoleReadAt(m, e)
  }

  /** The last block is freed, and what lies at the heap's end reads as a hole. */
  ghost predicate Stray(m: seq<byte>, rs: seq<Region>, k: nat, hi: nat) {
    k == |rs| - 1 && hi + HEADER_SIZE <= |m| && HoleReadAt(m, hi)
  }

  ghost function RightOf(rs: seq<Region>, k: nat): Option<Region>
    requires k < |rs|
  {
    if k + 1 < |rs| then Some(rs[k + 1]) else None
  }

  lemma LeftTagsFrame(m: seq<byte>, n: seq<byte>, h: nat, b: nat, left: Option<Region>)
    requires LeftTags(m, h, left)
    requires SameOutside(m, n, h, b)
    ensures LeftTags(n, h, left)
  {
    match left
    case None => LoadFrame(m, n, h - FOOTER_SIZE, 4, h, b);
    case Some(l) =>
      TagFrame(m, n, h - FOOTER_SIZE, h, b);
      TagFrame(m, n, l.pos, h, b);
  }

  lemma FreedRight(m: seq<byte>, idx: set<nat>, rs: seq<Region>, lo: nat, hi: nat, k: nat)
    requires Sound(m, idx, rs, lo, hi)
    requires k < |rs| && hi + HEADER_SIZE <= |m|
    ensures RightTags(m, rs[k].End(), RightOf(rs, k))
    ensures RightOf(rs, k).Some? <==> rs[k].End() < hi
    ensures MergesRight(rs, k) ==> rs[k + 1].pos in idx && rs[k + 1].pos == rs[k].End()
    ensures k + 1 < |rs| ==> rs[k + 1].End() <= hi
    ensures k + 2 < |rs| ==> FooterAt(m, rs[k + 1].End() - FOOTER_SIZE, rs[k + 1].pos)
  {
    if k + 1 < |rs| {
      assert TaggedAt(m, rs, k + 1) && Joins(rs, k);
      RegionBounds(rs, lo, hi, k + 1);
      assert rs[k].End() == rs[k + 1].pos;
      if rs[k + 1].hole { RegionEntry(m, idx, rs, lo, hi, k + 1); }
    } else {
      assert rs[k].End() == hi;
    }
  }

  lemma RightTagsFrame(m: seq<byte>, n: seq<byte>, a: nat, e: nat, right: Option<Region>)
    requires RightTags(m, e, right)
    requires SameOutside(m, n, a, e)
    ensures RightTags(n, e, right)
    ensures ProbedHole(n, e, right) == ProbedHole(m, e, right) && SizeField(n, e) == SizeField(m, e)
    ensures forall q, h :: e <= q ==> FooterAt(n, q, h) == FooterAt(m, q, h)
  {
    TagFrame(m, n, e, a, e);
    LoadFrame(m, n, e, 4, a, e);
    LoadFrame(m, n, e + 8, 8, a, e);
    forall q, h | e <= q
      ensures FooterAt(n, q, h) == FooterAt(m, q, h)
    {
      TagFrame(m, n, q, a, e);
    }
  }

  /** The heap after free, exactly: it is sound if and only if what is left of a
      hole that ended the heap can hold two tags, and the footer of a hole that
      absorbed its right neighbour was rewritten, by the contraction or by the
      repair. */
  ghost predicate FreeIsSound(rs: seq<Region>, k: nat, lo: nat, repaired: bool)
    requires k < |rs|
  {
    if Shrinks(rs, k) then Remainder(rs, k, lo) >= OVERHEAD
    else repaired || !MergesRight(rs, k)
  }

  /** Free writes only inside the merged hole. */
  ghost predicate Intact(rs: seq<Region>, k: nat, lo: nat)
    requires k < |rs|
  {
    Shrinks(rs, k) ==> Remainder(rs, k, lo) >= OVERHEAD
  }

  /** What is left of a sorted index stays sorted when the freed block has no hole
      on its left. */
  lemma FreedSorted(m: seq<byte>, q: seq<byte>, xs: seq<nat>, rs: seq<Region>, lo: nat, hi: nat, k: nat)
    requires Sound(m, Members(xs), rs, lo, hi)
    requires k < |rs| && !rs[k].hole && !MergesLeft(rs, k)
    requires SameOutside(m, q, Merged(rs, k).pos, Merged(rs, k).End())
    requires SortedBy(xs, SizeKey(m))
    ensures SortedBy(SeqWithout(xs, rs[k].End()), SizeKey(q))
  {
    var ys := SeqWithout(xs, rs[k].End());
    WithoutKeepsOrder(xs, rs[k].End(), SizeKey(m));
    MergedSpan(rs, lo, hi, k);
    FreedMembers(rs, lo, hi, k);
    forall p | p in ys
      ensures !HoleAmong(rs, k, Limit(rs, k), p)
    {
      MergedHoles(rs, k, p);
    }
    RemovedStaysSorted(m, q, xs, rs, lo, hi, k, Limit(rs, k), Merged(rs, k).End(), ys);
  }

  /** What the memory half of free leaves: the merged hole's header, and its
      footer if that was written; otherwise the absorbed hole's footer. */
  ghost predicate Unified(m: seq<byte>, n: seq<byte>, rs: seq<Region>, k: nat, repaired: bool)
    requires k < |rs|
  {
    var merged := Merged(rs, k);
    && SameOutside(m, n, merged.pos, merged.End())
    && HeaderAt(n, merged.pos, merged.size, true)
    && (!MergesRight(rs, k) || repaired ==> FooterAt(n, merged.End() - FOOTER_SIZE, merged.pos))
    && (MergesRight(rs, k) && !repaired && k + 2 < |rs| ==>
          FooterAt(n, merged.End() - FOOTER_SIZE, rs[k + 1].pos))
  }

  /** Which of the headers free touches are index entries beforehand. */
  lemma FreedMembers(rs: seq<Region>, lo: nat, hi: nat, k: nat)
    requires Tiles(rs, lo, hi)
    requires k < |rs| && !rs[k].hole
    ensures MergesRight(rs, k) <==> rs[k].End() in Holes(rs)
    ensures MergesLeft(rs, k) <==> Merged(rs, k).pos in Holes(rs)
    ensures Merged(rs, k).pos != rs[k].End()
    ensures Shrinks(rs, k) <==> Merged(rs, k).End() == hi
    ensures lo <= Merged(rs, k).pos && Merged(rs, k).End() <= hi
    ensures MergesRight(rs, k) ==> rs[k].End() == rs[k + 1].pos
  {
    assert k + 1 < |rs| ==> Joins(rs, k);
    if t :| 0 <= t < |rs| && rs[t].hole && rs[t].pos == rs[k].End() {
      if t < k { RegionsAscend(rs, lo, hi, t, k); }
      if k + 1 < t { RegionsAscend(rs, lo, hi, k + 1, t); }
      RegionBounds(rs, lo, hi, t);
    }
    if t :| 0 <= t < |rs| && rs[t].hole && rs[t].pos == rs[k].pos {
      RegionsDisjoint(rs, lo, hi, k, t);
    }
    MergedSpan(rs, lo, hi, k);
    RegionBounds(rs, lo, hi, First(rs, k));
    RegionBounds(rs, lo, hi, Limit(rs, k) - 1);
    if MergesLeft(rs, k) { RegionsAscend(rs, lo, hi, k - 1, k); }
    if Limit(rs, k) < |rs| { RegionBounds(rs, lo, hi, Limit(rs, k)); }
  }

  /** Forgetting the right neighbour and remembering the merged header is what
      free does to the index. */
  lemma FreedIndexSteps(xs: seq<nat>, rs: seq<Region>, lo: nat, hi: nat, k: nat)
    requires Tiles(rs, lo, hi) && Members(xs) == Holes(rs)
    requires k < |rs| && !rs[k].hole
    ensures Members(SeqWithout(xs, rs[k].End())) + {Merged(rs, k).pos} == FreedIndex(Members(xs), rs, k)
  {
    FreedMembers(rs, lo, hi, k);
  }

  lemma FreedInPlace(m: seq<byte>, n: seq<byte>, idx: set<nat>, rs: seq<Region>, lo: nat, hi: nat, k: nat, repaired: bool)
    requires Sound(m, idx, rs, lo, hi)
    requires k < |rs| && !rs[k].hole && !Shrinks(rs, k)
    requires Unified(m, n, rs, k, repaired)
    ensures Sound(n, FreedIndex(idx, rs, k), Freed(rs, k, lo), lo, hi) <==> repaired || !MergesRight(rs, k)
    ensures SomeHeap(n, FreedIndex(idx, rs, k), lo, hi) <==> repaired || !MergesRight(rs, k)
  {
    var i, j := First(rs, k), Limit(rs, k);
    var merged := Merged(rs, k);
    var out := Freed(rs, k, lo);
    MergedSpan(rs, lo, hi, k);
    assert out == Splice(rs, i, j, [merged]);
    if repaired || !MergesRight(rs, k) {
      FreedPieces(m, n, idx, rs, lo, hi, k, merged, merged.End());
    } else {
      assert Joins(rs, k);
      assert out[i] == merged;
      assert TaggedAt(n, out, i) ==> FooterAt(n, merged.End() - FOOTER_SIZE, merged.pos);
      FreedHeaders(m, n, idx, rs, lo, hi, k);
      SpliceTiles(rs, i, j, [merged], lo, hi, merged.End());
      OnlyThese(n, FreedIndex(idx, rs, k), out, lo, hi);
    }
  }

  /** Whatever becomes of the footer, all headers are in order. */
  lemma FreedHeaders(m: seq<byte>, n: seq<byte>, idx: set<nat>, rs: seq<Region>, lo: nat, hi: nat, k: nat)
    requires Sound(m, idx, rs, lo, hi) && k < |rs| && !rs[k].hole && !Shrinks(rs, k)
    requires SameOutside(m, n, Merged(rs, k).pos, Merged(rs, k).End())
    requires HeaderAt(n, Merged(rs, k).pos, Merged(rs, k).size, true)
    ensures HeadersAt(n, Freed(rs, k, lo), |Freed(rs, k, lo)|)
  {
    var i, j, out := First(rs, k), Limit(rs, k), Freed(rs, k, lo);
    MergedSpan(rs, lo, hi, k);
    forall t | 0 <= t < |out|
      ensures HeaderFound(n, out[t])
    {
      if t == i {
        assert out[t] == Merged(rs, k);
      } else {
        var d := if t < i then t else t - i - 1 + j;
        assert out[t] == rs[d] && TaggedAt(m, rs, d);
        if d < i { RegionsAscend(rs, lo, hi, d, i); } else if j < d { RegionsAscend(rs, lo, hi, j, d); }
        TagFrame(m, n, rs[d].pos, Merged(rs, k).pos, Merged(rs, k).End());
      }
    }
  }

  /** Every live block but k keeps its place and its bytes. */
  ghost predicate OthersSurvive(m: seq<byte>, n: seq<byte>, rs: seq<Region>, k: nat, out: seq<Region>) {
    forall t :: 0 <= t < |rs| && t != k && !rs[t].hole ==> rs[t] in out && Kept(m, n, rs[t])
  }

  lemma OthersOutlive(m: seq<byte>, n: seq<byte>, rs: seq<Region>, lo: nat, hi: nat, k: nat)
    requires Tiles(rs, lo, hi)
    requires k < |rs| && !rs[k].hole
    requires SameOutside(m, n, Merged(rs, k).pos, Merged(rs, k).End())
    ensures OthersSurvive(m, n, rs, k, Freed(rs, k, lo))
  {
    var i, j := First(rs, k), Limit(rs, k);
    var out := Freed(rs, k, lo);
    MergedSpan(rs, lo, hi, k);
    OthersKept(m, n, rs, lo, hi, i, j, Merged(rs, k).End());
    forall t | 0 <= t < |rs| && t != k && !rs[t].hole
      ensures rs[t] in out && Kept(m, n, rs[t])
    {
      assert t < i ==> out[t] == rs[t];
      assert j <= t ==> out[|out| - |rs| + t] == rs[t];
    }
  }

  lemma UnifiedFrom(m: seq<byte>, n: seq<byte>, idx: set<nat>, rs: seq<Region>, lo: nat, hi: nat, k: nat,
                    repaired: bool, header: nat, last: nat)
    requires Sound(m, idx, rs, lo, hi)
    requires k < |rs| && hi + HEADER_SIZE <= |m|
    requires header == if MergesLeft(rs, k) then rs[k - 1].pos else rs[k].pos
    requires last + FOOTER_SIZE == if MergesRight(rs, k) then rs[k + 1].End() else rs[k].End()
    requires SameOutside(m, n, header, last + FOOTER_SIZE)
    requires header <= last + FOOTER_SIZE && HeaderAt(n, header, last + FOOTER_SIZE - header, true)
    requires !MergesRight(rs, k) || repaired ==> FooterAt(n, last, header)
    requires MergesRight(rs, k) && !repaired ==> (forall q :: FooterAt(n, last, q) == FooterAt(m, last, q))
    ensures header == Merged(rs, k).pos && last + FOOTER_SIZE == Merged(rs, k).End()
    ensures Unified(m, n, rs, k, repaired)
  {
    MergedShape(rs, lo, hi, k);
    FreedRight(m, idx, rs, lo, hi, k);
    assert last == Merged(rs, k).End() - FOOTER_SIZE;
    if MergesRight(rs, k) && !repaired && k + 2 < |rs| {
      assert FooterAt(m, last, rs[k + 1].pos);
      assert FooterAt(n, last, rs[k + 1].pos);
    }
  }

  /** Everything free reads of memory m before it writes: the tags of block r and of its
      neighbours, in a heap that ends at hi. */
  ghost predicate FreeReads(m: seq<byte>, r: Region, left: Option<Region>, right: Option<Region>, hi: nat) {
    && FOOTER_SIZE <= r.pos && r.End() < U64 && OVERHEAD <= r.size
    && HeaderAt(m, r.pos, r.size, false) && FooterAt(m, r.End() - FOOTER_SIZE, r.pos)
    && LeftTags(m, r.pos, left) && RightTags(m, r.End(), right)
    && (right.Some? ==> right.value.End() <= |m| && right.value.End() < U64)
    && (right.Some? <==> r.End() < hi)
  }

  lemma FreedNeighbours(m: seq<byte>, idx: set<nat>, rs: seq<Region>, lo: nat, hi: nat, k: nat)
    requires Sound(m, idx, rs, lo, hi)
    requires k < |rs| && !rs[k].hole
    requires FOOTER_SIZE <= lo && hi + HEADER_SIZE <= |m| && hi < U64
    ensures FreeReads(m, rs[k], LeftOf(rs, k), RightOf(rs, k), hi)
    ensures RightOf(rs, k).None? ==> rs[k].End() == hi
    ensures !Stray(m, rs, k, hi) ==> (ProbedHole(m, rs[k].End(), RightOf(rs, k)) <==> MergesRight(rs, k))
    ensures Stray(m, rs, k, hi) ==> RightOf(rs, k).None? && ProbedHole(m, rs[k].End(), RightOf(rs, k))
  {
    FreedTags(m, idx, rs, lo, hi, k);
    FreedRight(m, idx, rs, lo, hi, k);
  }

  lemma FreedPieces(m: seq<byte>, n: seq<byte>, idx: set<nat>, rs: seq<Region>, lo: nat, hi: nat, k: nat,
                    left: Region, b: nat)
    requires Sound(m, idx, rs, lo, hi)
    requires k < |rs| && !rs[k].hole
    requires left.hole && left.pos == Merged(rs, k).pos && left.size >= OVERHEAD
    requires left.size == if Shrinks(rs, k) then Remainder(rs, k, lo) else Merged(rs, k).size
    requires !Shrinks(rs, k) ==> b <= PosOf(rs, Limit(rs, k), hi)
    requires SameOutside(m, n, left.pos, b)
    requires Tagged(n, left, true)
    ensures Sound(n, FreedIndex(idx, rs, k), Freed(rs, k, lo), lo, EndAfterFree(rs, k, lo, hi))
  {
    var i, j := First(rs, k), Limit(rs, k);
    MergedSpan(rs, lo, hi, k);
    RegionBounds(rs, lo, hi, i);
    assert Tiles([left], rs[i].pos, left.End());
    var entries := FreedIndex(idx, rs, k);
    forall p
      ensures EntryFollows(idx, entries, rs, i, j, [left], p)
    {
      MergedHoles(rs, k, p);
      SingleHole(left, p);
      FreedEntry(rs, lo, hi, k, p);
    }
    assert 0 < i ==> Apart(rs, i - 1);
    assert j < |rs| ==> Apart(rs, j - 1);
    SpliceSound(m, n, idx, rs, i, j, [left], lo, hi, left.End(), left.pos, b,
                entries, Freed(rs, k, lo));
  }

  lemma FreedEntry(rs: seq<Region>, lo: nat, hi: nat, k: nat, p: nat)
    requires Tiles(rs, lo, hi)
    requires k < |rs| && !rs[k].hole
    ensures p in FreedIndex(Holes(rs), rs, k) <==>
      || p == Merged(rs, k).pos
      || (p in Holes(rs) && !HoleAmong(rs, First(rs, k), Limit(rs, k), p))
  {
    MergedHoles(rs, k, p);
    if MergesLeft(rs, k) && MergesRight(rs, k) {
      RegionsAscend(rs, lo, hi, k - 1, k + 1);
    }
    if MergesRight(rs, k) { RegionsAscend(rs, lo, hi, k, k + 1); }
  }

  lemma FreedAtEnd(m: seq<byte>, n: seq<byte>, idx: set<nat>, rs: seq<Region>, lo: nat, hi: nat, k: nat)
    requires Sound(m, idx, rs, lo, hi)
    requires k < |rs| && !rs[k].hole && Shrinks(rs, k)
    requires hi - lo < 0x1_0000_0000 && (hi - lo) % PAGE == 0 && hi - lo >= HEAP_MIN_SIZE
    requires var p, e := Merged(rs, k).pos, EndAfterFree(rs, k, lo, hi);
      p + OVERHEAD <= e ==>
        && SameOutside(m, n, p, hi)
        && HeaderAt(n, p, e - p, true) && FooterAt(n, e - FOOTER_SIZE, p)
    ensures Sound(n, FreedIndex(idx, rs, k), Freed(rs, k, lo), lo, EndAfterFree(rs, k, lo, hi))
       <==> Remainder(rs, k, lo) >= OVERHEAD
  {
    RegionBounds(rs, lo, hi, First(rs, k));
    FreedSoundIff(rs, k, lo, hi);
    if Remainder(rs, k, lo) >= OVERHEAD {
      FreedPieces(m, n, idx, rs, lo, hi, k, Merged(rs, k).(size := Remainder(rs, k, lo)), hi);
    }
  }

  /** What the contraction does to memory n, giving q, and to the heap's end,
      which becomes e, for a hole from header to hi. */
  ghost predicate Settled(n: seq<byte>, q: seq<byte>, header: nat, lo: nat, hi: nat, e: nat) {
    && lo <= header && e == lo + ContractedLength(header - lo)
    && (e == header ==> q == n) && SameOutside(n, q, header - FOOTER_SIZE, hi)
    && (header + OVERHEAD <= e ==> SameOutside(n, q, header, e))
    && (header + OVERHEAD <= e ==>
          HeaderAt(q, header, e - header, true) && FooterAt(q, e - FOOTER_SIZE, header))
  }

  lemma FreedShrunk(m: seq<byte>, n: seq<byte>, q: seq<byte>, idx: set<nat>, rs: seq<Region>,
                    lo: nat, hi: nat, k: nat, repaired: bool, header: nat, e: nat)
    requires Sound(m, idx, rs, lo, hi)
    requires k < |rs| && !rs[k].hole && Shrinks(rs, k)
    requires hi - lo < 0x1_0000_0000 && (hi - lo) % PAGE == 0 && hi - lo >= HEAP_MIN_SIZE
    requires Unified(m, n, rs, k, repaired)
    requires header == Merged(rs, k).pos && Settled(n, q, header, lo, hi, e)
    ensures e == EndAfterFree(rs, k, lo, hi)
    ensures Remainder(rs, k, lo) >= OVERHEAD ==> SameOutside(m, q, header, hi) && SameBetween(n, q, e, hi)
    ensures Sound(q, FreedIndex(idx, rs, k), Freed(rs, k, lo), lo, e) <==> FreeIsSound(rs, k, lo, repaired)
    ensures SomeHeap(q, FreedIndex(idx, rs, k), lo, e) <==> FreeIsSound(rs, k, lo, repaired)
  {
    FreedMembers(rs, lo, hi, k);
    MergedSpan(rs, lo, hi, k);
    ContractionBounds(rs, k, lo, hi);
    if Remainder(rs, k, lo) >= OVERHEAD {
      SameOutsideThen(m, n, q, header, hi, e);
    } else {
      FreedEntry(rs, lo, hi, k, header);
      EntryDenies(q, FreedIndex(idx, rs, k), lo, e, header);
    }
    FreedAtEnd(m, q, idx, rs, lo, hi, k);
  }

  /** Bytes a to b are the same. */
  ghost predicate SameBetween(m: seq<byte>, n: seq<byte>, a: nat, b: nat) {
    |m| == |n| && forall j :: a <= j < b && j < |m| ==> n[j] == m[j]
  }

  lemma SameOutsideThen(m: seq<byte>, n: seq<byte>, q: seq<byte>, a: nat, b: nat, e: nat)
    requires SameOutside(m, n, a, b) && SameOutside(n, q, a, e) && e <= b
    ensures SameOutside(m, q, a, b) && SameBetween(n, q, e, b)
  {
  }

  // ----- memory and index that no regions make a heap of -----------------------------

  /** Some regions make a heap of memory m and index idx. */
  ghost predicate SomeHeap(m: seq<byte>, idx: set<nat>, lo: nat, hi: nat) {
    exists rs :: Sound(m, idx, rs, lo, hi)
  }

  /** The headers of the first i regions are in memory. */
  ghost predicate HeadersAt(q: seq<byte>, rs: seq<Region>, i: nat) {
    i <= |rs| && forall t :: 0 <= t < i ==> HeaderFound(q, rs[t])
  }

  ghost predicate HeaderFound(q: seq<byte>, r: Region) {
    HeaderAt(q, r.pos, r.size, r.hole)
  }

  /** Headers determine the regions: whatever makes a heap of memory begins with those
      whose headers it holds. */
  lemma {:induction false} SamePrefix(q: seq<byte>, rs: seq<Region>, out: seq<Region>, lo: nat, hi: nat, e: nat, i: nat)
    requires Tiles(rs, lo, hi) && Tiles(out, lo, e) && Represents(q, out)
    requires HeadersAt(q, rs, i) && PosOf(rs, i, hi) <= e
    ensures i <= |out| && out[..i] == rs[..i]
    ensures if PosOf(rs, i, hi) < e then i < |out| && out[i].pos == PosOf(rs, i, hi) else i == |out|
    decreases i
  {
    RegionBounds(out, lo, e, 0);
    if i > 0 {
      PosBehind(rs, lo, hi, i);
      SamePrefix(q, rs, out, lo, hi, e, i - 1);
      assert TaggedAt(q, out, i - 1) && HeaderFound(q, rs[i - 1]);
      assert out[i - 1] == rs[i - 1];
      assert out[..i] == out[..i - 1] + [out[i - 1]] && rs[..i] == rs[..i - 1] + [rs[i - 1]];
      PosBehind(out, lo, e, i);
      if i < |out| { RegionBounds(out, lo, e, i); }
    }
  }

  lemma PosBehind(rs: seq<Region>, lo: nat, hi: nat, i: nat)
    requires Tiles(rs, lo, hi) && 0 < i <= |rs|
    ensures PosOf(rs, i, hi) == rs[i - 1].End() && PosOf(rs, i - 1, hi) == rs[i - 1].pos && rs[i - 1].size >= OVERHEAD
  {
    assert i < |rs| ==> Joins(rs, i - 1);
  }

  lemma HeadersKept(m: seq<byte>, q: seq<byte>, rs: seq<Region>, lo: nat, hi: nat, i: nat, a: int, b: int)
    requires Tiles(rs, lo, hi) && Represents(m, rs) && i <= |rs|
    requires SameOutside(m, q, a, b) && PosOf(rs, i, hi) <= a + FOOTER_SIZE
    ensures HeadersAt(q, rs, i)
  {
    forall t | 0 <= t < i
      ensures HeaderFound(q, rs[t])
    {
      assert TaggedAt(m, rs, t);
      if i < |rs| { RegionsAscend(rs, lo, hi, t, i); } else { RegionBounds(rs, lo, hi, t); }
      TagFrame(m, q, rs[t].pos, a, b);
    }
  }

  /** An index entry without room for a hole behind it. */
  lemma EntryDenies(q: seq<byte>, idx: set<nat>, lo: nat, e: nat, p: nat)
    requires p in idx && p + OVERHEAD > e
    ensures !SomeHeap(q, idx, lo, e)
  {
    forall out: seq<Region>
      ensures !Sound(q, idx, out, lo, e)
    {
      if Sound(q, idx, out, lo, e) {
        var t := EntryRegion(q, idx, out, lo, e, p);
      }
    }
  }

  lemma HoleFound(q: seq<byte>, idx: set<nat>, rs: seq<Region>, out: seq<Region>, lo: nat, hi: nat, e: nat, i: nat, t: nat)
    requires Tiles(rs, lo, hi) && HeadersAt(q, rs, i) && PosOf(rs, i, hi) <= e
    requires t < i && rs[t].hole && Sound(q, idx, out, lo, e)
    ensures rs[t].pos in idx
  {
    SamePrefix(q, rs, out, lo, hi, e, i);
    assert out[t] == out[..i][t] && rs[t] == rs[..i][t];
    RegionEntry(q, idx, out, lo, e, t);
  }

  lemma NextFound(q: seq<byte>, idx: set<nat>, rs: seq<Region>, out: seq<Region>, lo: nat, hi: nat, e: nat, i: nat)
    requires Tiles(rs, lo, hi) && HeadersAt(q, rs, i) && PosOf(rs, i, hi) < e && Sound(q, idx, out, lo, e)
    ensures PosOf(rs, i, hi) + OVERHEAD <= e
    ensures forall size :: HeaderAt(q, PosOf(rs, i, hi), size, true) ==> PosOf(rs, i, hi) in idx
  {
    SamePrefix(q, rs, out, lo, hi, e, i);
    RegionBounds(out, lo, e, i);
    assert TaggedAt(q, out, i);
    if out[i].hole { RegionEntry(q, idx, out, lo, e, i); }
  }

  /** A hole among the regions whose headers are there that the index does not have. */
  lemma LostHoleDenies(q: seq<byte>, idx: set<nat>, rs: seq<Region>, lo: nat, hi: nat, e: nat, i: nat, t: nat)
    requires Tiles(rs, lo, hi) && HeadersAt(q, rs, i) && PosOf(rs, i, hi) <= e
    requires t < i && rs[t].hole && rs[t].pos !in idx
    ensures !SomeHeap(q, idx, lo, e)
  {
    forall out: seq<Region>
      ensures !Sound(q, idx, out, lo, e)
    {
      if Sound(q, idx, out, lo, e) { HoleFound(q, idx, rs, out, lo, hi, e, i, t); }
    }
  }

  /** Behind those regions there is no room for another, or a hole's header that the index
      does not have. */
  lemma NextDenies(q: seq<byte>, idx: set<nat>, rs: seq<Region>, lo: nat, hi: nat, e: nat, i: nat)
    requires Tiles(rs, lo, hi) && HeadersAt(q, rs, i)
    requires var p := PosOf(rs, i, hi);
      p < e && (p + OVERHEAD > e || (p !in idx && exists size :: HeaderAt(q, p, size, true)))
    ensures !SomeHeap(q, idx, lo, e)
  {
    forall out: seq<Region>
      ensures !Sound(q, idx, out, lo, e)
    {
      if Sound(q, idx, out, lo, e) { NextFound(q, idx, rs, out, lo, hi, e, i); }
    }
  }

  /** All headers are there, but not all that makes a heap of those regions. */
  lemma OnlyThese(q: seq<byte>, idx: set<nat>, rs: seq<Region>, lo: nat, hi: nat)
    requires Tiles(rs, lo, hi) && HeadersAt(q, rs, |rs|)
    ensures SomeHeap(q, idx, lo, hi) <==> Sound(q, idx, rs, lo, hi)
  {
    forall out: seq<Region> | Sound(q, idx, out, lo, hi)
      ensures out == rs
    {
      SamePrefix(q, rs, out, lo, hi, hi, |rs|);
      assert out[..|rs|] == out && rs[..|rs|] == rs;
    }
  }

  // ----- free at a stray header --------------------------------------------------------

  /** Free has merged the last block with what it took for a hole behind the heap's
      end. Memory q and end e are what it leaves: the header's size counts the stray
      one in, so that the hole does not end at the heap's end and the heap is not
      contracted, unless the stray size is 0. */
  ghost predicate Overran(m: seq<byte>, q: seq<byte>, rs: seq<Region>, k: nat, lo: nat, hi: nat, e: nat)
    requires k < |rs|
  {
    var stray, p := SizeField(m, hi), Merged(rs, k).pos;
    && p < hi < U64 && stray < U64 && SameOutside(m, q, p - FOOTER_SIZE, hi)
    && if stray != 0 then
         e == hi && HeaderAt(q, p, Add64(hi - p, stray), true)
       else
         && e == EndAfterFree(rs, k, lo, hi) && (Remainder(rs, k, lo) == 0 ==> SameOutside(m, q, p, hi))
         && (p + OVERHEAD <= e ==> HeaderAt(q, p, e - p, true))
  }

  /** The one case in which the heap is sound all the same: the stray size is 0, nothing
      is left of the hole, and the entry that is lost is the one that should go. */
  ghost predicate LostRightEntry(m: seq<byte>, xs: seq<nat>, rs: seq<Region>, k: nat, lo: nat, hi: nat)
    requires k < |rs|
  {
    && SizeField(m, hi) == 0 && Remainder(rs, k, lo) == 0
    && MergesLeft(rs, k) && xs != [] && xs[|xs| - 1] == Merged(rs, k).pos
  }

  ghost function StrayEntries(xs: seq<nat>, rs: seq<Region>, k: nat): set<nat>
    requires k < |rs| && xs != []
  {
    Members(xs[..|xs| - 1]) + (if MergesLeft(rs, k) then {} else {Merged(rs, k).pos})
  }

  lemma StrayLosesEntry(xs: seq<nat>, rs: seq<Region>, lo: nat, hi: nat, k: nat)
    requires Tiles(rs, lo, hi) && Members(xs) == Holes(rs) && Distinct(xs) && xs != []
    requires k == |rs| - 1 && !rs[k].hole
    ensures xs[|xs| - 1] in Holes(rs) && xs[|xs| - 1] !in StrayEntries(xs, rs, k)
    ensures forall p :: p in Holes(rs) && p != xs[|xs| - 1] ==> p in StrayEntries(xs, rs, k)
  {
    var n := |xs| - 1;
    assert xs == xs[..n] + [xs[n]] && xs[n] in Members(xs);
    FreedMembers(rs, lo, hi, k);
  }

  lemma StrayHoles(rs: seq<Region>, lo: nat, hi: nat, k: nat)
    requires Tiles(rs, lo, hi) && k == |rs| - 1 && !rs[k].hole
    ensures Remainder(rs, k, lo) > 0 ==> Holes(Freed(rs, k, lo)) == Holes(rs) + {Merged(rs, k).pos}
    ensures Remainder(rs, k, lo) <= 0 ==> Holes(Freed(rs, k, lo)) == Holes(rs) - {Merged(rs, k).pos}
  {
    var i := First(rs, k);
    if Remainder(rs, k, lo) > 0 {
      FreedIndexHoles(rs, k, lo, hi, Merged(rs, k).(size := Remainder(rs, k, lo)));
    } else {
      FreedMembers(rs, lo, hi, k);
      forall p
        ensures p in Holes(Freed(rs, k, lo)) <==> p in Holes(rs) - {Merged(rs, k).pos}
      {
        SpliceHoles(rs, i, |rs|, [], lo, hi, p);
        MergedHoles(rs, k, p);
        assert !HoleAmong([], 0, 0, p);
      }
    }
  }

  /** With nothing left of it, the hole's left neighbours make a heap of their own. */
  lemma PrefixSound(m: seq<byte>, q: seq<byte>, idx: set<nat>, rs: seq<Region>, lo: nat, hi: nat, i: nat)
    requires Sound(m, idx, rs, lo, hi) && 0 < i < |rs| && !rs[i - 1].hole
    requires SameOutside(m, q, rs[i].pos, hi)
    ensures Sound(q, Holes(rs[..i]), rs[..i], lo, rs[i].pos)
  {
    var out := rs[..i];
    RegionBounds(rs, lo, hi, i);
    GuardKept(m, q, lo, rs[i].pos, hi);
    assert Joins(rs, i - 1);
    forall t | 0 <= t < i - 1
      ensures Joins(out, t) && Apart(out, t)
    {
      assert Joins(rs, t) && Apart(rs, t);
    }
    forall t | 0 <= t < i
      ensures TaggedAt(q, out, t)
    {
      assert TaggedAt(m, rs, t);
      RegionsAscend(rs, lo, hi, t, i);
      TaggedFrame(m, q, rs[t], NeedsFooter(rs, t), rs[i].pos, hi);
    }
  }

  /** The entry lost is that of a hole left of the merged one, or its own: memory still
      has the hole. */
  lemma StrayUnsound(m: seq<byte>, q: seq<byte>, xs: seq<nat>, rs: seq<Region>, lo: nat, hi: nat, k: nat, e: nat)
    requires Sound(m, Members(xs), rs, lo, hi) && Distinct(xs) && xs != []
    requires k == |rs| - 1 && !rs[k].hole
    requires hi - lo < 0x1_0000_0000 && (hi - lo) % PAGE == 0 && hi - lo >= HEAP_MIN_SIZE
    requires Overran(m, q, rs, k, lo, hi, e) && !LostRightEntry(m, xs, rs, k, lo, hi)
    ensures !SomeHeap(q, StrayEntries(xs, rs, k), lo, e)
  {
    var p, i, idx := Merged(rs, k).pos, First(rs, k), StrayEntries(xs, rs, k);
    FreedMembers(rs, lo, hi, k);
    MergedShape(rs, lo, hi, k);
    ContractionBounds(rs, k, lo, hi);
    StrayLosesEntry(xs, rs, lo, hi, k);
    RegionBounds(rs, lo, hi, i);
    HeadersKept(m, q, rs, lo, hi, i, p - FOOTER_SIZE, hi);
    var t := EntryRegion(m, Members(xs), rs, lo, hi, xs[|xs| - 1]);
    if t < i {
      LostHoleDenies(q, idx, rs, lo, hi, e, i, t);
    } else {
      assert t == i && rs[t].pos == p;
      NextDenies(q, idx, rs, lo, hi, e, i);
    }
  }

  /** What free makes of the heap at a stray header, exactly: no regions at all make a heap
      of what it leaves, but in the one case. */
  lemma StrayVerdict(m: seq<byte>, q: seq<byte>, xs: seq<nat>, rs: seq<Region>, lo: nat, hi: nat, k: nat, e: nat)
    requires Sound(m, Members(xs), rs, lo, hi) && Distinct(xs) && xs != []
    requires k == |rs| - 1 && !rs[k].hole
    requires hi - lo < 0x1_0000_0000 && (hi - lo) % PAGE == 0 && hi - lo >= HEAP_MIN_SIZE
    requires Overran(m, q, rs, k, lo, hi, e)
    ensures SomeHeap(q, StrayEntries(xs, rs, k), lo, e) <==> LostRightEntry(m, xs, rs, k, lo, hi)
    ensures LostRightEntry(m, xs, rs, k, lo, hi) ==> Sound(q, StrayEntries(xs, rs, k), Freed(rs, k, lo), lo, e)
  {
    if LostRightEntry(m, xs, rs, k, lo, hi) {
      var i := First(rs, k);
      FreedMembers(rs, lo, hi, k);
      MergedShape(rs, lo, hi, k);
      StrayLosesEntry(xs, rs, lo, hi, k);
      StrayHoles(rs, lo, hi, k);
      assert Apart(rs, k - 1) && (i > 0 ==> Apart(rs, i - 1));
      assert i > 0;
      PrefixSound(m, q, Members(xs), rs, lo, hi, i);
      assert Freed(rs, k, lo) == rs[..i];
      assert StrayEntries(xs, rs, k) == Holes(rs[..i]);
    } else {
      StrayUnsound(m, q, xs, rs, lo, hi, k, e);
    }
  }

  /** Free leaves a heap that is sound: exactly then. */
  ghost predicate FreeKeepsHeap(m: seq<byte>, xs: seq<nat>, rs: seq<Region>, k: nat, lo: nat, hi: nat, repaired: bool)
    requires k < |rs|
  {
    if Stray(m, rs, k, hi) then LostRightEntry(m, xs, rs, k, lo, hi) else FreeIsSound(rs, k, lo, repaired)
  }

  /** What free leaves of the freed block's header, which stays behind inside a hole, or
      beyond the heap's end, when its left neighbour absorbs it. */
  ghost predicate FreeLeaves(m: seq<byte>, q: seq<byte>, rs: seq<Region>, k: nat, lo: nat, hi: nat)
    requires k < |rs|
  {
    MergesLeft(rs, k) && !Stray(m, rs, k, hi) ==>
      && (!Shrinks(rs, k) ==> HeaderAt(q, rs[k].pos, rs[k].size, true))
      && (Shrinks(rs, k) && Remainder(rs, k, lo) >= OVERHEAD ==> SameBetween(m, q, EndAfterFree(rs, k, lo, hi), rs[k].pos))
  }

  lemma NoEntryAtEnd(m: seq<byte>, idx: set<nat>, rs: seq<Region>, lo: nat, hi: nat)
    requires Sound(m, idx, rs, lo, hi)
    ensures hi !in idx
  {
    if hi in idx {
      var t := EntryRegion(m, idx, rs, lo, hi, hi);
      assert false;
    }
  }

  lemma ProbeEnds(hi: nat, stray: nat)
    requires FOOTER_SIZE <= hi < U64 && stray < U64
    ensures var last := Sub64(Add64(hi, stray), FOOTER_SIZE);
      last < U64 && (Add64(last, FOOTER_SIZE) == hi <==> stray == 0)
  {
  }

  /** Memory n after the merging half of free. */
  ghost predicate MergedInMemory(m: seq<byte>, n: seq<byte>, rs: seq<Region>, k: nat, hi: nat, repaired: bool)
    requires k < |rs|
  {
    var p := Merged(rs, k).pos;
    && (if Stray(m, rs, k, hi) then
          && p < hi < U64 && SizeField(m, hi) < U64 && SameOutside(m, n, p, hi)
          && HeaderAt(n, p, Add64(hi - p, SizeField(m, hi)), true)
        else Unified(m, n, rs, k, repaired))
    && (MergesLeft(rs, k) ==>
          HeaderAt(n, rs[k].pos, rs[k].size, true) && SameBetween(m, n, p + HEADER_SIZE, rs[k].pos))
  }

  /** The effect of merging left: header heads the hole from there to the freed block's
      end, and nothing between its header and the footer has changed. */
  ghost predicate LeftMerged(n: seq<byte>, q: seq<byte>, h: nat, footer: nat, left: Option<Region>,
                             header: nat, add: bool) {
    && add == !(left.Some? && left.value.hole)
    && header == (if add then h else left.value.pos)
    && header <= h && (!add ==> header + OVERHEAD <= h) && h + HEADER_SIZE <= footer
    && SameOutside(n, q, header, footer + FOOTER_SIZE)
    && HeaderAt(q, header, footer + FOOTER_SIZE - header, true)
    && FooterAt(q, footer, header)
    && SameBetween(n, q, header + HEADER_SIZE, footer)
  }

  /** The effect of taking in what is read at test. */
  ghost predicate RightAbsorbed(m: seq<byte>, n: seq<byte>, header: nat, test: nat, right: Option<Region>,
                                last: nat, repaired: bool) {
    && last < U64 && SameBetween(m, n, header + HEADER_SIZE, test)
    && (right.Some? ==>
          && last + FOOTER_SIZE == right.value.End() && header <= right.value.End()
          && HeaderAt(n, header, right.value.End() - header, true)
          && (repaired ==> FooterAt(n, last, header))
          && (!repaired ==> forall h :: FooterAt(n, last, h) == FooterAt(m, last, h))
          && SameOutside(m, n, header, right.value.End()))
    && (right.None? ==>
          && header < test < U64 && SizeField(m, test) < U64
          && last == Sub64(Add64(test, SizeField(m, test)), FOOTER_SIZE)
          && HeaderAt(n, header, Add64(test - header, SizeField(m, test)), true)
          && SameOutside(m, n, header, header + HEADER_SIZE))
  }

  ghost predicate RightMerged(m: seq<byte>, n: seq<byte>, header: nat, footer: nat, right: Option<Region>,
                              merged: bool, last: nat, repaired: bool) {
    && footer + FOOTER_SIZE + HEADER_SIZE <= |m|
    && merged == ProbedHole(m, footer + FOOTER_SIZE, right)
    && if merged then RightAbsorbed(m, n, header, footer + FOOTER_SIZE, right, last, repaired)
       else n == m && last == footer
  }

  lemma AbsorbedLast(m: seq<byte>, test: nat, right: Option<Region>)
    requires RightTags(m, test, right) && test < U64 && SizeField(m, test) < U64
    requires right.Some? ==> right.value.End() < U64
    ensures var last := Sub64(Add64(test, SizeField(m, test)), FOOTER_SIZE);
      last < U64 && (right.Some? ==> last + FOOTER_SIZE == right.value.End() && SizeField(m, test) == right.value.size)
  {
  }

  lemma AbsorbedFrom(m: seq<byte>, n: seq<byte>, z: seq<byte>, header: nat, test: nat, right: Option<Region>,
                     last: nat, repaired: bool)
    requires header + HEADER_SIZE + FOOTER_SIZE <= test < U64 && SizeField(m, test) < U64
    requires RightTags(m, test, right) && (right.Some? ==> right.value.End() < U64)
    requires last == Sub64(Add64(test, SizeField(m, test)), FOOTER_SIZE)
    requires SameOutside(m, n, header, header + HEADER_SIZE)
    requires HeaderAt(n, header, Add64(test - header, SizeField(m, test)), true)
    requires header + HEADER_SIZE <= last ==> forall h :: FooterAt(n, last, h) == FooterAt(m, last, h)
    requires if repaired && right.Some? then FooterAt(z, last, header) && SameOutside(n, z, last, last + FOOTER_SIZE) else z == n
    ensures RightAbsorbed(m, z, header, test, right, last, repaired)
  {
    AbsorbedLast(m, test, right);
    if repaired && right.Some? {
      TagFrame(n, z, header, last, last + FOOTER_SIZE);
    }
  }

  /** The hole from header to the footer at last, which tells its header unless it is
      that of an absorbed right neighbour. */
  ghost predicate JoinedTags(m: seq<byte>, z: seq<byte>, header: nat, last: nat, rewritten: bool) {
    && header <= last + FOOTER_SIZE
    && SameOutside(m, z, header, last + FOOTER_SIZE)
    && HeaderAt(z, header, last + FOOTER_SIZE - header, true)
    && (rewritten ==> FooterAt(z, last, header))
    && (!rewritten ==> forall q :: FooterAt(z, last, q) == FooterAt(m, last, q))
  }

  /** The hole from header to e with what was read at e counted in. */
  ghost predicate JoinedStray(m: seq<byte>, z: seq<byte>, header: nat, e: nat, last: nat) {
    && header < e < U64 && SizeField(m, e) < U64
    && last == Sub64(Add64(e, SizeField(m, e)), FOOTER_SIZE)
    && HeaderAt(z, header, Add64(e - header, SizeField(m, e)), true)
    && SameOutside(m, z, header, e)
  }

  /** The effect of the merging half of free on the block r. */
  ghost predicate Joined(m: seq<byte>, z: seq<byte>, r: Region, left: Option<Region>, right: Option<Region>,
                         header: nat, add: bool, merged: bool, last: nat, repaired: bool) {
    && add == !(left.Some? && left.value.hole)
    && header == (if add then r.pos else left.value.pos) && header < r.End() && last < U64
    && r.End() + HEADER_SIZE <= |m| && merged == ProbedHole(m, r.End(), right)
    && (right.Some? || !merged ==>
          && last + FOOTER_SIZE == (if merged then right.value.End() else r.End())
          && JoinedTags(m, z, header, last, !merged || repaired))
    && (right.None? && merged ==> JoinedStray(m, z, header, r.End(), last))
    && (!add ==> HeaderAt(z, r.pos, r.size, true) && SameBetween(m, z, header + HEADER_SIZE, r.pos))
  }

  lemma JoinedRight(m: seq<byte>, q: seq<byte>, z: seq<byte>, header: nat, test: nat, right: Option<Region>,
                    merged: bool, last: nat, repaired: bool)
    requires header + HEADER_SIZE + FOOTER_SIZE <= test < U64
    requires SameOutside(m, q, header, test) && RightTags(m, test, right)
    requires HeaderAt(q, header, test - header, true) && FooterAt(q, test - FOOTER_SIZE, header)
    requires RightMerged(q, z, header, test - FOOTER_SIZE, right, merged, last, repaired)
    ensures merged == ProbedHole(m, test, right) && last < U64
    ensures right.Some? || !merged ==>
      && last + FOOTER_SIZE == (if merged then right.value.End() else test)
      && JoinedTags(m, z, header, last, !merged || repaired)
    ensures right.None? && merged ==> JoinedStray(m, z, header, test, last)
  {
    RightTagsFrame(m, q, header, test, right);
    if merged && right.Some? {
      assert right.value.End() >= test + OVERHEAD;
    }
  }

  lemma JoinedFrom(m: seq<byte>, n: seq<byte>, q: seq<byte>, z: seq<byte>, r: Region, left: Option<Region>,
                   right: Option<Region>, header: nat, add: bool, merged: bool, last: nat, repaired: bool)
    requires OVERHEAD <= r.size && r.End() < U64 && RightTags(m, r.End(), right)
    requires SameOutside(m, n, r.pos, r.pos + HEADER_SIZE) && HeaderAt(n, r.pos, r.size, true)
    requires LeftMerged(n, q, r.pos, r.End() - FOOTER_SIZE, left, header, add)
    requires RightMerged(q, z, header, r.End() - FOOTER_SIZE, right, merged, last, repaired)
    ensures Joined(m, z, r, left, right, header, add, merged, last, repaired)
  {
    var test := r.End();
    assert SameOutside(m, q, header, test);
    JoinedRight(m, q, z, header, test, right, merged, last, repaired);
    if !add {
      assert SameBetween(q, z, header + HEADER_SIZE, test - FOOTER_SIZE);
      assert SameBetween(n, z, header + HEADER_SIZE, test - FOOTER_SIZE);
      HeaderStays(m, n, z, header, r.pos, r.size, test - FOOTER_SIZE);
    }
  }

  /** However the merge to the right comes out, the two merges do what Joined says. */
  ghost predicate JoinsRight(m: seq<byte>, q: seq<byte>, r: Region, footer: nat, left: Option<Region>,
                             right: Option<Region>, header: nat, add: bool, repaired: bool) {
    forall z, merged, last: nat {:trigger RightMerged(q, z, header, footer, right, merged, last, repaired)} ::
      RightMerged(q, z, header, footer, right, merged, last, repaired) ==>
        Joined(m, z, r, left, right, header, add, merged, last, repaired)
  }

  lemma LeftJoins(m: seq<byte>, n: seq<byte>, q: seq<byte>, r: Region, footer: nat, left: Option<Region>,
                  right: Option<Region>, header: nat, add: bool, repaired: bool)
    requires OVERHEAD <= r.size && r.End() < U64 && RightTags(m, r.End(), right) && footer == r.End() - FOOTER_SIZE
    requires SameOutside(m, n, r.pos, r.pos + HEADER_SIZE) && HeaderAt(n, r.pos, r.size, true)
    requires LeftMerged(n, q, r.pos, footer, left, header, add)
    ensures JoinsRight(m, q, r, footer, left, right, header, add, repaired)
    ensures header + HEADER_SIZE <= footer && RightTags(q, r.End(), right)
    ensures HeaderAt(q, header, r.End() - header, true) && FooterAt(q, footer, header)
  {
    forall z, merged, last: nat | RightMerged(q, z, header, footer, right, merged, last, repaired)
      ensures Joined(m, z, r, left, right, header, add, merged, last, repaired)
    {
      JoinedFrom(m, n, q, z, r, left, right, header, add, merged, last, repaired);
    }
    assert SameOutside(m, q, header, r.End());
    RightTagsFrame(m, q, header, r.End(), right);
  }

  /** Which neighbours the merging half of free has taken in, and where it left off. */
  lemma JoinedWith(m: seq<byte>, n: seq<byte>, idx: set<nat>, rs: seq<Region>, lo: nat, hi: nat, k: nat,
                   repaired: bool, header: nat, add: bool, merged: bool, last: nat)
    requires Sound(m, idx, rs, lo, hi) && k < |rs| && !rs[k].hole
    requires FOOTER_SIZE <= lo && hi + HEADER_SIZE <= |m| && hi < U64
    requires Joined(m, n, rs[k], LeftOf(rs, k), RightOf(rs, k), header, add, merged, last, repaired)
    ensures add == !MergesLeft(rs, k) && merged == (Stray(m, rs, k, hi) || MergesRight(rs, k))
    ensures header == (if MergesLeft(rs, k) then rs[k - 1].pos else rs[k].pos) && header == Merged(rs, k).pos
    ensures Stray(m, rs, k, hi) ==> RightOf(rs, k).None? && rs[k].End() == hi
  {
    FreedNeighbours(m, idx, rs, lo, hi, k);
  }

  /** Memory and results after the merging half of free on block k. */
  ghost predicate BlockMerged(m: seq<byte>, n: seq<byte>, rs: seq<Region>, k: nat, hi: nat, repaired: bool,
                              header: nat, add: bool, merged: bool, last: nat) {
    && k < |rs| && last < U64
    && header == Merged(rs, k).pos && add == !MergesLeft(rs, k)
    && merged == (Stray(m, rs, k, hi) || MergesRight(rs, k))
    && MergedInMemory(m, n, rs, k, hi, repaired)
    && (if Stray(m, rs, k, hi) then rs[k].End() == hi && last == Sub64(Add64(hi, SizeField(m, hi)), FOOTER_SIZE)
        else last + FOOTER_SIZE == Merged(rs, k).End())
  }

  lemma MergedFrom(m: seq<byte>, n: seq<byte>, idx: set<nat>, rs: seq<Region>, lo: nat, hi: nat, k: nat,
                   repaired: bool, header: nat, add: bool, merged: bool, last: nat)
    requires Sound(m, idx, rs, lo, hi) && k < |rs| && !rs[k].hole
    requires FOOTER_SIZE <= lo && hi + HEADER_SIZE <= |m| && hi < U64
    requires Joined(m, n, rs[k], LeftOf(rs, k), RightOf(rs, k), header, add, merged, last, repaired)
    ensures BlockMerged(m, n, rs, k, hi, repaired, header, add, merged, last)
  {
    JoinedWith(m, n, idx, rs, lo, hi, k, repaired, header, add, merged, last);
    if !Stray(m, rs, k, hi) {
      assert merged ==> RightOf(rs, k) == Some(rs[k + 1]);
      UnifiedFrom(m, n, idx, rs, lo, hi, k, repaired, header, last);
    }
  }

  /** The merged hole is seen to end where the heap ends. */
  ghost predicate EndsHeap(m: seq<byte>, rs: seq<Region>, k: nat, hi: nat)
    requires k < |rs|
  {
    if Stray(m, rs, k, hi) then SizeField(m, hi) == 0 else Shrinks(rs, k)
  }

  /** Memory q and end e after the contraction, if there is one. */
  ghost predicate SettledFrom(m: seq<byte>, n: seq<byte>, q: seq<byte>, rs: seq<Region>, k: nat, lo: nat, hi: nat, e: nat)
    requires k < |rs|
  {
    if EndsHeap(m, rs, k, hi) then Settled(n, q, Merged(rs, k).pos, lo, hi, e) else q == n && e == hi
  }

  lemma StraySettled(m: seq<byte>, n: seq<byte>, q: seq<byte>, rs: seq<Region>, lo: nat, hi: nat, k: nat, e: nat,
                     repaired: bool)
    requires Tiles(rs, lo, hi) && k < |rs| && !rs[k].hole && Stray(m, rs, k, hi)
    requires hi - lo < 0x1_0000_0000 && (hi - lo) % PAGE == 0 && hi - lo >= HEAP_MIN_SIZE
    requires MergedInMemory(m, n, rs, k, hi, repaired) && SettledFrom(m, n, q, rs, k, lo, hi, e)
    ensures Overran(m, q, rs, k, lo, hi, e)
    ensures Intact(rs, k, lo) ==> SameOutside(m, q, Merged(rs, k).pos, hi)
  {
    FreedMembers(rs, lo, hi, k);
    MergedShape(rs, lo, hi, k);
    ContractionBounds(rs, k, lo, hi);
    if SizeField(m, hi) == 0 && Remainder(rs, k, lo) >= OVERHEAD {
      SameOutsideThen(m, n, q, Merged(rs, k).pos, hi, e);
    }
  }

  /** Memory q and end e after the merging and the contraction. */
  ghost predicate AfterMerge(m: seq<byte>, q: seq<byte>, rs: seq<Region>, k: nat, lo: nat, hi: nat, e: nat, repaired: bool)
    requires k < |rs|
  {
    exists n :: MergedInMemory(m, n, rs, k, hi, repaired) && SettledFrom(m, n, q, rs, k, lo, hi, e)
  }

  /** What free does to a heap without a stray header, exactly. */
  lemma FreeVerdict(m: seq<byte>, n: seq<byte>, q: seq<byte>, idx: set<nat>, rs: seq<Region>, lo: nat, hi: nat,
                    k: nat, e: nat, repaired: bool)
    requires Sound(m, idx, rs, lo, hi) && k < |rs| && !rs[k].hole && !Stray(m, rs, k, hi)
    requires hi - lo < 0x1_0000_0000 && (hi - lo) % PAGE == 0 && hi - lo >= HEAP_MIN_SIZE
    requires MergedInMemory(m, n, rs, k, hi, repaired) && SettledFrom(m, n, q, rs, k, lo, hi, e)
    ensures e == EndAfterFree(rs, k, lo, hi)
    ensures Sound(q, FreedIndex(idx, rs, k), Freed(rs, k, lo), lo, e) <==> FreeIsSound(rs, k, lo, repaired)
    ensures SomeHeap(q, FreedIndex(idx, rs, k), lo, e) <==> FreeIsSound(rs, k, lo, repaired)
    ensures Intact(rs, k, lo) ==> SameOutside(m, q, Merged(rs, k).pos, Merged(rs, k).End())
    ensures FreeLeaves(m, q, rs, k, lo, hi)
  {
    FreedMembers(rs, lo, hi, k);
    if Shrinks(rs, k) {
      FreedShrunk(m, n, q, idx, rs, lo, hi, k, repaired, Merged(rs, k).pos, e);
    } else {
      FreedInPlace(m, n, idx, rs, lo, hi, k, repaired);
    }
  }

  /** The index entries at the end of free, when those in ys were left after the merging. */
  ghost function EntriesAfter(ys: seq<nat>, rs: seq<Region>, k: nat): set<nat>
    requires k < |rs|
  {
    Members(ys) + (if MergesLeft(rs, k) then {} else {Merged(rs, k).pos})
  }

  /** The index before the freed header enters it. */
  ghost predicate Forgotten(m: seq<byte>, xs: seq<nat>, ys: seq<nat>, rs: seq<Region>, k: nat, hi: nat)
    requires k < |rs|
  {
    if Stray(m, rs, k, hi) then xs != [] && ys == xs[..|xs| - 1] else ys == SeqWithout(xs, rs[k].End())
  }

  lemma NotWithout(xs: seq<nat>, ys: seq<nat>, x: nat)
    requires ys == SeqWithout(xs, x) || (x !in xs && xs != [] && ys == xs[..|xs| - 1])
    ensures x !in ys
  {
  }

  /** What the rest of free needs to know of the merging: whether the hole is seen to end
      the heap, and that the contraction completes the work. */
  lemma MergeDone(m: seq<byte>, n: seq<byte>, idx: set<nat>, rs: seq<Region>, lo: nat, hi: nat, k: nat,
                  repaired: bool, header: nat, add: bool, merged: bool, last: nat)
    requires Sound(m, idx, rs, lo, hi) && k < |rs| && !rs[k].hole
    requires FOOTER_SIZE <= lo && hi + HEADER_SIZE <= |m| && hi < U64
    requires Joined(m, n, rs[k], LeftOf(rs, k), RightOf(rs, k), header, add, merged, last, repaired)
    ensures header == Merged(rs, k).pos && add == !MergesLeft(rs, k) && last < U64 && lo <= header
    ensures merged == (Stray(m, rs, k, hi) || MergesRight(rs, k))
    ensures Stray(m, rs, k, hi) ==> rs[k].End() == hi && SameOutside(m, n, header, Merged(rs, k).End())
    ensures OVERHEAD <= Merged(rs, k).size
    ensures Add64(last, FOOTER_SIZE) == hi ==> header + Merged(rs, k).size == hi && HeaderAt(n, header, Merged(rs, k).size, true)
    ensures forall q, e: nat {:trigger AfterMerge(m, q, rs, k, lo, hi, e, repaired)} ::
      (if Add64(last, FOOTER_SIZE) == hi then Settled(n, q, header, lo, hi, e) else q == n && e == hi)
        ==> AfterMerge(m, q, rs, k, lo, hi, e, repaired)
  {
    MergedFrom(m, n, idx, rs, lo, hi, k, repaired, header, add, merged, last);
    FreedMembers(rs, lo, hi, k);
    MergedSpan(rs, lo, hi, k);
    if Stray(m, rs, k, hi) { ProbeEnds(hi, SizeField(m, hi)); }
    assert Add64(last, FOOTER_SIZE) == hi <==> EndsHeap(m, rs, k, hi);
    forall q, e: nat | if Add64(last, FOOTER_SIZE) == hi then Settled(n, q, header, lo, hi, e) else q == n && e == hi
      ensures AfterMerge(m, q, rs, k, lo, hi, e, repaired)
    {
      assert SettledFrom(m, n, q, rs, k, lo, hi, e);
    }
  }

  /** Free writes nothing outside the merged hole. */
  ghost predicate Contained(m: seq<byte>, xs: seq<nat>, rs: seq<Region>, k: nat, lo: nat, hi: nat, repaired: bool)
    requires k < |rs|
  {
    Intact(rs, k, lo) || FreeKeepsHeap(m, xs, rs, k, lo, hi, repaired)
  }

  /** Memory q, end e and index entries ys before the last step of free. */
  ghost predicate Ending(m: seq<byte>, q: seq<byte>, xs: seq<nat>, ys: seq<nat>, rs: seq<Region>, lo: nat, hi: nat,
                         k: nat, e: nat, repaired: bool)
  {
    && Sound(m, Members(xs), rs, lo, hi) && Distinct(xs) && k < |rs| && !rs[k].hole
    && hi - lo < 0x1_0000_0000 && (hi - lo) % PAGE == 0 && hi - lo >= HEAP_MIN_SIZE
    && AfterMerge(m, q, rs, k, lo, hi, e, repaired) && Forgotten(m, xs, ys, rs, k, hi)
  }

  lemma StrayOutcome(m: seq<byte>, q: seq<byte>, xs: seq<nat>, ys: seq<nat>, rs: seq<Region>,
                     lo: nat, hi: nat, k: nat, e: nat, repaired: bool)
    requires Ending(m, q, xs, ys, rs, lo, hi, k, e, repaired) && Stray(m, rs, k, hi)
    ensures !MergesLeft(rs, k) ==> Merged(rs, k).pos !in ys
    ensures Sound(q, EntriesAfter(ys, rs, k), Freed(rs, k, lo), lo, e) <==> LostRightEntry(m, xs, rs, k, lo, hi)
    ensures SomeHeap(q, EntriesAfter(ys, rs, k), lo, e) <==> LostRightEntry(m, xs, rs, k, lo, hi)
    ensures Intact(rs, k, lo) || LostRightEntry(m, xs, rs, k, lo, hi) ==>
      SameOutside(m, q, Merged(rs, k).pos, Merged(rs, k).End())
  {
    var n :| MergedInMemory(m, n, rs, k, hi, repaired) && SettledFrom(m, n, q, rs, k, lo, hi, e);
    FreedMembers(rs, lo, hi, k);
    StraySettled(m, n, q, rs, lo, hi, k, e, repaired);
    StrayVerdict(m, q, xs, rs, lo, hi, k, e);
    assert EntriesAfter(ys, rs, k) == StrayEntries(xs, rs, k);
  }

  lemma PlainOutcome(m: seq<byte>, q: seq<byte>, xs: seq<nat>, ys: seq<nat>, rs: seq<Region>,
                     lo: nat, hi: nat, k: nat, e: nat, repaired: bool)
    requires Ending(m, q, xs, ys, rs, lo, hi, k, e, repaired) && !Stray(m, rs, k, hi)
    ensures !MergesLeft(rs, k) ==> Merged(rs, k).pos !in ys
    ensures Sound(q, EntriesAfter(ys, rs, k), Freed(rs, k, lo), lo, e) <==> FreeIsSound(rs, k, lo, repaired)
    ensures SomeHeap(q, EntriesAfter(ys, rs, k), lo, e) <==> FreeIsSound(rs, k, lo, repaired)
    ensures e == EndAfterFree(rs, k, lo, hi) && EntriesAfter(ys, rs, k) == FreedIndex(Members(xs), rs, k)
    ensures Intact(rs, k, lo) && !MergesLeft(rs, k) && SortedBy(xs, SizeKey(m)) ==> SortedBy(ys, SizeKey(q))
    ensures Intact(rs, k, lo) ==> SameOutside(m, q, Merged(rs, k).pos, Merged(rs, k).End())
    ensures FreeLeaves(m, q, rs, k, lo, hi)
  {
    var n :| MergedInMemory(m, n, rs, k, hi, repaired) && SettledFrom(m, n, q, rs, k, lo, hi, e);
    FreedMembers(rs, lo, hi, k);
    FreedIndexSteps(xs, rs, lo, hi, k);
    assert EntriesAfter(ys, rs, k) == FreedIndex(Members(xs), rs, k);
    FreeVerdict(m, n, q, Members(xs), rs, lo, hi, k, e, repaired);
    if Intact(rs, k, lo) && !MergesLeft(rs, k) && SortedBy(xs, SizeKey(m)) {
      FreedSorted(m, q, xs, rs, lo, hi, k);
    }
  }

  /** What free makes of any heap. */
  lemma FreeOutcome(m: seq<byte>, q: seq<byte>, xs: seq<nat>, ys: seq<nat>, rs: seq<Region>,
                    lo: nat, hi: nat, k: nat, e: nat, repaired: bool)
    requires Ending(m, q, xs, ys, rs, lo, hi, k, e, repaired)
    ensures !MergesLeft(rs, k) ==> Merged(rs, k).pos !in ys
    ensures Sound(q, EntriesAfter(ys, rs, k), Freed(rs, k, lo), lo, e)
       <==> FreeKeepsHeap(m, xs, rs, k, lo, hi, repaired)
    ensures SomeHeap(q, EntriesAfter(ys, rs, k), lo, e) <==> FreeKeepsHeap(m, xs, rs, k, lo, hi, repaired)
    ensures !Stray(m, rs, k, hi) ==>
      e == EndAfterFree(rs, k, lo, hi) && EntriesAfter(ys, rs, k) == FreedIndex(Members(xs), rs, k)
    ensures !Stray(m, rs, k, hi) && Intact(rs, k, lo) && !MergesLeft(rs, k) && SortedBy(xs, SizeKey(m))
      ==> SortedBy(ys, SizeKey(q))
    ensures Contained(m, xs, rs, k, lo, hi, repaired) ==> SameOutside(m, q, Merged(rs, k).pos, Merged(rs, k).End())
    ensures FreeLeaves(m, q, rs, k, lo, hi)
  {
    if Stray(m, rs, k, hi) {
      StrayOutcome(m, q, xs, ys, rs, lo, hi, k, e, repaired);
    } else {
      PlainOutcome(m, q, xs, ys, rs, lo, hi, k, e, repaired);
    }
  }

  lemma HeaderStays(m: seq<byte>, n: seq<byte>, z: seq<byte>, header: nat, h: nat, size: nat, footer: nat)
    requires SameOutside(m, n, h, h + HEADER_SIZE) && SameBetween(n, z, header + HEADER_SIZE, footer)
    requires HeaderAt(n, h, size, true) && header + HEADER_SIZE <= h && h + HEADER_SIZE <= footer
    ensures HeaderAt(z, h, size, true) && SameBetween(m, z, header + HEADER_SIZE, h)
  {
    assert n[h..h + 4] == z[h..h + 4];
    assert n[h + 8..h + 16] == z[h + 8..h + 16];
  }

  // ----- payloads ----------------------------------------------------------------------

  lemma PayloadSound(m: seq<byte>, n: seq<byte>, idx: set<nat>, rs: seq<Region>, lo: nat, hi: nat, k: nat, a: nat)
    requires Sound(m, idx, rs, lo, hi)
    requires k < |rs| && rs[k].pos + HEADER_SIZE <= a && a + 1 + FOOTER_SIZE <= rs[k].End()
    requires SameOutside(m, n, a, a + 1)
    ensures Sound(n, idx, rs, lo, hi)
  {
    RegionBounds(rs, lo, hi, k);
    LoadFrame(m, n, lo - FOOTER_SIZE, 4, a, a + 1);
    forall t | 0 <= t < |rs|
      ensures TaggedAt(n, rs, t)
    {
      assert TaggedAt(m, rs, t);
      if t == k {
        TagFrame(m, n, rs[k].pos, a, a + 1);
        TagFrame(m, n, rs[k].End() - FOOTER_SIZE, a, a + 1);
      } else {
        RegionsDisjoint(rs, lo, hi, t, k);
        TaggedFrame(m, n, rs[t], NeedsFooter(rs, t), a, a + 1);
      }
    }
  }

  // ----- growth -----------------------------------------------------------------

  /** The endmost entry of a growable heap's index is the hole that ends the heap. */
  lemma HighestEntry(m: seq<byte>, xs: seq<nat>, rs: seq<Region>, lo: nat, hi: nat)
    requires Sound(m, Members(xs), rs, lo, hi) && Growable(rs)
    requires lo > 0
    ensures forall p :: p in xs ==> 0 < p <= rs[|rs| - 1].pos
    ensures xs == [] <==> HighestHole(rs) < 0
    ensures xs != [] ==> HighestHole(rs) == |rs| - 1 && rs[|rs| - 1].pos in xs
  {
    forall p | p in xs
      ensures 0 < p <= rs[|rs| - 1].pos && HighestHole(rs) >= 0
    {
      var k := EntryRegion(m, Members(xs), rs, lo, hi, p);
      if k < |rs| - 1 { RegionsAscend(rs, lo, hi, k, |rs| - 1); }
    }
    if xs != [] {
      assert xs[0] in xs;
    }
    if HighestHole(rs) >= 0 {
      RegionEntry(m, Members(xs), rs, lo, hi, |rs| - 1);
    }
  }

  lemma GrownByNewHole(m: seq<byte>, n: seq<byte>, idx: set<nat>, rs: seq<Region>, lo: nat, hi: nat, g: nat)
    requires Sound(m, idx, rs, lo, hi)
    requires HighestHole(rs) < 0 && g >= OVERHEAD
    requires SameOutside(m, n, hi, hi + g)
    requires Tagged(n, Region(hi, g, true), true)
    ensures Sound(n, idx + {hi}, Grown(rs, hi, g), lo, hi + g)
  {
    var mid, entries, k := [Region(hi, g, true)], idx + {hi}, |rs|;
    forall p
      ensures EntryFollows(idx, entries, rs, k, k, mid, p)
    {
      SingleHole(mid[0], p);
    }
    SpliceSound(m, n, idx, rs, k, k, mid, lo, hi, hi + g, hi, hi + g, entries, Grown(rs, hi, g));
  }

  lemma EnlargedTags(m: seq<byte>, n: seq<byte>, q: seq<byte>, header: nat, size: nat)
    requires OVERHEAD <= size
    requires SameOutside(m, n, header, header + HEADER_SIZE) && HeaderAt(n, header, size, true)
    requires var last := header + size - FOOTER_SIZE;
      SameOutside(n, q, last, last + FOOTER_SIZE) && FooterAt(q, last, header)
    ensures SameOutside(m, q, header, header + size) && Tagged(q, Region(header, size, true), true)
  {
    TagFrame(n, q, header, header + size - FOOTER_SIZE, header + size);
  }

  lemma GrownByLastHole(m: seq<byte>, n: seq<byte>, idx: set<nat>, rs: seq<Region>, lo: nat, hi: nat, g: nat)
    requires Sound(m, idx, rs, lo, hi)
    requires rs[|rs| - 1].hole
    requires SameOutside(m, n, rs[|rs| - 1].pos, hi + g)
    requires Tagged(n, rs[|rs| - 1].(size := rs[|rs| - 1].size + g), true)
    ensures Sound(n, idx, Grown(rs, hi, g), lo, hi + g)
  {
    var k := |rs| - 1;
    var r := rs[k].(size := rs[k].size + g);
    RegionEntry(m, idx, rs, lo, hi, k);
    forall p
      ensures EntryFollows(idx, idx, rs, k, |rs|, [r], p)
    {
      SingleHole(r, p);
      assert HoleAmong(rs, k, |rs|, p) <==> p == r.pos;
    }
    assert Tiles([r], rs[k].pos, hi + g);
    assert 0 < k ==> Apart(rs, k - 1);
    SpliceSound(m, n, idx, rs, k, |rs|, [r], lo, hi, hi + g, rs[k].pos, hi + g, idx, Grown(rs, hi, g));
  }

  lemma LastEnlarged(m: seq<byte>, n: seq<byte>, q: seq<byte>, idx: set<nat>, rs: seq<Region>, lo: nat, hi: nat, g: nat)
    requires Sound(m, idx, rs, lo, hi) && rs[|rs| - 1].hole
    requires var r := rs[|rs| - 1];
      && SameOutside(m, n, r.pos, r.pos + HEADER_SIZE) && HeaderAt(n, r.pos, r.size + g, true)
      && var last := r.pos + (r.size + g) - FOOTER_SIZE;
         SameOutside(n, q, last, last + FOOTER_SIZE) && FooterAt(q, last, r.pos)
    ensures Sound(q, idx, Grown(rs, hi, g), lo, hi + g)
    ensures BlocksKept(m, q, rs) && SameOutside(m, q, lo, hi + g)
  {
    var r := rs[|rs| - 1];
    RegionBounds(rs, lo, hi, |rs| - 1);
    EnlargedTags(m, n, q, r.pos, r.size + g);
    GrownByLastHole(m, q, idx, rs, lo, hi, g);
    LastHoleKept(m, q, rs, lo, hi, hi + g);
  }

  const INDEX_ENTRIES: nat := 0x1000

  // sizeof(heap_t) and the entries, which create_heap places first
  const INDEX_BYTES: nat := 64 + 8 * INDEX_ENTRIES

  lemma HeapStart(start: nat, end: nat)
    requires start % PAGE == 0 && start + INDEX_BYTES + PAGE + HEAP_MIN_SIZE <= end < 0x1_0000_0000
    ensures var s := RoundUp(start + INDEX_BYTES);
      s % PAGE == 0 && start + INDEX_BYTES <= s && s + HEAP_MIN_SIZE <= end
  {
    RoundUpPage(start + INDEX_BYTES);
  }

  // ----- the whole of alloc -----------------------------------------------------

  /** The regions once the heap has grown as often as the request needs. */
  ghost function GrownToFit(rs: seq<Region>, hi: nat, ns: nat, align: bool, g: nat): seq<Region> {
    var once := Grown(rs, hi, g);
    if SomeFits(rs, ns, align) then rs
    else if SomeFits(once, ns, align) then once
    else Grown(once, hi + g, g)
  }

  /** Where that heap ends: growth stops as soon as there is room. */
  ghost function EndToFit(rs: seq<Region>, hi: nat, ns: nat, align: bool, g: nat): (e: nat)
    ensures e >= hi && (e > hi && g > 0 ==> !Room(rs, ns, align))
  {
    if Room(rs, ns, align) then hi else if Room(Grown(rs, hi, g), ns, align) then hi + g else hi + g + g
  }

  /** Each growth brings the request closer: what is left to ask of the grown heap
      is no more than was asked of the old one, and fewer growths are needed. */
  lemma GrowthProgress(rs: seq<Region>, hi: nat, max: nat, ns: nat, align: bool, g: nat)
    requires GrowsSafely(rs, hi, max, ns, align, g) && !SomeFits(rs, ns, align)
    requires OVERHEAD <= ns && g % PAGE == 0
    ensures CanGrow(rs, hi, max, ns, g)
    ensures if SomeFits(Grown(rs, hi, g), ns, align) then LastSafe(Grown(rs, hi, g), ns, align)
      else GrowsSafely(Grown(rs, hi, g), hi + g, max, ns, align, g)
    ensures GrowthsNeeded(Grown(rs, hi, g), hi + g, ns, align, g) < GrowthsNeeded(rs, hi, ns, align, g)
    ensures GrownToFit(Grown(rs, hi, g), hi + g, ns, align, g) == GrownToFit(rs, hi, ns, align, g)
    ensures EndToFit(Grown(rs, hi, g), hi + g, ns, align, g) == EndToFit(rs, hi, ns, align, g)
  {
    GrowthSuffices(rs, hi, ns, align, g);
    RoomIff(rs, ns, align);
    RoomIff(Grown(rs, hi, g), ns, align);
    RoomIff(Grown(Grown(rs, hi, g), hi + g, g), ns, align);
  }

  /** out is rs with a block for the request cut out of hole k; p is its address. */
  ghost predicate Allocated(rs: seq<Region>, out: seq<Region>, ns: nat, align: bool, k: nat, p: nat) {
    && k < |rs| && FitsIn(rs, k, ns, align) && SafeSplit(rs[k], ns, align)
    && ns < U64 && rs[k].End() + PAGE < U64
    && out == Splice(rs, k, k + 1, Split(rs[k], ns, align))
    && p == Carved(rs[k], ns, align).pos + HEADER_SIZE
  }

  /** What alloc makes of a heap with memory m, index xs and regions rs that ends at hi: the
      heap grown as far as it must, and no further, with the block cut out of the hole k of
      it, the first in the index that fits if one did before. Every block that was live
      keeps its place and all its bytes. */
  ghost predicate Serves(m: seq<byte>, xs: seq<nat>, rs: seq<Region>, lo: nat, hi: nat, q: seq<byte>, out: seq<Region>,
                         e: nat, ns: nat, align: bool, k: nat, p: nat, grown: seq<Region>) {
    && grown == GrownToFit(rs, hi, ns, align, RoundUp(ns)) && e == EndToFit(rs, hi, ns, align, RoundUp(ns))
    && Allocated(grown, out, ns, align, k, p) && (align ==> p % PAGE == 0)
    && BlocksKept(m, q, rs) && BlocksStay(rs, out) && SameOutside(m, q, lo, e)
    && (SomeFits(rs, ns, align) ==> grown == rs && TakenFirst(m, xs, grown[k].pos, ns, align))
  }

  /** What serves the heap that has grown serves the one before. */
  ghost predicate Continues(m: seq<byte>, xs: seq<nat>, rs: seq<Region>, lo: nat, hi: nat, n: seq<byte>, ys: seq<nat>,
                            mid: seq<Region>, middle: nat, ns: nat, align: bool) {
    forall q, out, e: nat, k: nat, p: nat, grown
        {:trigger Serves(n, ys, mid, lo, middle, q, out, e, ns, align, k, p, grown)} ::
      Serves(n, ys, mid, lo, middle, q, out, e, ns, align, k, p, grown) ==>
        Serves(m, xs, rs, lo, hi, q, out, e, ns, align, k, p, grown)
  }

  lemma GrowthContinues(m: seq<byte>, xs: seq<nat>, rs: seq<Region>, lo: nat, hi: nat, n: seq<byte>, ys: seq<nat>,
                        mid: seq<Region>, middle: nat, max: nat, ns: nat, align: bool)
    requires GrowsSafely(rs, hi, max, ns, align, RoundUp(ns)) && !SomeFits(rs, ns, align) && OVERHEAD <= ns
    requires mid == Grown(rs, hi, RoundUp(ns)) && middle == hi + RoundUp(ns)
    requires BlocksKept(m, n, rs) && SameOutside(m, n, lo, middle)
    ensures Continues(m, xs, rs, lo, hi, n, ys, mid, middle, ns, align)
  {
    RoundUpWhole(ns);
    GrowthProgress(rs, hi, max, ns, align, RoundUp(ns));
    GrownStays(rs, hi, RoundUp(ns));
    forall q, out, e: nat, k: nat, p: nat, grown | Serves(n, ys, mid, lo, middle, q, out, e, ns, align, k, p, grown)
      ensures Serves(m, xs, rs, lo, hi, q, out, e, ns, align, k, p, grown)
    {
      GrownThenCut(m, n, q, rs, mid, out, lo, middle, e);
    }
  }

  lemma AllocatedStays(rs: seq<Region>, out: seq<Region>, ns: nat, align: bool, k: nat, p: nat)
    requires Allocated(rs, out, ns, align, k, p)
    ensures BlocksStay(rs, out)
  {
    SpliceStays(rs, k, k + 1, Split(rs[k], ns, align));
  }

  lemma AllocatedAligned(rs: seq<Region>, out: seq<Region>, ns: nat, k: nat, p: nat)
    requires OVERHEAD <= ns
    requires Allocated(rs, out, ns, true, k, p)
    ensures p % PAGE == 0
  {
    CarvedBlock(rs[k], ns, true);
  }

  /** The address alloc returns is that of a new live block that is large enough
      for the request; the other live blocks stay. */
  lemma AllocatedBlock(rs: seq<Region>, lo: nat, hi: nat, out: seq<Region>, ns: nat, align: bool, k: nat, p: nat)
      returns (b: Region)
    requires Tiles(rs, lo, hi)
    requires OVERHEAD <= ns
    requires Allocated(rs, out, ns, align, k, p)
    ensures b in out && b !in rs && !b.hole && b.size >= ns && p == b.pos + HEADER_SIZE
    ensures BlocksStay(rs, out)
  {
    b := Carved(rs[k], ns, align);
    CarvedBlock(rs[k], ns, align);
    CutBlock(rs, lo, hi, k, b);
  }

  lemma CutBlock(rs: seq<Region>, lo: nat, hi: nat, k: nat, b: Region)
    requires Tiles(rs, lo, hi)
    requires k < |rs| && rs[k].hole && !b.hole && b.size > 0
    requires rs[k].pos <= b.pos && b.End() <= rs[k].End()
    ensures var out := Splice(rs, k, k + 1, Pieces(rs[k], b));
      b in out && b !in rs && BlocksStay(rs, out)
  {
    var mid := Pieces(rs[k], b);
    assert b in mid;
    if b in rs {
      var t :| 0 <= t < |rs| && rs[t] == b;
      RegionsDisjoint(rs, lo, hi, k, t);
    }
    SpliceStays(rs, k, k + 1, mid);
  }

  lemma SpliceStays(rs: seq<Region>, i: nat, j: nat, mid: seq<Region>)
    requires i <= j <= |rs|
    requires forall t :: i <= t < j ==> rs[t].hole
    ensures BlocksStay(rs, Splice(rs, i, j, mid))
  {
    var out := Splice(rs, i, j, mid);
    forall r | r in rs && !r.hole
      ensures r in out
    {
      var t :| 0 <= t < |rs| && rs[t] == r;
      assert t < i ==> out[t] == r;
      assert j <= t ==> out[t - j + i + |mid|] == r;
    }
  }

  lemma GrownStays(rs: seq<Region>, hi: nat, g: nat)
    ensures BlocksStay(rs, Grown(rs, hi, g))
  {
    var k := HighestHole(rs);
    if k < 0 {
      SpliceStays(rs, |rs|, |rs|, [Region(hi, g, true)]);
    } else {
      SpliceStays(rs, k, k + 1, [rs[k].(size := rs[k].size + g)]);
    }
  }

  lemma WholePages(lo: nat, hi: nat)
    requires lo <= hi && lo % PAGE == 0 && hi % PAGE == 0
    ensures (hi - lo) % PAGE == 0
  {
  }

  /** The arithmetic of expand. */
  lemma ExpandedPages(lo: nat, hi: nat, newSize: nat, next: nat)
    requires lo % PAGE == 0 && hi % PAGE == 0 && lo <= hi <= lo + newSize && newSize < 0x1_0000_0000
    requires hi <= next * PAGE
    ensures newSize <= RoundUp(newSize)
    ensures var end := lo + RoundUp(newSize);
      && end % PAGE == 0 && hi <= end
      && (next + (RoundUp(newSize) - (hi - lo)) / PAGE) * PAGE - end == next * PAGE - hi
  {
    RoundUpPage(newSize);
    var rounded := RoundUp(newSize);
    assert hi - lo == PAGE * (hi / PAGE - lo / PAGE);
    assert rounded == PAGE * (rounded / PAGE);
    assert rounded - (hi - lo) == PAGE * (rounded / PAGE - (hi / PAGE - lo / PAGE));
  }

  class Heap {
    const ram: Memory
    const index: Index
    const startAddress: nat
    const maxAddress: nat
    var endAddress: nat
    var kernelNextBlock: nat       // _kernel_next_block, which alloc_kernel_page advances
    ghost var regions: seq<Region>

    ghost function Image(): seq<byte>
      reads ram.bytes
    {
      ram.Image()
    }

    ghost function Entries(): set<nat>
      requires index.Valid()
      reads index`size, index.slots
    {
      Members(index.Contents())
    }

    ghost predicate Valid()
      reads this, ram.bytes, index`size, index.slots
    {
      && index.Valid()
      && ram.bytes as object != index.slots as object
      && Distinct(index.Contents())
      && Sound(Image(), Entries(), regions, startAddress, endAddress)
      && Bounded()
    }

    /** How many bytes behind the heap's end have been handed out: contraction leaves them
        mapped, and growth does not use them. */
    ghost function Slack(): int
      reads `endAddress, `kernelNextBlock
    {
      kernelNextBlock * PAGE - endAddress
    }

    /** p is the address alloc returned for region k, which is still allocated. */
    ghost predicate Live(p: nat, k: nat)
      reads `regions
    {
      k < |regions| && !regions[k].hole && p == regions[k].pos + HEADER_SIZE
    }

    /** The heap's bounds are pages, the heap keeps its minimum size, and every
        page of it has been handed out by alloc_kernel_page. */
    ghost predicate Bounded()
      reads `endAddress, `kernelNextBlock
    {
      && startAddress % PAGE == 0 && endAddress % PAGE == 0
      && FOOTER_SIZE <= startAddress
      && startAddress + HEAP_MIN_SIZE <= endAddress <= maxAddress < 0x1_0000_0000
      && endAddress <= kernelNextBlock * PAGE
      && maxAddress + HEADER_SIZE <= ram.bytes.Length
      && index.slots.Length == INDEX_ENTRIES
    }

    ghost predicate Sorted()
      requires index.Valid()
      reads ram.bytes, index`size, index.slots
    {
      SortedBy(index.Contents(), SizeKey(Image()))
    }

    /** create_heap: the index takes the first bytes of the area, then one large
        hole, without a footer, takes the rest. */
    constructor (memory: Memory, start: nat, end: nat, max: nat, nextBlock: nat)
      requires start % PAGE == 0 && end % PAGE == 0
      requires start + INDEX_BYTES + PAGE + HEAP_MIN_SIZE <= end <= max < 0x1_0000_0000
      requires end <= nextBlock * PAGE
      requires max + HEADER_SIZE <= memory.bytes.Length
      requires Load(memory.Image(), RoundUp(start + INDEX_BYTES) - FOOTER_SIZE, 4) != HEAP_MAGIC
      modifies memory.bytes
      ensures Valid() && fresh(index) && fresh(index.slots)
      ensures ram == memory && endAddress == end && maxAddress == max && kernelNextBlock == nextBlock
      ensures startAddress == RoundUp(start + INDEX_BYTES)
      ensures regions == [Region(startAddress, end - startAddress, true)]
      ensures SameOutside(old(memory.Image()), Image(), startAddress, startAddress + HEADER_SIZE)
    {
      ram := memory;
      index := new Index(INDEX_ENTRIES);
      var s := RoundUp(start + INDEX_BYTES);
      startAddress := s;
      endAddress := end;
      maxAddress := max;
      kernelNextBlock := nextBlock;
      regions := [Region(s, end - s, true)];
      new;
      HeapStart(start, end);
      ghost var m := Image();
      ram.StoreHeader(startAddress, endAddress - startAddress, true);
      LoadFrame(m, Image(), startAddress - FOOTER_SIZE, 4, startAddress, startAddress + HEADER_SIZE);
      OneHoleSound(Image(), startAddress, endAddress);
      AddEntry(startAddress);
    }

    /** Inserts a header into the index, comparing sizes as they are in memory. */
    method AddEntry(p: nat)
      requires index.Valid() && index.size < index.slots.Length
      requires ram.bytes as object != index.slots as object
      requires Distinct(index.Contents()) && p !in index.Contents()
      modifies index`size, index.slots
      ensures index.Valid() && index.size == old(index.size) + 1
      ensures Distinct(index.Contents()) && Entries() == old(Entries()) + {p}
      ensures index.Contents() == Inserted(old(index.Contents()), p, ByKey(SizeKey(Image())))
      ensures Image() == old(Image())
    {
      var snapshot := ram.bytes[..];
      InsertedMembers(index.Contents(), p, ByKey(SizeKey(snapshot)));
      index.Insert(p, ByKey(SizeKey(snapshot)));
    }

    /** expand: the heap's end moves up by whole pages, freshly allocated. */
    method Expand(newSize: nat)
      requires Bounded()
      requires endAddress - startAddress <= newSize < 0x1_0000_0000
      requires startAddress + RoundUp(newSize) <= maxAddress
      modifies this`endAddress, this`kernelNextBlock
      ensures Bounded()
      ensures endAddress == startAddress + RoundUp(newSize) >= startAddress + newSize
      ensures kernelNextBlock - old(kernelNextBlock) == (endAddress - old(endAddress)) / PAGE
      ensures Slack() == old(Slack())
    {
      var oldSize := endAddress - startAddress;
      ExpandedPages(startAddress, endAddress, newSize, kernelNextBlock);
      kernelNextBlock := kernelNextBlock + (RoundUp(newSize) - oldSize) / PAGE;
      endAddress := startAddress + RoundUp(newSize);
    }

    /** The heap's end moves up for a request of ns bytes. */
    method MoveEnd(ns: nat) returns (g: nat)
      requires Bounded()
      requires OVERHEAD <= ns <= RoundUp(ns) && endAddress + RoundUp(ns) <= maxAddress
      modifies this`endAddress, this`kernelNextBlock
      ensures Bounded() && OVERHEAD <= g == RoundUp(ns)
      ensures endAddress == old(endAddress) + g && Slack() == old(Slack())
    {
      var oldLength, oldEnd := endAddress - startAddress, endAddress;
      GrowStep(startAddress, endAddress, ns);
      Expand(oldLength + ns);
      g := endAddress - oldEnd;
    }

    /** contract: the heap's end moves down to a page boundary, but never so far
        that less than the minimum size is left, and never up. */
    method Contract(newSize: nat) returns (length: nat)
      requires Bounded()
      requires newSize <= endAddress - startAddress
      modifies this`endAddress
      ensures Bounded()
      ensures newSize <= length == ContractedLength(newSize) && endAddress == startAddress + length <= old(endAddress)
    {
      RoundUpPage(newSize);
      length := RoundUp(newSize);
      if length < HEAP_MIN_SIZE {
        length := HEAP_MIN_SIZE;
      }
      endAddress := startAddress + length;
    }

    /** Writes both tags of region r. */
    method StoreRegion(r: Region)
      requires OVERHEAD <= r.size && r.End() <= ram.bytes.Length && r.End() < U64
      modifies ram.bytes
      ensures Tagged(Image(), r, true)
      ensures SameOutside(old(Image()), Image(), r.pos, r.End())
    {
      ram.StoreHeader(r.pos, r.size, r.hole);
      ghost var m := Image();
      ram.StoreFooter(r.End() - FOOTER_SIZE, r.pos);
      TagFrame(m, Image(), r.pos, r.End() - FOOTER_SIZE, r.End());
    }

    /** The loop of find_smallest_hole: the first entry that fits. */
    method FirstFit(ns: nat, align: bool) returns (it: nat)
      requires index.Valid()
      requires Readable(index.Contents(), ram.bytes.Length)
      ensures it <= index.size
      ensures NoneFits(Image(), index.Contents()[..it], ns, align)
      ensures it < index.size ==> EntryFits(Image(), index.Contents()[it], ns, align)
    {
      it := 0;
      ghost var m, xs := Image(), index.Contents();
      while it < index.size
        invariant it <= index.size
        invariant NoneFits(m, xs[..it], ns, align)
      {
        var header := index.Lookup(it);
        assert header == xs[it] && xs[it] in xs;
        var size := ram.Fetch(header + 8, 8);
        if FitsAt(header, size, ns, align) {
          break;
        }
        assert xs[..it + 1] == xs[..it] + [xs[it]];
        it := it + 1;
      }
    }

    /** -1 if and only if no hole has room for the request; on a sorted index, otherwise,
        a fitting hole of minimum size. */
    method FindSmallestHole(ns: nat, align: bool) returns (it: int)
      requires Valid()
      ensures -1 <= it < index.size
      ensures it == -1 <==> !SomeFits(regions, ns, align)
      ensures ns > 0 ==> (it == -1 <==> !Room(regions, ns, align))
      ensures it >= 0 ==> FirstFitting(Image(), index.Contents(), it, ns, align)
      ensures it >= 0 && Sorted() ==> Smallest(regions, SizeField(Image(), index.Contents()[it]), ns, align)
    {
      EntriesReadable(Image(), index.Contents(), regions, startAddress, endAddress);
      if ns > 0 { RoomIff(regions, ns, align); }
      var i := FirstFit(ns, align);
      if i == index.size {
        it := -1;
        assert index.Contents()[..i] == index.Contents();
        NoEntryNoHole(Image(), index.Contents(), regions, startAddress, endAddress, ns, align);
      } else {
        it := i;
        FirstFitFits(Image(), index.Contents(), regions, startAddress, endAddress, ns, align, i);
      }
    }

    /** The scan for the endmost header: -1 if the index is empty. */
    method FindEndmost() returns (idx: int)
      requires index.Valid()
      requires forall p :: p in index.Contents() ==> p > 0
      ensures -1 <= idx < index.size
      ensures idx == -1 <==> index.size == 0
      ensures idx >= 0 ==> index.Contents()[idx] in index.Contents()
      ensures idx >= 0 ==> (forall p :: p in index.Contents() ==> p <= index.Contents()[idx])
    {
      var i := 0;
      var value := 0;
      idx := -1;
      ghost var xs := index.Contents();
      while i < index.size
        invariant 0 <= i <= index.size
        invariant -1 <= idx < i && (idx == -1 <==> i == 0)
        invariant value == if idx == -1 then 0 else xs[idx]
        invariant forall j :: 0 <= j < i ==> xs[j] <= value
      {
        var tmp := index.Lookup(i);
        assert xs[i] in xs;
        if tmp > value {
          value := tmp;
          idx := i;
        }
        i := i + 1;
      }
    }

    /** The heap had no hole: one is made of the new space. */
    method AppendHole(end: nat, g: nat)
      requires index.Valid() && index.size < index.slots.Length && Distinct(index.Contents())
      requires ram.bytes as object != index.slots as object
      requires Sound(Image(), Entries(), regions, startAddress, end)
      requires HighestHole(regions) < 0 && OVERHEAD <= g && end + g <= ram.bytes.Length && end + g < U64
      modifies ram.bytes, index`size, index.slots
      ensures index.Valid() && Distinct(index.Contents())
      ensures index.size == old(index.size) + 1
      ensures Sound(Image(), Entries(), Grown(regions, end, g), startAddress, end + g)
      ensures BlocksKept(old(Image()), Image(), regions)
      ensures SameOutside(old(Image()), Image(), startAddress, end + g)
    {
      RegionBounds(regions, startAddress, end, 0);
      if end in index.Contents() {
        ghost var k := EntryRegion(Image(), Entries(), regions, startAddress, end, end);
      }
      StoreRegion(Region(end, g, true));
      AddEntry(end);
      GrownByNewHole(old(Image()), Image(), old(Entries()), regions, startAddress, end, g);
      OthersKept(old(Image()), Image(), regions, startAddress, end, |regions|, |regions|, end + g);
    }

    /** The hole that ends the heap takes the new space. */
    method EnlargeHole(header: nat, end: nat, g: nat)
      requires index.Valid()
      requires Sound(Image(), Entries(), regions, startAddress, end)
      requires regions[|regions| - 1].hole && header == regions[|regions| - 1].pos
      requires OVERHEAD <= g && end + g <= ram.bytes.Length && end + g < U64
      requires ram.bytes as object != index.slots as object
      modifies ram.bytes
      ensures index.Contents() == old(index.Contents())
      ensures Sound(Image(), Entries(), Grown(regions, end, g), startAddress, end + g)
      ensures index.size == old(index.size)
      ensures BlocksKept(old(Image()), Image(), regions)
      ensures SameOutside(old(Image()), Image(), startAddress, end + g)
    {
      ghost var m, last := Image(), regions[|regions| - 1];
      assert TaggedAt(m, regions, |regions| - 1);
      var size := ram.Fetch(header + 8, 8);
      ram.Resize(header, last.size, true, size + g);
      ghost var n := Image();
      ram.StoreFooter(header + size + g - FOOTER_SIZE, header);
      LastEnlarged(m, n, Image(), Entries(), regions, startAddress, end, g);
    }

    /** Gives g new bytes above end to the hole that ends the heap, or to a new
        one. */
    method PlaceGrowth(end: nat, g: nat)
      requires index.Valid() && index.size < index.slots.Length && Distinct(index.Contents())
      requires ram.bytes as object != index.slots as object
      requires Sound(Image(), Entries(), regions, startAddress, end) && Growable(regions) && 0 < startAddress
      requires OVERHEAD <= g && end + g <= ram.bytes.Length && end + g < U64
      modifies ram.bytes, index`size, index.slots
      ensures index.Valid() && Distinct(index.Contents())
      ensures index.size == if old(index.size) == 0 then 1 else old(index.size)
      ensures Sound(Image(), Entries(), Grown(regions, end, g), startAddress, end + g)
      ensures BlocksKept(old(Image()), Image(), regions)
      ensures SameOutside(old(Image()), Image(), startAddress, end + g)
    {
      HighestEntry(Image(), index.Contents(), regions, startAddress, end);
      var idx := FindEndmost();
      if idx == -1 {
        AppendHole(end, g);
      } else {
        var header := index.Lookup(idx);
        EnlargeHole(header, end, g);
      }
    }

    /** The growth half of alloc: the heap's end moves up, and the hole that ends
        the heap, or a new one, takes the new space. */
    method Grow(ns: nat)
      requires Valid() && index.size < index.slots.Length
      requires OVERHEAD <= ns
      requires CanGrow(regions, endAddress, maxAddress, ns, RoundUp(ns))
      modifies this`endAddress, this`kernelNextBlock, this`regions, ram.bytes, index`size, index.slots
      ensures Valid()
      ensures endAddress == old(endAddress) + RoundUp(ns)
      ensures regions == Grown(old(regions), old(endAddress), RoundUp(ns))
      ensures index.size == if old(index.size) == 0 then 1 else old(index.size)
      ensures BlocksKept(old(Image()), Image(), old(regions))
      ensures SameOutside(old(Image()), Image(), startAddress, endAddress) && Slack() == old(Slack())
    {
      var oldEnd := endAddress;
      var g := MoveEnd(ns);
      PlaceGrowth(oldEnd, g);
      regions := Grown(regions, oldEnd, g);
    }

    /** Growth for a request that no hole can serve: it brings the request closer. */
    method GrowFor(ns: nat, align: bool)
      requires Valid() && index.size < index.slots.Length
      requires OVERHEAD <= ns && GrowsSafely(regions, endAddress, maxAddress, ns, align, RoundUp(ns))
      requires !SomeFits(regions, ns, align)
      modifies this`endAddress, this`kernelNextBlock, this`regions, ram.bytes, index`size, index.slots
      ensures Valid() && index.size < index.slots.Length
      ensures Servable(Image(), index.Contents(), regions, endAddress, maxAddress, ns, align, RoundUp(ns))
      ensures GrowthsNeeded(regions, endAddress, ns, align, RoundUp(ns))
            < GrowthsNeeded(old(regions), old(endAddress), ns, align, RoundUp(ns))
      ensures Continues(old(Image()), old(index.Contents()), old(regions), startAddress, old(endAddress),
                        Image(), index.Contents(), regions, endAddress, ns, align)
      ensures Slack() == old(Slack())
    {
      RoundUpWhole(ns);
      GrowthProgress(regions, endAddress, maxAddress, ns, align, RoundUp(ns));
      ghost var m, xs, rs, hi, slack := Image(), index.Contents(), regions, endAddress, Slack();
      Grow(ns);
      assert Slack() == slack;
      GrowthContinues(m, xs, rs, startAddress, hi, Image(), index.Contents(), regions, endAddress, maxAddress, ns, align);
      if SomeFits(regions, ns, align) {
        GrownChosen(Image(), index.Contents(), rs, startAddress, hi, ns, align, RoundUp(ns));
      }
    }

    /** Writes the tags of the pieces hole r is cut into around block b. */
    method StorePieces(r: Region, b: Region)
      requires r.pos <= b.pos && b.End() <= r.End()
      requires Tiles(Pieces(r, b), r.pos, r.End())
      requires r.End() <= ram.bytes.Length && r.End() < U64
      modifies ram.bytes
      ensures SameOutside(old(Image()), Image(), r.pos, r.End())
      ensures PiecesTagged(Image(), r, b)
    {
      PiecesRoom(r, b);
      ghost var front := Region(r.pos, b.pos - r.pos, true);
      if r.pos < b.pos {
        StoreRegion(Region(r.pos, b.pos - r.pos, true));
      }
      ghost var m := Image();
      StoreRegion(b);
      if r.pos < b.pos { TaggedFrame(m, Image(), front, true, b.pos, b.End()); }
      m := Image();
      if b.End() < r.End() {
        StoreRegion(Region(b.End(), r.End() - b.End(), true));
        TaggedFrame(m, Image(), b, true, b.End(), r.End());
        if r.pos < b.pos { TaggedFrame(m, Image(), front, true, b.End(), r.End()); }
      }
    }

    /** Where in the hole the block goes and how large it becomes. */
    method PlaceBlock(pos: nat, holeSize: nat, ns: nat, align: bool) returns (b: Region)
      requires OVERHEAD <= ns && pos + holeSize + PAGE < U64
      requires FitsAt(pos, holeSize, ns, align) && SafeSplit(Region(pos, holeSize, true), ns, align)
      ensures b == Carved(Region(pos, holeSize, true), ns, align)
      ensures !b.hole && pos <= b.pos && b.End() <= pos + holeSize
      ensures !align ==> b.pos == pos
      ensures Pieces(Region(pos, holeSize, true), b) == Split(Region(pos, holeSize, true), ns, align)
      ensures Tiles(Pieces(Region(pos, holeSize, true), b), pos, pos + holeSize)
    {
      var blockSize := ns;
      if holeSize - ns < OVERHEAD {
        blockSize := holeSize;
      }
      var blockPos := pos;
      if align && Misaligned(pos) {
        blockPos := pos + PAGE - pos % PAGE - HEADER_SIZE;
      }
      b := Region(blockPos, blockSize, false);
      CarvedBlock(Region(pos, holeSize, true), ns, align);
      SplitTilesIff(Region(pos, holeSize, true), ns, align);
    }

    /** A header enters the index, in order, if it is to be added. */
    method Remember(header: nat, add: bool)
      requires index.Valid() && index.size < index.slots.Length && Distinct(index.Contents())
      requires ram.bytes as object != index.slots as object
      requires add ==> header !in index.Contents()
      modifies index`size, index.slots
      ensures index.Valid() && Distinct(index.Contents()) && Image() == old(Image())
      ensures Entries() == old(Entries()) + (if add then {header} else {})
      ensures old(Sorted()) ==> Sorted()
    {
      if add {
        if Sorted() {
          InsertedKeepsOrder(index.Contents(), header, SizeKey(Image()));
        }
        AddEntry(header);
      }
    }

    /** The index after the cut: the hole's entry goes unless a front hole keeps
        its header, and the rest, if any, is inserted. */
    method IndexPieces(it: nat, end: nat, b: Region)
      requires index.Valid() && it < index.size < index.slots.Length
      requires ram.bytes as object != index.slots as object
      requires Distinct(index.Contents())
      requires b.End() < end ==> b.End() !in index.Contents()
      requires index.Contents()[it] <= b.pos
      modifies index`size, index.slots
      ensures Image() == old(Image())
      ensures index.Valid() && Distinct(index.Contents())
      ensures var p := old(index.Contents())[it];
        Entries() == (if p < b.pos then old(Entries()) else old(Entries()) - {p})
                   + (if b.End() < end then {b.End()} else {})
      ensures var p, xs := old(index.Contents())[it], old(index.Contents());
        p == b.pos && SortedBy(Removed(xs, it), SizeKey(Image())) ==> Sorted()
    {
      ghost var xs := index.Contents();
      var p := index.Lookup(it);
      if p == b.pos {
        RemovedMembers(xs, it);
        index.Remove(it);
      }
      Remember(b.End(), b.End() < end);
    }

    /** Reads the hole that entry it names and places the block in it. */
    method ChooseBlock(it: nat, ns: nat, align: bool) returns (r: Region, b: Region, ghost k: nat)
      requires Valid() && it < index.size
      requires OVERHEAD <= ns && FirstFitting(Image(), index.Contents(), it, ns, align)
      requires ChosenSafe(Image(), index.Contents(), ns, align)
      ensures k < |regions| && r == regions[k] && Fits(r, ns, align) && SafeSplit(r, ns, align)
      ensures index.Contents()[it] == r.pos && r.End() <= endAddress
      ensures r.size == SizeField(Image(), index.Contents()[it])
      ensures b == Carved(r, ns, align) && !b.hole && r.pos <= b.pos && b.End() <= r.End()
      ensures !align ==> b.pos == r.pos
      ensures Pieces(r, b) == Split(r, ns, align)
      ensures Tiles(Pieces(r, b), r.pos, r.End())
    {
      var pos := index.Lookup(it);
      assert index.Contents()[it] in index.Contents();
      k := EntryRegion(Image(), Entries(), regions, startAddress, endAddress, pos);
      var holeSize := ram.Fetch(pos + 8, 8);
      r := Region(pos, holeSize, true);
      assert regions[k] == r;
      assert FitsIn(regions, k, ns, align);
      b := PlaceBlock(pos, holeSize, ns, align);
    }

    /** The second half of alloc: cuts block b out of hole k, which entry it of
        the index names. */
    method Cut(it: nat, r: Region, b: Region, ghost k: nat)
      requires Valid() && it < index.size < index.slots.Length
      requires k < |regions| && r == regions[k] && index.Contents()[it] == r.pos && r.hole
      requires !b.hole && r.pos <= b.pos && b.End() <= r.End() <= endAddress
      requires Tiles(Pieces(r, b), r.pos, r.End())
      modifies ram.bytes, index`size, index.slots
      ensures index.Valid() && Distinct(index.Contents())
      ensures Sound(Image(), Entries(), Splice(regions, k, k + 1, Pieces(r, b)), startAddress, endAddress)
      ensures SameOutside(old(Image()), Image(), r.pos, r.End())
      ensures r.pos == b.pos && old(Sorted()) ==> Sorted()
    {
      ghost var m, xs, rs, lo, hi := Image(), index.Contents(), regions, startAddress, endAddress;
      StorePieces(r, b);
      ghost var n := Image();
      CutIndex(m, n, xs, it, rs, lo, hi, k, b);
      IndexPieces(it, r.End(), b);
      CarvedSound(m, n, Members(xs), Entries(), rs, lo, hi, k, b);
    }

    /** alloc once the search has found entry it. */
    method AllocFrom(it: nat, ns: nat, align: bool) returns (p: nat, ghost k: nat)
      requires Valid() && it < index.size < index.slots.Length
      requires OVERHEAD <= ns && FirstFitting(Image(), index.Contents(), it, ns, align)
      requires ChosenSafe(Image(), index.Contents(), ns, align)
      modifies `regions, ram.bytes, index`size, index.slots
      ensures Valid()
      ensures Allocated(old(regions), regions, ns, align, k, p)
      ensures old(regions)[k].pos == old(index.Contents())[it]
      ensures old(regions)[k].size == SizeField(old(Image()), old(index.Contents())[it])
      ensures align ==> p % PAGE == 0
      ensures BlocksKept(old(Image()), Image(), old(regions))
      ensures SameOutside(old(Image()), Image(), startAddress, endAddress)
      ensures !align && old(Sorted()) ==> Sorted()
    {
      var r, b;
      r, b, k := ChooseBlock(it, ns, align);
      Cut(it, r, b, k);
      CutKept(old(Image()), Image(), regions, startAddress, endAddress, k);
      regions := Splice(regions, k, k + 1, Split(r, ns, align));
      p := b.pos + HEADER_SIZE;
      if align { AllocatedAligned(old(regions), regions, ns, k, p); }
    }

    /** alloc: finds a hole, growing the heap if it must, and cuts the block out of it; see
        Serves. */
    method Alloc(size: nat, align: bool) returns (p: nat, ghost k: nat, ghost grown: seq<Region>)
      requires Valid() && index.size < index.slots.Length
      requires Servable(Image(), index.Contents(), regions, endAddress, maxAddress, size + OVERHEAD, align, RoundUp(size + OVERHEAD))
      modifies `endAddress, `kernelNextBlock, `regions, ram.bytes, index`size, index.slots
      ensures Valid() && Slack() == old(Slack())
      ensures Serves(old(Image()), old(index.Contents()), old(regions), startAddress, old(endAddress),
                     Image(), regions, endAddress, size + OVERHEAD, align, k, p, grown)
      ensures SomeFits(old(regions), size + OVERHEAD, align) && old(Sorted())
          ==> Smallest(grown, grown[k].size, size + OVERHEAD, align) && (!align ==> Sorted())
      decreases GrowthsNeeded(regions, endAddress, size + OVERHEAD, align, RoundUp(size + OVERHEAD))
    {
      var ns := size + OVERHEAD;
      ghost var slack := Slack();
      var it := FindSmallestHole(ns, align);
      if it == -1 {
        GrowFor(ns, align);
        p, k, grown := Alloc(size, align);
        assert Slack() == slack;
      } else {
        grown := regions;
        p, k := AllocFrom(it, ns, align);
        assert Slack() == slack;
        AllocatedStays(grown, regions, ns, align, k, p);
      }
    }

    /** Unify left: if the tag just below header h is the footer of a hole, that
        hole absorbs the freed region. */
    method MergeLeft(h: nat, footer: nat, ghost left: Option<Region>) returns (header: nat, add: bool)
      requires FOOTER_SIZE <= h && h + HEADER_SIZE <= footer && footer + FOOTER_SIZE < U64
      requires HeaderAt(Image(), h, footer + FOOTER_SIZE - h, true) && FooterAt(Image(), footer, h)
      requires LeftTags(Image(), h, left)
      modifies ram.bytes
      ensures LeftMerged(old(Image()), Image(), h, footer, left, header, add)
    {
      header := h;
      add := true;
      var magic := ram.Fetch(h - FOOTER_SIZE, 4);
      if magic == HEAP_MAGIC {
        assert left.Some?;
        var l := ram.Fetch(h - FOOTER_SIZE + 8, 8);
        assert l == left.value.pos;
        var isHole := ram.FetchByte(l + 4);
        if isHole == 1 {
          var size := ram.Fetch(h + 8, 8);
          header := l;
          add := false;
          AbsorbFreed(l, h, footer, size, left.value.size);
        }
      }
    }

    method AbsorbFreed(l: nat, h: nat, footer: nat, size: nat, ghost leftSize: nat)
      requires l + HEADER_SIZE <= h && h + HEADER_SIZE <= footer && footer + FOOTER_SIZE == h + size < U64
      requires HeaderAt(Image(), l, leftSize, true) && l + leftSize == h
      requires FooterAt(Image(), footer, h)
      modifies ram.bytes
      ensures SameOutside(old(Image()), Image(), l, footer + FOOTER_SIZE)
      ensures HeaderAt(Image(), l, footer + FOOTER_SIZE - l, true)
      ensures FooterAt(Image(), footer, l)
      ensures SameBetween(old(Image()), Image(), l + HEADER_SIZE, footer)
    {
      ghost var m := Image();
      ram.Redirect(footer, h, l);
      TagFrame(m, Image(), l, footer, footer + FOOTER_SIZE);
      m := Image();
      var holeSize := ram.Fetch(l + 8, 8);
      ram.Resize(l, leftSize, true, holeSize + size);
      TagFrame(m, Image(), footer, l, l + HEADER_SIZE);
    }

    /** The search for a header in the index. */
    method FindEntry(x: nat) returns (i: nat)
      requires index.Valid()
      ensures i <= index.size
      ensures i < index.size ==> index.Contents()[i] == x
      ensures i == index.size ==> x !in index.Contents()
    {
      i := 0;
      ghost var xs := index.Contents();
      while i < index.size
        invariant i <= index.size
        invariant forall j :: 0 <= j < i ==> xs[j] != x
      {
        var entry := index.Lookup(i);
        if entry == x {
          break;
        }
        i := i + 1;
      }
    }

    method DropEntry(x: nat) returns (ghost at: nat)
      requires index.Valid() && index.size < index.slots.Length < COUNTS - 1 && Distinct(index.Contents())
      modifies index`size, index.slots
      ensures x in old(index.Contents()) ==>
        && index.Valid() && Distinct(index.Contents()) && index.size < old(index.size)
        && at < |old(index.Contents())| && old(index.Contents())[at] == x
        && index.Contents() == Removed(old(index.Contents()), at)
      ensures x !in old(index.Contents()) && old(index.size) > 0 ==>
        && index.Valid() && Distinct(index.Contents()) && index.size < old(index.size)
        && index.Contents() == old(index.Contents())[..old(index.size) - 1]
      ensures x !in old(index.Contents()) && old(index.size) == 0 ==> !index.Valid()
    {
      var i := FindEntry(x);
      at := i;
      if i < index.size { RemovedMembers(index.Contents(), i); }
      index.Remove(i);
    }

    /** Unify right: if what lies just above reads as the header of a hole, the freed
        region absorbs it. The code leaves the absorbed hole's footer as it was;
        with repaired set, it is rewritten as the comment there says, for a neighbour
        in the heap. */
    method MergeRight(header: nat, footer: nat, repaired: bool, ghost right: Option<Region>)
        returns (merged: bool, last: nat)
      requires header + HEADER_SIZE <= footer && footer + FOOTER_SIZE < U64
      requires HeaderAt(Image(), header, footer + FOOTER_SIZE - header, true) && FooterAt(Image(), footer, header)
      requires RightTags(Image(), footer + FOOTER_SIZE, right)
      requires right.Some? ==> right.value.End() <= ram.bytes.Length && right.value.End() < U64
      requires right.Some? <==> footer + FOOTER_SIZE < endAddress
      modifies ram.bytes
      ensures RightMerged(old(Image()), Image(), header, footer, right, merged, last, repaired)
    {
      last := footer;
      var test := footer + FOOTER_SIZE;
      var magic := ram.Fetch(test, 4);
      var isHole := ram.FetchByte(test + 4);
      merged := magic == HEAP_MAGIC && isHole != 0;
      LoadBound(Image(), test + 8);
      if merged {
        last := AbsorbRight(header, test, repaired, right);
      }
    }

    /** The hole at header takes in the one whose header is read at test. */
    method AbsorbRight(header: nat, test: nat, repaired: bool, ghost right: Option<Region>) returns (last: nat)
      requires header + HEADER_SIZE + FOOTER_SIZE <= test < U64
      requires HeaderAt(Image(), header, test - header, true) && RightTags(Image(), test, right)
      requires right.Some? ==> right.value.End() <= ram.bytes.Length && right.value.End() < U64
      requires right.Some? <==> test < endAddress
      requires SizeField(Image(), test) < U64
      modifies ram.bytes
      ensures RightAbsorbed(old(Image()), Image(), header, test, right, last, repaired)
    {
      ghost var m := Image();
      var testSize := ram.Fetch(test + 8, 8);
      last := Sub64(Add64(test, testSize), FOOTER_SIZE);
      AbsorbedLast(m, test, right);
      Extend(header, test - header, testSize, last);
      ghost var n := Image();
      if repaired && test < endAddress {
        ram.StoreFooter(last, header);
      }
      AbsorbedFrom(m, n, Image(), header, test, right, last, repaired);
    }

    /** Adds to the size in a header. */
    method Extend(header: nat, ghost size: nat, more: nat, ghost q: nat)
      requires HeaderAt(Image(), header, size, true) && size < U64 && more < U64
      modifies ram.bytes
      ensures HeaderAt(Image(), header, Add64(size, more), true)
      ensures SameOutside(old(Image()), Image(), header, header + HEADER_SIZE)
      ensures header + HEADER_SIZE <= q ==> forall h :: FooterAt(Image(), q, h) == FooterAt(old(Image()), q, h)
    {
      var s := ram.Fetch(header + 8, 8);
      ram.Resize(header, size, true, Add64(s, more));
      if header + HEADER_SIZE <= q { TagFrame(old(Image()), Image(), q, header, header + HEADER_SIZE); }
    }

    /** Marks the block at h as a hole and finds its footer. */
    method MarkFreed(h: nat, ghost r: Region, ghost left: Option<Region>) returns (footer: nat)
      requires r.pos == h && FOOTER_SIZE <= h && OVERHEAD <= r.size && r.End() < U64
      requires HeaderAt(Image(), h, r.size, false) && FooterAt(Image(), r.End() - FOOTER_SIZE, h)
      requires LeftTags(Image(), h, left)
      modifies ram.bytes
      ensures footer == r.End() - FOOTER_SIZE
      ensures HeaderAt(Image(), h, r.size, true) && FooterAt(Image(), footer, h) && LeftTags(Image(), h, left)
      ensures SameOutside(old(Image()), Image(), h, h + HEADER_SIZE)
    {
      ghost var m := Image();
      var size := ram.Fetch(h + 8, 8);
      footer := h + size - FOOTER_SIZE;
      ram.MarkHole(h, size);
      TagFrame(m, Image(), footer, h, h + HEADER_SIZE);
      LeftTagsFrame(m, Image(), h, h + HEADER_SIZE, left);
    }

    /** Marks the block at h as a hole and unifies it with the neighbour to its left. */
    method UnifyLeft(h: nat, ghost repaired: bool, ghost r: Region, ghost left: Option<Region>, ghost right: Option<Region>)
        returns (header: nat, add: bool, footer: nat)
      requires r.pos == h && FreeReads(Image(), r, left, right, endAddress)
      modifies ram.bytes
      ensures footer == r.End() - FOOTER_SIZE && header + HEADER_SIZE <= footer
      ensures HeaderAt(Image(), header, r.End() - header, true) && FooterAt(Image(), footer, header)
      ensures RightTags(Image(), r.End(), right)
      ensures JoinsRight(old(Image()), Image(), r, footer, left, right, header, add, repaired)
    {
      ghost var m := Image();
      footer := MarkFreed(h, r, left);
      ghost var n := Image();
      header, add := MergeLeft(h, footer, left);
      LeftJoins(m, n, Image(), r, footer, left, right, header, add, repaired);
    }

    /** The memory half of free: the block and its neighbours become one hole. Where the
        page behind the block has not been handed out, the read of its header faults, and
        the handler of page faults never returns. */
    method Unify(h: nat, repaired: bool, ghost r: Region, ghost left: Option<Region>, ghost right: Option<Region>)
        returns (halted: bool, header: nat, add: bool, merged: bool, test: nat, last: nat)
      requires r.pos == h && FreeReads(Image(), r, left, right, endAddress)
      modifies ram.bytes
      ensures halted == (r.End() >= kernelNextBlock * PAGE) && test == r.End()
      ensures !halted ==> Joined(old(Image()), Image(), r, left, right, header, add, merged, last, repaired)
    {
      var footer;
      header, add, footer := UnifyLeft(h, repaired, r, left, right);
      test := footer + FOOTER_SIZE;
      merged, last := false, footer;
      halted := test >= kernelNextBlock * PAGE;
      if halted {
        return;
      }
      merged, last := MergeRight(header, footer, repaired, right);
    }

    /** The contraction: if the hole at header ends the heap, the heap's end moves
        down; what is left of the hole gets its tags, and if nothing is left the
        code looks for the address test in the index. */
    method Settle(header: nat, last: nat, test: nat, ghost size: nat)
      requires Bounded() && index.Valid() && index.size < index.slots.Length
      requires ram.bytes as object != index.slots as object
      requires startAddress <= header && OVERHEAD <= size && last < U64
      requires Add64(last, FOOTER_SIZE) == endAddress
        ==> header + size == endAddress && HeaderAt(Image(), header, size, true)
      modifies ram.bytes, `endAddress, index`size, index.slots
      ensures Bounded() && index.Valid() && endAddress <= old(endAddress)
      ensures test !in old(index.Contents()) || Add64(last, FOOTER_SIZE) != old(endAddress)
        ==> index.Contents() == old(index.Contents())
      ensures Add64(last, FOOTER_SIZE) != old(endAddress) ==> endAddress == old(endAddress) && Image() == old(Image())
      ensures Add64(last, FOOTER_SIZE) == old(endAddress)
        ==> Settled(old(Image()), Image(), header, startAddress, old(endAddress), endAddress)
    {
      if Add64(last, FOOTER_SIZE) == endAddress {
        var oldLength := endAddress - startAddress;
        var newLength := Contract(header - startAddress);
        Shrink(header, test, size, oldLength - newLength);
      }
    }

    method Shrink(header: nat, test: nat, ghost size: nat, cut: nat)
      requires index.Valid() && index.size < index.slots.Length
      requires ram.bytes as object != index.slots as object
      requires FOOTER_SIZE <= header && OVERHEAD <= size && header + size <= ram.bytes.Length
      requires header + size < U64 && cut <= size
      requires HeaderAt(Image(), header, size, true)
      modifies ram.bytes, index`size, index.slots
      ensures index.Valid()
      ensures test !in old(index.Contents()) ==> index.Contents() == old(index.Contents())
      ensures cut == size ==> Image() == old(Image())
      ensures SameOutside(old(Image()), Image(), header - FOOTER_SIZE, header + size)
      ensures cut + OVERHEAD <= size ==>
        && SameOutside(old(Image()), Image(), header, header + (size - cut))
        && HeaderAt(Image(), header, size - cut, true)
        && FooterAt(Image(), header + (size - cut) - FOOTER_SIZE, header)
    {
      var holeSize := ram.Fetch(header + 8, 8);
      if holeSize - cut > 0 {
        Trim(header, size, holeSize - cut);
      } else {
        var i := FindEntry(test);
        if i < index.size {
          index.Remove(i);
        }
      }
    }

    /** Resizes the hole at header to what is left of it. */
    method Trim(header: nat, ghost size: nat, left: nat)
      requires FOOTER_SIZE <= header && 0 < left <= size && OVERHEAD <= size && header + size <= ram.bytes.Length
      requires header + size < U64
      requires HeaderAt(Image(), header, size, true)
      modifies ram.bytes
      ensures SameOutside(old(Image()), Image(), header - FOOTER_SIZE, header + size)
      ensures OVERHEAD <= left ==>
        && SameOutside(old(Image()), Image(), header, header + left)
        && HeaderAt(Image(), header, left, true)
        && FooterAt(Image(), header + left - FOOTER_SIZE, header)
    {
      ram.Resize(header, size, true, left);
      ghost var m := Image();
      ram.StoreFooter(header + left - FOOTER_SIZE, header);
      if left >= OVERHEAD {
        TagFrame(m, Image(), header, header + left - FOOTER_SIZE, header + left);
      }
    }

    /** The absorbed right neighbour leaves the index; a stray one is not in it, and
        the last entry leaves instead. */
    method Forget(test: nat, merged: bool)
      requires index.Valid() && index.size < index.slots.Length < COUNTS - 1 && Distinct(index.Contents())
      requires test in index.Contents() ==> merged
      modifies index`size, index.slots
      ensures index.Valid() ==> index.size < index.slots.Length && Distinct(index.Contents())
      ensures merged == (test in old(index.Contents())) ==>
        index.Valid() && index.Contents() == SeqWithout(old(index.Contents()), test)
      ensures merged && test !in old(index.Contents()) ==>
        if old(index.size) == 0 then !index.Valid()
        else index.Valid() && index.Contents() == old(index.Contents())[..old(index.size) - 1]
    {
      ghost var xs := index.Contents();
      if merged {
        ghost var at := DropEntry(test);
        if test in xs { WithoutRemoved(xs, at); }
      } else {
        WithoutAbsent(xs, test);
      }
    }

    /** free of block k up to the entry of the freed header: the absorbed entry is gone, or,
        where a stray header has made the count of an empty index wrap around, the index is. */
    ghost predicate Finished(m: seq<byte>, xs: seq<nat>, k: nat, hi: nat, repaired: bool)
      requires k < |regions|
      reads this, ram.bytes, index`size, index.slots
    {
      || (&& index.Valid() && index.size < index.slots.Length && Distinct(index.Contents())
          && Forgotten(m, xs, index.Contents(), regions, k, hi)
          && AfterMerge(m, Image(), regions, k, startAddress, hi, endAddress, repaired))
      || (&& !index.Valid() && xs == [] && Stray(m, regions, k, hi)
          && SameOutside(m, Image(), Merged(regions, k).pos, Merged(regions, k).End()))
    }

    /** free for live block k, but for the entry of its header into the index. If the
        count of the index wraps around, what the code does from there on is not
        modelled. */
    method Release(h: nat, repaired: bool, ghost k: nat) returns (halted: bool, header: nat, add: bool)
      requires Valid() && index.size < index.slots.Length
      requires k < |regions| && !regions[k].hole && h == regions[k].pos
      modifies `endAddress, ram.bytes, index`size, index.slots
      ensures Bounded() && halted == !ProbeMapped(regions, k, old(Slack()))
      ensures endAddress <= old(endAddress)
      ensures halted ==> endAddress == old(endAddress) && index.Valid() && index.Contents() == old(index.Contents())
      ensures !halted ==> header == Merged(regions, k).pos && add == !MergesLeft(regions, k)
      ensures !halted ==> Finished(old(Image()), old(index.Contents()), k, old(endAddress), repaired)
    {
      ghost var m, rs, lo, hi := Image(), regions, startAddress, endAddress;
      FreedNeighbours(m, Entries(), rs, lo, hi, k);
      ProbeMappedIff(rs, lo, hi, k, kernelNextBlock);
      var merged, test, last;
      halted, header, add, merged, test, last := Unify(h, repaired, rs[k], LeftOf(rs, k), RightOf(rs, k));
      if halted {
        return;
      }
      Finish(header, add, merged, test, last, m, k, repaired);
    }

    /** The absorbed entry goes, or the last one, or the count wraps around. */
    method ForgetMerged(test: nat, merged: bool, ghost m: seq<byte>, ghost k: nat)
      requires index.Valid() && index.size < index.slots.Length < COUNTS - 1 && Distinct(index.Contents())
      requires k < |regions| && test == regions[k].End()
      requires if Stray(m, regions, k, endAddress) then merged && test !in index.Contents() else merged == (test in index.Contents())
      modifies index`size, index.slots
      ensures
        || (&& index.Valid() && index.size < index.slots.Length && Distinct(index.Contents())
            && test !in index.Contents() && Forgotten(m, old(index.Contents()), index.Contents(), regions, k, endAddress))
        || (!index.Valid() && old(index.Contents()) == [] && Stray(m, regions, k, endAddress))
    {
      ghost var xs := index.Contents();
      Forget(test, merged);
      if index.Valid() { NotWithout(xs, index.Contents(), test); }
    }

    /** What free does once it has merged: the absorbed entry goes, and the heap may be cut. */
    method Finish(header: nat, ghost add: bool, merged: bool, test: nat, last: nat, ghost m: seq<byte>, ghost k: nat,
                  ghost repaired: bool)
      requires Bounded() && index.Valid() && index.size < index.slots.Length && Distinct(index.Contents())
      requires ram.bytes as object != index.slots as object
      requires Sound(m, Entries(), regions, startAddress, endAddress) && endAddress + HEADER_SIZE <= |m|
      requires k < |regions| && !regions[k].hole && test == regions[k].End()
      requires Joined(m, Image(), regions[k], LeftOf(regions, k), RightOf(regions, k), header, add, merged, last, repaired)
      modifies `endAddress, ram.bytes, index`size, index.slots
      ensures Bounded() && header == Merged(regions, k).pos && add == !MergesLeft(regions, k)
      ensures endAddress <= old(endAddress)
      ensures Finished(m, old(index.Contents()), k, old(endAddress), repaired)
    {
      ghost var n, rs, lo, hi := Image(), regions, startAddress, endAddress;
      FreedMembers(rs, lo, hi, k);
      NoEntryAtEnd(m, Entries(), rs, lo, hi);
      MergeDone(m, n, Entries(), rs, lo, hi, k, repaired, header, add, merged, last);
      ForgetMerged(test, merged, m, k);
      if index.size > index.slots.Length {
        return;
      }
      Settle(header, last, test, Merged(rs, k).size);
      assert AfterMerge(m, Image(), rs, k, lo, hi, endAddress, repaired);
    }

    /** free for live block k, whatever lies at the heap's end. It halts there exactly if
        the block is the last and no page behind the heap has been handed out. Without
        a stray header the heap it leaves is sound exactly when FreeIsSound says so,
        with one exactly when the index entry that is lost is the one that should go;
        if it is not sound, no regions whatever make it so. */
    method FreeBlock(h: nat, repaired: bool, ghost k: nat) returns (halted: bool)
      requires Valid() && index.size < index.slots.Length
      requires k < |regions| && !regions[k].hole && h == regions[k].pos
      modifies `endAddress, `regions, ram.bytes, index`size, index.slots
      ensures Bounded() && halted == !ProbeMapped(old(regions), k, old(Slack()))
      ensures halted ==>
        regions == old(regions) && endAddress == old(endAddress) && index.Valid() && index.Contents() == old(index.Contents())
      ensures !halted ==> Freeing(old(Image()), old(index.Contents()), old(regions), k, old(endAddress), repaired)
    {
      ghost var m, xs, rs, lo, hi := Image(), index.Contents(), regions, startAddress, endAddress;
      WholePages(lo, hi);
      FreedMembers(rs, lo, hi, k);
      var header, add;
      halted, header, add := Release(h, repaired, k);
      if halted {
        return;
      }
      regions := Freed(rs, k, lo);
      if index.size > index.slots.Length {
        assert xs == [] && !FreeKeepsHeap(m, xs, rs, k, lo, hi, repaired);
        return;
      }
      EnterFreed(header, add, m, xs, rs, hi, k, repaired);
    }

    /** The heap after free of block k, given memory, index and regions before. */
    ghost predicate Freeing(m: seq<byte>, xs: seq<nat>, rs: seq<Region>, k: nat, hi: nat, repaired: bool)
      reads this, ram.bytes, index`size, index.slots
    {
      && k < |rs| && regions == Freed(rs, k, startAddress) && endAddress <= hi
      && (Valid() <==> FreeKeepsHeap(m, xs, rs, k, startAddress, hi, repaired))
      && (index.Valid() ==>
            (SomeHeap(Image(), Entries(), startAddress, endAddress) <==> FreeKeepsHeap(m, xs, rs, k, startAddress, hi, repaired)))
      && (!Stray(m, rs, k, hi) ==>
            && index.Valid() && Distinct(index.Contents())
            && endAddress == EndAfterFree(rs, k, startAddress, hi)
            && Entries() == FreedIndex(Members(xs), rs, k)
            && (Intact(rs, k, startAddress) && !MergesLeft(rs, k) && SortedBy(xs, SizeKey(m)) ==> Sorted()))
      && (Contained(m, xs, rs, k, startAddress, hi, repaired) ==>
            SameOutside(m, Image(), Merged(rs, k).pos, Merged(rs, k).End()))
      && FreeLeaves(m, Image(), rs, k, startAddress, hi)
    }

    /** The entry of the freed header into the index ends free. */
    method EnterFreed(header: nat, add: bool, ghost m: seq<byte>, ghost xs: seq<nat>,
                      ghost rs: seq<Region>, ghost hi: nat, ghost k: nat, ghost repaired: bool)
      requires Bounded() && index.Valid() && index.size < index.slots.Length && Distinct(index.Contents())
      requires ram.bytes as object != index.slots as object
      requires Sound(m, Members(xs), rs, startAddress, hi) && Distinct(xs) && k < |rs| && !rs[k].hole
      requires hi - startAddress < 0x1_0000_0000 && (hi - startAddress) % PAGE == 0 && hi - startAddress >= HEAP_MIN_SIZE
      requires header == Merged(rs, k).pos && add == !MergesLeft(rs, k) && regions == Freed(rs, k, startAddress)
      requires endAddress <= hi
      requires AfterMerge(m, Image(), rs, k, startAddress, hi, endAddress, repaired)
      requires Forgotten(m, xs, index.Contents(), rs, k, hi)
      modifies index`size, index.slots
      ensures Image() == old(Image()) && Bounded()
      ensures Freeing(m, xs, rs, k, hi, repaired)
    {
      FreeOutcome(m, Image(), xs, index.Contents(), rs, startAddress, hi, k, endAddress, repaired);
      Remember(header, add);
    }

    /** free: nothing for a null pointer; otherwise the block at p becomes a hole, unless
        the read behind it halts the machine. The other live blocks keep their places
        and all their bytes. */
    method Free(p: nat, repaired: bool, ghost k: nat) returns (halted: bool)
      requires Valid() && index.size < index.slots.Length
      requires p != 0 ==> Live(p, k)
      modifies `endAddress, `regions, ram.bytes, index`size, index.slots
      ensures halted <==> p != 0 && !ProbeMapped(old(regions), k, old(Slack()))
      ensures p == 0 ==> Valid() && Image() == old(Image())
      ensures p == 0 || halted ==>
        && index.Valid() && index.Contents() == old(index.Contents())
        && regions == old(regions) && endAddress == old(endAddress)
      ensures p != 0 && !halted ==>
        && Freeing(old(Image()), old(index.Contents()), old(regions), k, old(endAddress), repaired)
        && (Contained(old(Image()), old(index.Contents()), old(regions), k, startAddress, old(endAddress), repaired) ==>
              OthersSurvive(old(Image()), Image(), old(regions), k, regions))
    {
      halted := false;
      if p == 0 {
        return;
      }
      ghost var rs := regions;
      halted := FreeBlock(p - HEADER_SIZE, repaired, k);
      if !halted && Contained(old(Image()), old(index.Contents()), rs, k, startAddress, old(endAddress), repaired) {
        OthersOutlive(old(Image()), Image(), rs, startAddress, old(endAddress), k);
      }
    }

    /** The owner of live block k writes one byte of its payload: whatever it
        writes there, the heap stays as it is. */
    method WritePayload(p: nat, offset: nat, v: byte, ghost k: nat)
      requires Valid() && Live(p, k)
      requires offset + OVERHEAD < regions[k].size
      modifies ram.bytes
      ensures Valid()
      ensures SameOutside(old(Image()), Image(), p + offset, p + offset + 1)
      ensures p + offset < |Image()| && Image()[p + offset] == v
    {
      RegionBounds(regions, startAddress, endAddress, k);
      ram.Store(p + offset, 1, v);
      SingleByte(Image(), p + offset);
      PayloadSound(old(Image()), Image(), Entries(), regions, startAddress, endAddress, k, p + offset);
    }
  }
}

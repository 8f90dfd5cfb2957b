/**
  Whole runs of the heap over memory: any sequence of allocations, frees and writes
  by the blocks' owners, each step doing what Heap's methods are proved to do.
 */
module HeapRuns {
  import opened Basics
  import opened Ram
  import opened Regions
  import opened HeapSteps
  import opened KernelHeap

  /** Memory, index and bounds of a heap, the regions they stand for, and how many bytes
      behind the heap have been handed out. */
  datatype State = State(m: seq<byte>, xs: seq<nat>, rs: seq<Region>, lo: nat, hi: nat, max: nat, slack: int)

  /** One call: alloc, which returned p for a block cut out of hole k; free of block k;
      or a byte written by the owner of block k. */
  datatype Step =
    | Take(size: nat, align: bool, k: nat, p: nat)
    | Release(k: nat, repaired: bool)
    | Write(k: nat, offset: nat, v: byte)

  ghost function StateOf(h: Heap): State
    requires h.index.Valid()
    reads h, h.ram.bytes, h.index`size, h.index.slots
  {
    State(h.Image(), h.index.Contents(), h.regions, h.startAddress, h.endAddress, h.maxAddress, h.Slack())
  }

  /** What holds of the heap between calls. */
  ghost predicate Ok(s: State) {
    && Sound(s.m, Members(s.xs), s.rs, s.lo, s.hi)
    && Distinct(s.xs)
    && s.lo + HEAP_MIN_SIZE <= s.hi <= s.max < 0x1_0000_0000
    && s.slack >= 0
  }

  /** What each call asks of the heap: a slot of the index left, a request that can be
      served, a block whose release does not halt the machine and leaves the heap
      sound, a byte inside the block. */
  ghost predicate Legal(s: State, step: Step) {
    match step
    case Take(size, align, _, _) =>
      && |s.xs| < INDEX_ENTRIES
      && Servable(s.m, s.xs, s.rs, s.hi, s.max, size + OVERHEAD, align, RoundUp(size + OVERHEAD))
    case Release(k, repaired) =>
      && |s.xs| < INDEX_ENTRIES && k < |s.rs| && !s.rs[k].hole
      && ProbeMapped(s.rs, k, s.slack)
      && FreeKeepsHeap(s.m, s.xs, s.rs, k, s.lo, s.hi, repaired)
    case Write(k, offset, _) =>
      k < |s.rs| && !s.rs[k].hole && offset + OVERHEAD < s.rs[k].size
  }

  /** The regions from which a request is cut. */
  ghost function Supply(s: State, size: nat, align: bool): seq<Region> {
    GrownToFit(s.rs, s.hi, size + OVERHEAD, align, RoundUp(size + OVERHEAD))
  }

  /** What the methods ensure of the heap after the call. */
  ghost predicate Becomes(s: State, step: Step, t: State) {
    && Ok(t) && t.lo == s.lo && t.max == s.max && |t.m| == |s.m|
    && match step
       case Take(size, align, k, p) =>
         && Allocated(Supply(s, size, align), t.rs, size + OVERHEAD, align, k, p)
         && BlocksKept(s.m, t.m, s.rs) && t.slack == s.slack
         && t.hi == EndToFit(s.rs, s.hi, size + OVERHEAD, align, RoundUp(size + OVERHEAD))
       case Release(k, _) =>
         && k < |s.rs| && t.rs == Freed(s.rs, k, s.lo) && t.slack >= s.slack
         && OthersSurvive(s.m, t.m, s.rs, k, t.rs)
       case Write(k, offset, v) =>
         && k < |s.rs| && t.rs == s.rs && t.slack == s.slack
         && var a := s.rs[k].pos + HEADER_SIZE + offset;
         && SameOutside(s.m, t.m, a, a + 1) && a < |t.m| && t.m[a] == v
  }

  // ----- the heap's methods are such steps ---------------------------------------------

  method Allocate(h: Heap, size: nat, align: bool) returns (p: nat, ghost step: Step)
    requires h.Valid() && Legal(StateOf(h), Take(size, align, 0, 0))
    modifies h`endAddress, h`kernelNextBlock, h`regions, h.ram.bytes, h.index`size, h.index.slots
    ensures h.Valid() && step.Take? && step.size == size && step.align == align && step.p == p
    ensures Becomes(old(StateOf(h)), step, StateOf(h))
  {
    ghost var s := StateOf(h);
    ghost var k, grown;
    p, k, grown := h.Alloc(size, align);
    step := Take(size, align, k, p);
    assert grown == Supply(s, size, align);
  }

  method Deallocate(h: Heap, p: nat, repaired: bool, ghost k: nat)
    requires h.Valid() && h.Live(p, k) && Legal(StateOf(h), Release(k, repaired))
    modifies h`endAddress, h`regions, h.ram.bytes, h.index`size, h.index.slots
    ensures h.Valid() && Becomes(old(StateOf(h)), Release(k, repaired), StateOf(h))
  {
    var halted := h.Free(p, repaired, k);
  }

  method WriteByte(h: Heap, p: nat, offset: nat, v: byte, ghost k: nat)
    requires h.Valid() && h.Live(p, k) && Legal(StateOf(h), Write(k, offset, v))
    modifies h.ram.bytes
    ensures h.Valid() && Becomes(old(StateOf(h)), Write(k, offset, v), StateOf(h))
  {
    h.WritePayload(p, offset, v, k);
  }

  // ----- what a step does to the live blocks ----------------------------------------------

  /** The allocated blocks. */
  ghost function Live(rs: seq<Region>): set<Region> {
    set r | r in rs && !r.hole
  }

  lemma SpliceLive(rs: seq<Region>, i: nat, j: nat, mid: seq<Region>)
    requires i <= j <= |rs|
    requires forall t :: i <= t < j ==> rs[t].hole
    ensures Live(Splice(rs, i, j, mid)) == Live(rs) + Live(mid)
  {
    SpliceStays(rs, i, j, mid);
    var out := Splice(rs, i, j, mid);
    assert forall r :: r in mid ==> r in out;
    assert forall r :: r in out ==> r in rs || r in mid;
  }

  lemma GrownLive(rs: seq<Region>, lo: nat, hi: nat, g: nat)
    requires Tiles(rs, lo, hi) && Growable(rs) && g >= OVERHEAD
    ensures Tiles(Grown(rs, hi, g), lo, hi + g)
    ensures Live(Grown(rs, hi, g)) == Live(rs)
  {
    GrownTilesIff(rs, lo, hi, g);
    var k := HighestHole(rs);
    if k < 0 {
      SpliceLive(rs, |rs|, |rs|, [Region(hi, g, true)]);
    } else {
      SpliceLive(rs, k, k + 1, [rs[k].(size := rs[k].size + g)]);
    }
  }

  /** Growth adds holes only. */
  lemma SupplyLive(rs: seq<Region>, lo: nat, hi: nat, max: nat, ns: nat, align: bool, g: nat,
                   grown: seq<Region>) returns (e: nat)
    requires Tiles(rs, lo, hi) && OVERHEAD <= ns
    requires SomeFits(rs, ns, align) || GrowsSafely(rs, hi, max, ns, align, g)
    requires grown == GrownToFit(rs, hi, ns, align, g)
    ensures Tiles(grown, lo, e)
    ensures Live(grown) == Live(rs)
  {
    e := hi;
    if !SomeFits(rs, ns, align) {
      GrownLive(rs, lo, hi, g);
      e := e + g;
      var once := Grown(rs, hi, g);
      if !SomeFits(once, ns, align) {
        GrownLive(once, lo, e, g);
        e := e + g;
      }
    }
  }

  lemma CutLive(rs: seq<Region>, lo: nat, hi: nat, k: nat, b: Region)
    requires Tiles(rs, lo, hi)
    requires k < |rs| && rs[k].hole && !b.hole && b.size > 0
    requires rs[k].pos <= b.pos && b.End() <= rs[k].End()
    ensures Live(Splice(rs, k, k + 1, Pieces(rs[k], b))) == Live(rs) + {b} && b !in Live(rs)
  {
    CutBlock(rs, lo, hi, k, b);
    SpliceLive(rs, k, k + 1, Pieces(rs[k], b));
    assert Live(Pieces(rs[k], b)) == {b};
  }

  lemma AllocatedLive(rs: seq<Region>, lo: nat, hi: nat, out: seq<Region>, ns: nat, align: bool, p: nat)
      returns (b: Region)
    requires Tiles(rs, lo, hi) && OVERHEAD <= ns
    requires exists k: nat :: Allocated(rs, out, ns, align, k, p)
    ensures Live(out) == Live(rs) + {b} && b !in Live(rs)
    ensures b.size >= ns && p == b.pos + HEADER_SIZE && (align ==> p % PAGE == 0)
  {
    var k: nat :| Allocated(rs, out, ns, align, k, p);
    b := Carved(rs[k], ns, align);
    CarvedBlock(rs[k], ns, align);
    CutLive(rs, lo, hi, k, b);
  }

  lemma TakeLive(rs: seq<Region>, lo: nat, hi: nat, max: nat, ns: nat, align: bool, g: nat,
                 grown: seq<Region>, out: seq<Region>, p: nat) returns (b: Region)
    requires Tiles(rs, lo, hi) && OVERHEAD <= ns
    requires SomeFits(rs, ns, align) || GrowsSafely(rs, hi, max, ns, align, g)
    requires grown == GrownToFit(rs, hi, ns, align, g)
    requires exists k: nat :: Allocated(grown, out, ns, align, k, p)
    ensures Live(out) == Live(rs) + {b} && b !in Live(rs)
    ensures b.size >= ns && p == b.pos + HEADER_SIZE && (align ==> p % PAGE == 0)
  {
    var e := SupplyLive(rs, lo, hi, max, ns, align, g, grown);
    b := AllocatedLive(grown, lo, e, out, ns, align, p);
  }

  lemma ServedOrGrown(s: State, size: nat, align: bool, k: nat, p: nat)
    requires Legal(s, Take(size, align, k, p))
    ensures var ns := size + OVERHEAD;
      SomeFits(s.rs, ns, align) || GrowsSafely(s.rs, s.hi, s.max, ns, align, RoundUp(ns))
  {
  }

  /** alloc adds exactly one block to the live ones, large enough and at the address it
      returns, and page-aligned if that was asked. */
  lemma TakeOk(s: State, size: nat, align: bool, k: nat, p: nat, t: State) returns (b: Region)
    requires Ok(s) && Legal(s, Take(size, align, k, p)) && Becomes(s, Take(size, align, k, p), t)
    ensures Live(t.rs) == Live(s.rs) + {b} && b !in Live(s.rs)
    ensures b.size >= size + OVERHEAD && p == b.pos + HEADER_SIZE && (align ==> p % PAGE == 0)
  {
    ServedOrGrown(s, size, align, k, p);
    b := TakeLive(s.rs, s.lo, s.hi, s.max, size + OVERHEAD, align, RoundUp(size + OVERHEAD),
                  Supply(s, size, align), t.rs, p);
  }

  /** free takes exactly block k from the live ones. */
  lemma ReleaseOk(s: State, k: nat, repaired: bool, t: State)
    requires Ok(s) && Legal(s, Release(k, repaired)) && Becomes(s, Release(k, repaired), t)
    ensures Live(t.rs) == Live(s.rs) - {s.rs[k]}
  {
    ReleaseLive(s.rs, s.lo, s.hi, k);
  }

  lemma ReleaseLive(rs: seq<Region>, lo: nat, hi: nat, k: nat)
    requires Tiles(rs, lo, hi)
    requires k < |rs| && !rs[k].hole
    ensures Live(Freed(rs, k, lo)) == Live(rs) - {rs[k]}
  {
    var out := Freed(rs, k, lo);
    forall r
      ensures r in Live(out) <==> r in Live(rs) - {rs[k]}
    {
      if r in Live(rs) && r != rs[k] { StaysLive(rs, k, lo, r); }
      if r in Live(out) { WasLive(rs, lo, hi, k, r); }
    }
  }

  lemma StaysLive(rs: seq<Region>, k: nat, lo: nat, r: Region)
    requires k < |rs| && !rs[k].hole
    requires r in Live(rs) && r != rs[k]
    ensures r in Freed(rs, k, lo)
  {
    var out := Freed(rs, k, lo);
    var t :| 0 <= t < |rs| && rs[t] == r;
    assert t < First(rs, k) ==> out[t] == r;
    assert Limit(rs, k) <= t ==> out[|out| - |rs| + t] == r;
  }

  lemma WasLive(rs: seq<Region>, lo: nat, hi: nat, k: nat, r: Region)
    requires Tiles(rs, lo, hi)
    requires k < |rs| && !rs[k].hole
    requires r in Live(Freed(rs, k, lo))
    ensures r in rs && r != rs[k]
  {
    var i, j := First(rs, k), Limit(rs, k);
    assert r in rs[..i] || r in rs[j..];
    if t :| 0 <= t < i && rs[t] == r { RegionsDisjoint(rs, lo, hi, t, k); }
    if t :| j <= t < |rs| && rs[t] == r { RegionsDisjoint(rs, lo, hi, t, k); }
  }

  // ----- runs ---------------------------------------------------------------------

  ghost predicate Happens(ss: seq<State>, steps: seq<Step>, i: nat)
    requires |ss| == |steps| + 1 && i < |steps|
  {
    Legal(ss[i], steps[i]) && Becomes(ss[i], steps[i], ss[i + 1])
  }

  /** The heap goes through the states ss, from one to the next by the given steps. */
  ghost predicate Run(ss: seq<State>, steps: seq<Step>) {
    |ss| == |steps| + 1 && Ok(ss[0]) && forall i :: 0 <= i < |steps| ==> Happens(ss, steps, i)
  }

  /** The step gives block b back. */
  ghost predicate GivesBack(s: State, step: Step, b: Region) {
    step.Release? && step.k < |s.rs| && s.rs[step.k] == b
  }

  /** No step of a run gives back block b. */
  ghost predicate Keeps(ss: seq<State>, steps: seq<Step>, b: Region)
    requires |ss| == |steps| + 1
  {
    forall i :: 0 <= i < |steps| ==> !GivesBack(ss[i], steps[i], b)
  }

  /** What the owner of block b last wrote at offset, or v if nothing. */
  ghost function LastWritten(ss: seq<State>, steps: seq<Step>, b: Region, offset: nat, v: byte): byte
    requires |ss| == |steps| + 1
    decreases |steps|
  {
    if steps == [] then v
    else
      var n := |steps| - 1;
      var before := LastWritten(ss[..n + 1], steps[..n], b, offset, v);
      match steps[n]
      case Write(k, o, w) => if k < |ss[n].rs| && ss[n].rs[k] == b && o == offset then w else before
      case _ => before
  }

  lemma PayloadInMemory(s: State, b: Region, offset: nat)
    requires Ok(s) && b in Live(s.rs) && offset + OVERHEAD < b.size
    ensures b.pos + HEADER_SIZE + offset < |s.m|
  {
    var i :| 0 <= i < |s.rs| && s.rs[i] == b;
    assert TaggedAt(s.m, s.rs, i);
  }

  /** The byte at offset of block b's payload. */
  ghost function Payload(s: State, b: Region, offset: nat): byte
    requires Ok(s) && b in Live(s.rs) && offset + OVERHEAD < b.size
  {
    PayloadInMemory(s, b, offset);
    s.m[b.pos + HEADER_SIZE + offset]
  }

  /** A step leaves a block that it does not give back, and every byte of its payload but
      the one its owner writes. */
  lemma StepKeeps(s: State, step: Step, t: State, b: Region, offset: nat)
    requires Ok(s) && Legal(s, step) && Becomes(s, step, t)
    requires b in Live(s.rs) && !GivesBack(s, step, b) && offset + OVERHEAD < b.size
    ensures b in Live(t.rs)
    ensures Payload(t, b, offset) ==
      if step.Write? && s.rs[step.k] == b && step.offset == offset then step.v else Payload(s, b, offset)
  {
    PayloadInMemory(s, b, offset);
    match step
    case Take(size, align, k, p) =>
      var c := TakeOk(s, size, align, k, p, t);
      assert Kept(s.m, t.m, b);
    case Release(k, repaired) =>
      ReleaseOk(s, k, repaired, t);
      var i :| 0 <= i < |s.rs| && s.rs[i] == b;
      assert Kept(s.m, t.m, s.rs[i]);
    case Write(k, o, v) =>
      if s.rs[k] != b {
        var i :| 0 <= i < |s.rs| && s.rs[i] == b;
        RegionsDisjoint(s.rs, s.lo, s.hi, i, k);
      }
  }

  /** Over any run the heap stays sound, and a block that is not given back is there at
      the end, where it was and as large as it was; each byte of its payload is what its
      owner last wrote there, whatever the other calls did in between. */
  lemma {:induction false} RunKeepsBlocks(ss: seq<State>, steps: seq<Step>, b: Region, offset: nat)
    requires Run(ss, steps)
    requires b in Live(ss[0].rs) && Keeps(ss, steps, b) && offset + OVERHEAD < b.size
    ensures Ok(ss[|steps|]) && b in Live(ss[|steps|].rs)
    ensures Payload(ss[|steps|], b, offset) == LastWritten(ss, steps, b, offset, Payload(ss[0], b, offset))
    decreases |steps|
  {
    if steps != [] {
      var n := |steps| - 1;
      var before, made := ss[..n + 1], steps[..n];
      assert Run(before, made) && Keeps(before, made, b) by {
        forall i | 0 <= i < n
          ensures Happens(before, made, i) && !GivesBack(before[i], made[i], b)
        {
          assert Happens(ss, steps, i);
        }
      }
      RunKeepsBlocks(before, made, b, offset);
      assert Happens(ss, steps, n);
      StepKeeps(ss[n], steps[n], ss[n + 1], b, offset);
    }
  }

  /** In every state of a run the live blocks share no byte. */
  lemma RunKeepsApart(ss: seq<State>, steps: seq<Step>, n: nat, b: Region, c: Region)
    requires Run(ss, steps) && n <= |steps|
    requires b in Live(ss[n].rs) && c in Live(ss[n].rs) && b != c
    ensures b.End() <= c.pos || c.End() <= b.pos
    ensures ss[n].lo <= b.pos && b.End() <= ss[n].hi <= ss[0].max
  {
    RunOk(ss, steps, n);
    var s := ss[n];
    var i :| 0 <= i < |s.rs| && s.rs[i] == b;
    var j :| 0 <= j < |s.rs| && s.rs[j] == c;
    RegionsDisjoint(s.rs, s.lo, s.hi, i, j);
  }

  lemma {:induction false} RunOk(ss: seq<State>, steps: seq<Step>, n: nat)
    requires Run(ss, steps) && n <= |steps|
    ensures Ok(ss[n]) && ss[n].max == ss[0].max && ss[n].lo == ss[0].lo
  {
    if n > 0 {
      RunOk(ss, steps, n - 1);
      assert Happens(ss, steps, n - 1);
    }
  }

  /** Once the heap has been larger, no free reads where nothing is mapped: what is handed
      out behind the heap never becomes less. */
  lemma {:induction false} RunKeepsSlack(ss: seq<State>, steps: seq<Step>, n: nat, k: nat)
    requires Run(ss, steps) && n <= |steps|
    ensures ss[n].slack >= ss[0].slack
    ensures ss[0].slack > 0 ==> ProbeMapped(ss[n].rs, k, ss[n].slack)
  {
    if n > 0 {
      RunKeepsSlack(ss, steps, n - 1, k);
      assert Happens(ss, steps, n - 1);
    }
  }

  /** Until then, freeing the last block halts the machine, and nothing but freeing
      another block can change that. */
  lemma NoSlackHalts(s: State, k: nat, repaired: bool, step: Step, t: State)
    requires Ok(s) && s.slack == 0 && k == |s.rs| - 1 && !s.rs[k].hole
    requires Legal(s, step) && Becomes(s, step, t)
    ensures !Legal(s, Release(k, repaired))
    ensures !step.Release? ==> t.slack == 0
  {
  }

  /** With every block given back, the heap is one hole again. */
  lemma NoBlocksOneHole(s: State)
    requires Ok(s)
    requires Live(s.rs) == {}
    ensures s.rs == [Region(s.lo, s.hi - s.lo, true)]
  {
    assert |s.rs| > 1 ==> Apart(s.rs, 0);
    forall t | 0 <= t < |s.rs|
      ensures s.rs[t].hole
    {
      assert s.rs[t] !in Live(s.rs);
    }
  }

  // ----- conservation of bytes -----------------------------------------------------

  function Bytes(rs: seq<Region>): nat {
    if rs == [] then 0 else Bytes(rs[..|rs| - 1]) + rs[|rs| - 1].size
  }

  /** The sizes of the regions, holes and blocks, add up to the heap. */
  lemma {:induction false} BytesConserved(rs: seq<Region>, lo: nat, hi: nat)
    requires Tiles(rs, lo, hi)
    ensures Bytes(rs) == hi - lo
    decreases |rs|
  {
    if |rs| > 1 {
      var front := rs[..|rs| - 1];
      assert Joins(rs, |rs| - 2);
      forall i | 0 <= i < |front| - 1
        ensures Joins(front, i)
      {
        assert Joins(rs, i);
      }
      BytesConserved(front, lo, rs[|rs| - 1].pos);
    } else {
      assert Bytes(rs[..0]) == 0;
    }
  }
}

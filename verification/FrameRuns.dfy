/**
  Frames over any run of allocations and releases: what has been handed out stays marked
  and apart until it is given back, and no frame is lost.
 */
module FrameRuns {
  import opened Bitmap
  import opened FrameMap

  /** The bitmap, how many of its bits stand for frames, and the zones handed out. */
  datatype State = State(bits: seq<bool>, max: nat, zones: seq<Zone>)

  datatype Event =
    | Grab(z: Zone)        // an allocation that succeeds
    | Refuse(size: nat)    // one that does not
    | Drop(k: nat)         // the k-th zone is given back

  ghost predicate InRange(z: Zone, max: nat) {
    0 < z.start && z.start + z.size <= max
  }

  ghost predicate Sound(s: State) {
    && Outstanding(s.bits, s.zones) && s.max <= |s.bits|
    && forall i {:trigger s.zones[i]} :: 0 <= i < |s.zones| ==> InRange(s.zones[i], s.max)
  }

  function Without(zones: seq<Zone>, k: nat): seq<Zone>
    requires k < |zones|
  {
    zones[..k] + zones[k + 1..]
  }

  /** An allocation gets the first zone of free frames that is long enough; it is refused
      only if none starts in a full word. */
  ghost predicate Goes(s: State, e: Event, t: State) {
    && t.max == s.max
    && match e
       case Grab(z) =>
         && z.size > 0 && InRange(z, s.max) && s.max <= |s.bits|
         && ZoneAt(s.bits, z.start, z.size) && NoZoneBelow(s.bits, z.start, z.size)
         && t.bits == Filled(s.bits, z.start, z.start + z.size, true) && t.zones == s.zones + [z]
       case Refuse(size) => t == s && (size > 0 ==> NoZoneBelow(s.bits, s.max / WORD * WORD, size))
       case Drop(k) =>
         && k < |s.zones| && s.zones[k].start + s.zones[k].size <= |s.bits|
         && t.bits == Filled(s.bits, s.zones[k].start, s.zones[k].start + s.zones[k].size, false)
         && t.zones == Without(s.zones, k)
  }

  function Total(zones: seq<Zone>): nat {
    if zones == [] then 0 else Total(zones[..|zones| - 1]) + zones[|zones| - 1].size
  }

  lemma {:induction false} TotalWithout(zones: seq<Zone>, k: nat)
    requires k < |zones|
    ensures Total(Without(zones, k)) == Total(zones) - zones[k].size
    decreases |zones|
  {
    var n := |zones| - 1;
    if k < n {
      TotalWithout(zones[..n], k);
      assert Without(zones, k)[..n - 1] == Without(zones[..n], k);
    } else {
      assert Without(zones, k) == zones[..n];
    }
  }

  /** The frames in use that are not handed out. */
  function Reserved(s: State): int
    requires s.max <= |s.bits|
  {
    CountSet(s.bits, s.max) - Total(s.zones)
  }

  lemma GrabStep(s: State, z: Zone, t: State)
    requires Sound(s) && Goes(s, Grab(z), t)
    ensures Sound(t) && Reserved(t) == Reserved(s)
  {
    GrabKeepsApart(s.bits, s.zones, z);
    CountFilled(s.bits, z.start, z.start + z.size, true, s.max);
    assert t.zones[..|t.zones| - 1] == s.zones;
  }

  lemma DropStep(s: State, k: nat, t: State)
    requires Sound(s) && Goes(s, Drop(k), t)
    ensures Sound(t) && Reserved(t) == Reserved(s)
  {
    var z := s.zones[k];
    DropKeepsOthers(s.bits, s.zones, k);
    CountFilled(s.bits, z.start, z.start + z.size, false, s.max);
    TotalWithout(s.zones, k);
    forall i {:trigger t.zones[i]} | 0 <= i < |t.zones|
      ensures InRange(t.zones[i], t.max)
    {
      assert t.zones[i] == s.zones[if i < k then i else i + 1];
    }
  }

  lemma StepKeeps(s: State, e: Event, t: State)
    requires Sound(s) && Goes(s, e, t)
    ensures Sound(t) && Reserved(t) == Reserved(s)
  {
    match e
    case Grab(z) => GrabStep(s, z, t);
    case Refuse(size) =>
    case Drop(k) => DropStep(s, k, t);
  }

  ghost predicate Run(ss: seq<State>, es: seq<Event>) {
    |ss| == |es| + 1 && forall i {:trigger es[i]} :: 0 <= i < |es| ==> Goes(ss[i], es[i], ss[i + 1])
  }

  /** Over any run the zones handed out stay marked and apart, and the frames in use that
      are not among them stay as many. */
  lemma {:induction false} RunKeepsZones(ss: seq<State>, es: seq<Event>, k: nat)
    requires Run(ss, es) && Sound(ss[0]) && k < |ss|
    ensures Sound(ss[k]) && Reserved(ss[k]) == Reserved(ss[0])
    decreases k
  {
    if k > 0 {
      RunKeepsZones(ss, es, k - 1);
      assert Goes(ss[k - 1], es[k - 1], ss[k - 1 + 1]);
      StepKeeps(ss[k - 1], es[k - 1], ss[k]);
    }
  }

  /** Event e gives zone z back. */
  ghost predicate Returns(s: State, e: Event, z: Zone) {
    e.Drop? && e.k < |s.zones| && s.zones[e.k] == z
  }

  lemma StepHolds(s: State, e: Event, t: State, z: Zone)
    requires Goes(s, e, t) && z in s.zones && !Returns(s, e, z)
    ensures z in t.zones
  {
    match e
    case Grab(y) =>
      assert s.zones <= t.zones;
    case Refuse(size) =>
    case Drop(k) =>
      var i :| 0 <= i < |s.zones| && s.zones[i] == z;
      assert i < k ==> t.zones[i] == z;
      assert i > k ==> t.zones[i - 1] == z;
  }

  /** From when it is handed out until it is given back, a zone's frames are marked: no
      allocation in between gets any of them. */
  lemma {:induction false} HeldStaysMarked(ss: seq<State>, es: seq<Event>, i: nat, k: nat, z: Zone)
    requires Run(ss, es) && Sound(ss[0]) && i <= k < |ss| && z in ss[i].zones
    requires forall j {:trigger es[j]} :: i <= j < k ==> !Returns(ss[j], es[j], z)
    ensures z in ss[k].zones && AllSet(ss[k].bits, z.start, z.start + z.size)
    ensures k < |es| && es[k].Grab? ==> Apart(es[k].z, z)
    decreases k
  {
    RunKeepsZones(ss, es, k);
    if i < k {
      HeldStaysMarked(ss, es, i, k - 1, z);
      assert !Returns(ss[k - 1], es[k - 1], z);
      assert Goes(ss[k - 1], es[k - 1], ss[k - 1 + 1]);
      StepHolds(ss[k - 1], es[k - 1], ss[k], z);
    }
    var a :| 0 <= a < |ss[k].zones| && ss[k].zones[a] == z;
    if k < |es| && es[k].Grab? {
      assert Goes(ss[k], es[k], ss[k + 1]);
      GrabApart(ss[k].bits, z, es[k].z);
    }
  }

  lemma GrabApart(bits: seq<bool>, held: Zone, z: Zone)
    requires AllSet(bits, held.start, held.start + held.size) && ZoneAt(bits, z.start, z.size)
    requires held.size > 0 && z.size > 0
    ensures Apart(z, held)
  {
    var f := if held.start <= z.start then z.start else held.start;
    assert f < held.start + held.size ==> bits[f];
  }

  // ----- the methods take these steps --------------------------------------------------

  ghost function Now(f: Frames, zones: seq<Zone>): State
    reads f`bits
  {
    State(f.bits, f.maxBlocks, zones)
  }

  lemma OneBit(bits: seq<bool>, f: nat, v: bool)
    requires f < |bits|
    ensures bits[f := v] == Filled(bits, f, f + 1, v)
  {
  }

  /** mem_alloc_block. */
  method TakeOne(f: Frames, ghost zones: seq<Zone>) returns (addr: nat, ghost e: Event, ghost out: seq<Zone>)
    requires f.Valid() && Sound(Now(f, zones))
    modifies f`usedBlocks, f`bits, f.words
    ensures f.Valid() && Sound(Now(f, out)) && Goes(old(Now(f, zones)), e, Now(f, out))
    ensures if addr == 0 then e == Refuse(1) else e == Grab(Zone(addr / BLOCK, 1))
  {
    ghost var s := Now(f, zones);
    ghost var frame;
    addr, frame := f.AllocBlock();
    if addr == 0 {
      SetBitsNoZone(s.bits, s.max / WORD * WORD, 1);
      e, out := Refuse(1), zones;
    } else {
      SetBitsNoZone(s.bits, frame, 1);
      OneBit(s.bits, frame, true);
      e, out := Grab(Zone(frame, 1)), zones + [Zone(frame, 1)];
    }
    StepKeeps(s, e, Now(f, out));
  }

  /** mem_alloc_blocks. */
  method Take(f: Frames, size: nat, ghost zones: seq<Zone>) returns (addr: nat, ghost e: Event, ghost out: seq<Zone>)
    requires f.Valid() && Sound(Now(f, zones))
    modifies f`usedBlocks, f`bits, f.words
    ensures f.Valid() && Sound(Now(f, out)) && Goes(old(Now(f, zones)), e, Now(f, out))
    ensures if addr == 0 then e == Refuse(size) else e == Grab(Zone(addr / BLOCK, size))
  {
    ghost var s := Now(f, zones);
    ghost var frame;
    addr, frame := f.AllocBlocks(size);
    if addr == 0 {
      e, out := Refuse(size), zones;
    } else {
      e, out := Grab(Zone(frame, size)), zones + [Zone(frame, size)];
    }
    StepKeeps(s, e, Now(f, out));
  }

  /** mem_free_block. */
  method GiveOne(f: Frames, addr: nat, ghost zones: seq<Zone>, ghost k: nat) returns (ghost out: seq<Zone>)
    requires f.Valid() && Sound(Now(f, zones)) && k < |zones| && zones[k] == Zone(addr / BLOCK, 1)
    modifies f`usedBlocks, f`bits, f.words
    ensures f.Valid() && Sound(Now(f, out)) && Goes(old(Now(f, zones)), Drop(k), Now(f, out))
  {
    ghost var s := Now(f, zones);
    assert InRange(zones[k], s.max);
    OneBit(s.bits, addr / BLOCK, false);
    f.FreeBlock(addr);
    out := Without(zones, k);
    StepKeeps(s, Drop(k), Now(f, out));
  }

  /** mem_free_blocks. */
  method Give(f: Frames, addr: nat, size: nat, ghost zones: seq<Zone>, ghost k: nat) returns (ghost out: seq<Zone>)
    requires f.Valid() && Sound(Now(f, zones)) && k < |zones| && zones[k] == Zone(addr / BLOCK, size)
    modifies f`usedBlocks, f`bits, f.words
    ensures f.Valid() && Sound(Now(f, out)) && Goes(old(Now(f, zones)), Drop(k), Now(f, out))
  {
    ghost var s := Now(f, zones);
    assert InRange(zones[k], s.max);
    f.FreeBlocks(addr, size);
    out := Without(zones, k);
    StepKeeps(s, Drop(k), Now(f, out));
  }
}

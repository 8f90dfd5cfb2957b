/**
  One address space over any run of alloc_page, alloc_kernel_page, brute_create_page,
  clean_user_space and clone_pml4t: each page of the program and of the kernel's area
  keeps a frame of its own, which is what exec and fork rely on. And what becomes of the
  kernel's area when a copied space is emptied.
 */
module SpaceRuns {
  import opened Basics
  import opened AddressSpace
  import opened CloneSpace
  import opened Copies
  import opened FrameDemand
  import opened HeapPages
  import opened Paging
  import opened Tables
  import opened UserSpace
  import Bitmap

  const USER_PAGES: nat := 0xC_0000      // below 3 GB
  const KERNEL_END: nat := 0x10_0000     // the end of the fourth gigabyte

  /** A space at one moment. */
  datatype Snap = Snap(m: seq<Word>, bits: seq<bool>, max: nat, root: nat, top: nat, own: Owners, next: nat)

  /** The tables are in order, and so is the bitmap of a machine with at most 1 TB. */
  ghost predicate Sane(s: Snap) {
    && Tabled(s.m, s.bits, s.max, s.root, s.top, s.own)
    && |s.bits| > 0 && s.bits[0] && Bitmap.AllSet(s.bits, s.max, |s.bits|) && s.max <= LOW_FRAMES
  }

  /** The pages that are a program's, and those of the kernel's area from first on. */
  predicate Tracked(page: nat, first: nat, next: nat) {
    page < USER_PAGES || first <= page < next
  }

  ghost predicate Here(s: Snap, page: nat) {
    Present(s.m, s.top, PathOf(page))
  }

  ghost function FrameAt(s: Snap, page: nat): nat {
    if Here(s, page) then Leaf(s.m, s.top, PathOf(page)).value.frame else 0
  }

  /** The page's frame, if it has one, is in use, is no table, and is not the root. */
  ghost predicate HasOwn(s: Snap, page: nat) {
    Here(s, page) ==>
      var f := FrameAt(s, page);
      0 < f < s.max <= |s.bits| && s.bits[f] && f !in s.own && f != s.root
  }

  ghost predicate Alone(s: Snap, p: nat, q: nat) {
    Here(s, p) && Here(s, q) ==> FrameAt(s, p) != FrameAt(s, q)
  }

  /** Every tracked page that is present has a frame of its own. */
  ghost predicate Housed(s: Snap, first: nat) {
    && Sane(s) && s.next <= KERNEL_END
    && (forall p: nat {:trigger HasOwn(s, p)} :: Tracked(p, first, s.next) ==> HasOwn(s, p))
    && (forall p: nat, q: nat {:trigger Alone(s, p, q)} ::
         Tracked(p, first, s.next) && Tracked(q, first, s.next) && p != q ==> Alone(s, p, q))
  }

  /** And the kernel's area is mapped throughout. */
  ghost predicate Held(s: Snap, first: nat) {
    Housed(s, first) && USER_PAGES <= first && forall p: nat {:trigger Here(s, p)} :: first <= p < s.next ==> Here(s, p)
  }

  // ----- what the others rely on -------------------------------------------------------

  lemma UserPath(p: seq<nat>)
    requires Page(p) && p[0] == 0 && p[1] < 3
    ensures PageNumber(p) < USER_PAGES && PathOf(PageNumber(p)) == p
  {
    NumberedPath(p);
  }

  lemma PageIs(page: nat)
    requires page < PAGES
    ensures Page(PathOf(page)) && PageNumber(PathOf(page)) == page
    ensures page < USER_PAGES ==> PathOf(page)[0] == 0 && PathOf(page)[1] < 3
    ensures USER_PAGES <= page < KERNEL_END ==> PathOf(page)[0] == 0 && PathOf(page)[1] == 3
  {
    PagePaths(page);
    Recompose(page);
  }

  /** So clean_user_space may be called. */
  lemma HousedOwnFrames(s: Snap, first: nat)
    requires Housed(s, first)
    ensures OwnFrames(s.m, s.bits, s.max, s.root, s.top, s.own)
  {
    forall p | Page(p)
      ensures OwnFrame(s.m, s.bits, s.max, s.root, s.own, s.top, p)
    {
      if Victim(s.m, s.top, p) {
        UserPath(p);
        assert HasOwn(s, PageNumber(p));
      }
    }
    forall p, q | Page(p) && Page(q) && p != q
      ensures NotShared(s.m, s.top, p, q)
    {
      if Victim(s.m, s.top, p) && Victim(s.m, s.top, q) {
        UserPath(p);
        UserPath(q);
        assert Alone(s, PageNumber(p), PageNumber(q));
      }
    }
  }

  lemma HereTranslates(s: Snap, page: nat)
    requires Sane(s) && Here(s, page) && FrameAt(s, page) < s.max
    ensures Translate(s.m, s.top, page) == Some(FrameAt(s, page))
  {
    assert PathOf(page)[..4 - 1] == PathOf(page)[..3];
  }

  /** And the pages behind the heap are its own. */
  lemma HeldOwnPages(s: Snap, first: nat)
    requires Held(s, first)
    ensures OwnPages(s.m, s.bits, s.top, s.own, first, s.next)
  {
    forall p: nat | first <= p < s.next
      ensures OwnPage(s.m, s.bits, s.top, s.own, p) && Translate(s.m, s.top, p) == Some(FrameAt(s, p))
    {
      assert Here(s, p) && HasOwn(s, p);
      HereTranslates(s, p);
    }
    forall p: nat, q: nat | first <= p < q < s.next
      ensures Differ(s.m, s.top, p, q)
    {
      assert Here(s, p) && Here(s, q) && Alone(s, p, q);
    }
  }

  /** The heap has a page-aligned block, in a page of its own, for every table and page of
      the copy. */
  ghost predicate Covers(m: seq<Word>, top: nat, supply: Supply, first: nat, next: nat) {
    && [] in supply && [0] in supply
    && (forall q {:trigger TableSupplied(m, top, supply, q)} ::
         2 <= |q| <= 3 && Plain(q) && q[0] == 0 && q[1] < 3 ==> TableSupplied(m, top, supply, q))
    && (forall p {:trigger Source(m, top, p)} :: Page(p) && Source(m, top, p) ==> p in supply)
    && (forall q :: q in supply ==> first <= supply[q] < next)
    && (forall p, q :: p in supply && q in supply && p != q ==> supply[p] != supply[q])
  }

  lemma SupplyFrame(s: Snap, first: nat, supply: Supply, q: seq<nat>)
    requires Held(s, first) && q in supply && first <= supply[q] < s.next
    ensures FrameFor(s.m, s.top, supply, q) == FrameAt(s, supply[q])
    ensures Translate(s.m, s.top, supply[q]) == Some(FrameAt(s, supply[q]))
    ensures Here(s, supply[q]) && HasOwn(s, supply[q]) && Tracked(supply[q], first, s.next)
  {
    assert Here(s, supply[q]) && HasOwn(s, supply[q]);
    HereTranslates(s, supply[q]);
  }

  /** So clone_pml4t may be called with blocks of the heap. */
  lemma HeldReady(s: Snap, first: nat, supply: Supply)
    requires Held(s, first) && s.root == s.top && Covers(s.m, s.top, supply, first, s.next)
    ensures Ready(s.m, s.bits, s.max, s.top, s.own, supply)
  {
    HeldOwnPages(s, first);
    forall q | q in supply
      ensures FromArea(s.m, s.top, supply, first, s.next, q)
    {
      SupplyFrame(s, first, supply, q);
    }
    SuppliedByHeap(s.m, s.bits, s.top, s.own, supply, first, s.next);
    forall p | Page(p)
      ensures OwnSource(s.m, s.top, supply, p)
    {
      if Source(s.m, s.top, p) { SourceApart(s, first, supply, p); }
    }
  }

  lemma SourceApart(s: Snap, first: nat, supply: Supply, p: seq<nat>)
    requires Held(s, first) && Covers(s.m, s.top, supply, first, s.next) && Page(p) && Source(s.m, s.top, p)
    ensures OwnSource(s.m, s.top, supply, p)
  {
    UserPath(p);
    var page := PageNumber(p);
    assert Here(s, page) && HasOwn(s, page);
    forall q | q in supply
      ensures NotTaken(s.m, s.top, supply, q, p)
    {
      SupplyFrame(s, first, supply, q);
      assert Alone(s, supply[q], page);
    }
  }

  // ----- the steps ---------------------------------------------------------------------

  datatype Event =
    | Alloc(page: nat, fs: seq<nat>)                 // alloc_page, with the frames it got
    | Extend(fs: seq<nat>)                           // alloc_kernel_page
    | Device(page: nat, fs: seq<nat>, user: bool)    // brute_create_page
    | Empty                                          // clean_user_space
    | Copy(used: set<nat>)                           // clone_pml4t, with the frames it wrote

  /** A run of pages maps to frames that were free. */
  ghost predicate Fresh(s: Snap, t: Snap, page: nat, fs: seq<nat>, user: bool) {
    && page + |fs| <= PAGES && MapsRun(s.m, t.m, s.top, page, fs, user)
    && FreshRun(s.bits, t.bits, fs) && NoTables(fs, t.own)
    && Grew(s.m, t.m, s.bits, t.bits, s.own, t.own)
  }

  ghost predicate Emptied(s: Snap, t: Snap) {
    && t.own == s.own && |t.bits| == |s.bits|
    && (forall p {:trigger PageSwept(s.m, t.m, s.top, p)} :: Page(p) ==> PageSwept(s.m, t.m, s.top, p))
    && (forall f: nat {:trigger FrameSwept(s.m, s.bits, t.bits, s.top, f)} ::
         f < |s.bits| ==> FrameSwept(s.m, s.bits, t.bits, s.top, f))
  }

  /** Event e leads from s to t: what the five methods promise. Devices are mapped
      neither below 3 GB nor in the kernel's area. */
  ghost predicate Goes(s: Snap, e: Event, t: Snap, first: nat) {
    && Sane(t) && t.max == s.max && t.root == s.root && t.top == s.top && t.next <= KERNEL_END
    && match e
       case Alloc(page, fs) => t.next == s.next && Fresh(s, t, page, fs, true)
       case Extend(fs) => (t.next == s.next || t.next == s.next + |fs|) && Fresh(s, t, s.next, fs, false)
       case Device(page, fs, user) =>
         && t.next == s.next && page + |fs| <= PAGES && MapsRun(s.m, t.m, s.top, page, fs, user)
         && Grew(s.m, t.m, s.bits, t.bits, s.own, t.own)
         && forall p: nat :: page <= p < page + |fs| ==> !Tracked(p, first, s.next)
       case Empty => t.next == s.next && Emptied(s, t)
       case Copy(used) =>
         t.next == s.next && t.own == s.own && t.bits == s.bits && Kept(s.m, t.m, used) && s.own.Keys !! used
  }

  /** A page outside the run is as it was. */
  lemma OutsideRun(s: Snap, t: Snap, page: nat, fs: seq<nat>, user: bool, p: nat)
    requires MapsRun(s.m, t.m, s.top, page, fs, user) && t.top == s.top && p < PAGES && !(page <= p < page + |fs|)
    ensures Here(t, p) ==> Here(s, p) && FrameAt(t, p) == FrameAt(s, p)
    ensures Here(s, p) && Translate(s.m, s.top, p).Some? ==> Here(t, p)
  {
    assert SameAt(s.m, t.m, s.top, p);
  }

  lemma InRun(s: Snap, t: Snap, page: nat, fs: seq<nat>, user: bool, p: nat)
    requires MapsRun(s.m, t.m, s.top, page, fs, user) && t.top == s.top && page <= p < page + |fs|
    ensures Here(t, p) && FrameAt(t, p) == fs[p - page]
  {
    assert MapsAt(t.m, t.top, page, fs, user, p - page);
    assert PathOf(p)[..4 - 1] == PathOf(p)[..3];
  }

  /** Frames that were in use and no tables still are. */
  lemma GrewOwn(s: Snap, t: Snap, p: nat)
    requires Grew(s.m, t.m, s.bits, t.bits, s.own, t.own) && t.max == s.max && t.root == s.root
    requires HasOwn(s, p) && (Here(t, p) ==> Here(s, p) && FrameAt(t, p) == FrameAt(s, p))
    ensures HasOwn(t, p)
  {
    if Here(t, p) {
      var f := FrameAt(s, p);
      assert f in t.own ==> WasFree(s.bits, s.own, f);
    }
  }

  /** A frame that was free is neither 0 nor the root, and lies below max. */
  lemma FreshOwn(s: Snap, t: Snap, page: nat, fs: seq<nat>, p: nat)
    requires Sane(s) && t.max == s.max && t.root == s.root && s.max <= |t.bits|
    requires FreshRun(s.bits, t.bits, fs) && NoTables(fs, t.own)
    requires page <= p < page + |fs| && Here(t, p) && FrameAt(t, p) == fs[p - page]
    ensures HasOwn(t, p)
  {
    var f := fs[p - page];
    assert !s.bits[f] && t.bits[f];
  }

  /** What the frame behind a page was before. */
  ghost predicate Whence(s: Snap, t: Snap, page: nat, fs: seq<nat>, p: nat) {
    Here(t, p) ==>
      if page <= p < page + |fs| then FrameAt(t, p) == fs[p - page]
      else Here(s, p) && FrameAt(t, p) == FrameAt(s, p) && FrameAt(s, p) < |s.bits| && s.bits[FrameAt(s, p)]
  }

  lemma FreshAlone(s: Snap, t: Snap, page: nat, fs: seq<nat>, p: nat, q: nat)
    requires FreshRun(s.bits, t.bits, fs) && p != q && Whence(s, t, page, fs, p) && Whence(s, t, page, fs, q)
    requires !(page <= p < page + |fs|) && !(page <= q < page + |fs|) ==> Alone(s, p, q)
    ensures Alone(t, p, q)
  {
  }

  /** New pages on frames that were free, wherever they are, even in place of old ones. */
  lemma FreshHouses(s: Snap, t: Snap, first: nat, page: nat, fs: seq<nat>, user: bool)
    requires Housed(s, first) && Sane(t) && t.max == s.max && t.root == s.root && t.top == s.top && t.next <= KERNEL_END
    requires Fresh(s, t, page, fs, user)
    requires t.next <= s.next || (page == s.next && t.next <= s.next + |fs|)
    ensures Housed(t, first)
  {
    forall p: nat | Tracked(p, first, t.next)
      ensures HasOwn(t, p) && Whence(s, t, page, fs, p)
    {
      if page <= p < page + |fs| {
        InRun(s, t, page, fs, user, p);
        FreshOwn(s, t, page, fs, p);
      } else {
        assert HasOwn(s, p);
        OutsideRun(s, t, page, fs, user, p);
        GrewOwn(s, t, p);
      }
    }
    forall p: nat, q: nat | Tracked(p, first, t.next) && Tracked(q, first, t.next) && p != q
      ensures Alone(t, p, q)
    {
      assert HasOwn(t, p) && HasOwn(t, q);
      assert !(page <= p < page + |fs|) && !(page <= q < page + |fs|) ==> Alone(s, p, q);
      FreshAlone(s, t, page, fs, p, q);
    }
  }

  /** A page that was present already and is mapped anew, as the two stacks are with every
      fork of the kernel: its old frame stays in use, and no tracked page has it any more,
      so no emptying will ever free it. */
  lemma RemapLoses(s: Snap, t: Snap, first: nat, page: nat, fs: seq<nat>, p: nat, q: nat)
    requires Housed(s, first) && Goes(s, Alloc(page, fs), t, first)
    requires Tracked(p, first, s.next) && page <= p < page + |fs| && Here(s, p)
    requires Tracked(q, first, s.next)
    ensures FrameAt(s, p) < |t.bits| && t.bits[FrameAt(s, p)]
    ensures Here(t, q) ==> FrameAt(t, q) != FrameAt(s, p)
  {
    assert HasOwn(s, p) && HasOwn(s, q);
    if page <= q < page + |fs| {
      InRun(s, t, page, fs, true, q);
    } else {
      OutsideRun(s, t, page, fs, true, q);
      assert Alone(s, p, q);
    }
  }

  /** A change after which tracked pages have the frames they had, or none. */
  lemma SameHouses(s: Snap, t: Snap, first: nat)
    requires Housed(s, first) && Sane(t) && t.next == s.next
    requires forall p: nat {:trigger Here(t, p)} :: Tracked(p, first, s.next) && Here(t, p) ==>
      Here(s, p) && FrameAt(t, p) == FrameAt(s, p) && HasOwn(t, p)
    ensures Housed(t, first)
  {
    forall p: nat | Tracked(p, first, t.next)
      ensures HasOwn(t, p)
    {
      assert Here(t, p) ==> HasOwn(t, p);
    }
    forall p: nat, q: nat | Tracked(p, first, t.next) && Tracked(q, first, t.next) && p != q
      ensures Alone(t, p, q)
    {
      assert Alone(s, p, q);
    }
  }

  lemma DeviceHouses(s: Snap, t: Snap, first: nat, page: nat, fs: seq<nat>, user: bool)
    requires Housed(s, first) && Goes(s, Device(page, fs, user), t, first)
    ensures Housed(t, first)
  {
    forall p: nat | Tracked(p, first, s.next) && Here(t, p)
      ensures Here(s, p) && FrameAt(t, p) == FrameAt(s, p) && HasOwn(t, p)
    {
      assert HasOwn(s, p);
      OutsideRun(s, t, page, fs, user, p);
      GrewOwn(s, t, p);
    }
    SameHouses(s, t, first);
  }

  /** A page that the sweep has left. */
  lemma LeftBySweep(s: Snap, t: Snap, p: nat)
    requires Emptied(s, t) && t.top == s.top && p < PAGES
    ensures Here(t, p) ==> !Victim(s.m, s.top, PathOf(p)) && Here(s, p) && FrameAt(t, p) == FrameAt(s, p)
    ensures !Victim(s.m, s.top, PathOf(p)) ==> Translate(t.m, t.top, p) == Translate(s.m, s.top, p)
    ensures !Victim(s.m, s.top, PathOf(p)) && Here(s, p) && Translate(s.m, s.top, p).Some? ==> Here(t, p)
  {
    PageIs(p);
    assert PageSwept(s.m, t.m, s.top, PathOf(p));
  }

  lemma SweepHouses(s: Snap, t: Snap, first: nat)
    requires Housed(s, first) && Goes(s, Empty, t, first)
    ensures Housed(t, first)
  {
    forall p: nat | Tracked(p, first, s.next) && Here(t, p)
      ensures Here(s, p) && FrameAt(t, p) == FrameAt(s, p) && HasOwn(t, p)
    {
      LeftBySweep(s, t, p);
      assert HasOwn(s, p) && FrameSwept(s.m, s.bits, t.bits, s.top, FrameAt(s, p));
      forall q | Page(q)
        ensures !Backs(s.m, s.top, q, FrameAt(s, p))
      {
        if Victim(s.m, s.top, q) {
          UserPath(q);
          assert Alone(s, PageNumber(q), p);
        }
      }
    }
    SameHouses(s, t, first);
  }

  lemma CopyHouses(s: Snap, t: Snap, first: nat, used: set<nat>)
    requires Housed(s, first) && Goes(s, Copy(used), t, first)
    ensures Housed(t, first)
    ensures forall p: nat {:trigger Here(t, p)} :: p < PAGES ==> Here(t, p) == Here(s, p)
  {
    forall p: nat | p < PAGES
      ensures Here(t, p) == Here(s, p) && FrameAt(t, p) == FrameAt(s, p)
    {
      PageIs(p);
      KeptPath(s.m, t.m, s.bits, s.top, s.own, used, PathOf(p));
    }
    forall p: nat | Tracked(p, first, s.next) && Here(t, p)
      ensures Here(s, p) && FrameAt(t, p) == FrameAt(s, p) && HasOwn(t, p)
    {
      assert HasOwn(s, p);
    }
    SameHouses(s, t, first);
  }

  lemma StepHouses(s: Snap, e: Event, t: Snap, first: nat)
    requires Housed(s, first) && Goes(s, e, t, first)
    ensures Housed(t, first)
  {
    match e
    case Alloc(page, fs) => FreshHouses(s, t, first, page, fs, true);
    case Extend(fs) => FreshHouses(s, t, first, s.next, fs, false);
    case Device(page, fs, user) => DeviceHouses(s, t, first, page, fs, user);
    case Empty => SweepHouses(s, t, first);
    case Copy(used) => CopyHouses(s, t, first, used);
  }

  /** A page of the kernel's area stays, and new ones are there. */
  lemma StepKeepsArea(s: Snap, e: Event, t: Snap, first: nat, p: nat)
    requires Held(s, first) && Goes(s, e, t, first) && first <= p < t.next
    ensures Here(t, p)
  {
    if p < s.next {
      assert Here(s, p) && HasOwn(s, p);
      HereTranslates(s, p);
      PageIs(p);
    }
    match e
    case Alloc(page, fs) =>
      if page <= p < page + |fs| { InRun(s, t, page, fs, true, p); } else { OutsideRun(s, t, page, fs, true, p); }
    case Extend(fs) =>
      if s.next <= p { InRun(s, t, s.next, fs, false, p); } else { OutsideRun(s, t, s.next, fs, false, p); }
    case Device(page, fs, user) =>
      assert Tracked(p, first, s.next);
      OutsideRun(s, t, page, fs, user, p);
    case Empty => LeftBySweep(s, t, p);
    case Copy(used) => CopyHouses(s, t, first, used);
  }

  lemma StepKeeps(s: Snap, e: Event, t: Snap, first: nat)
    requires Held(s, first) && Goes(s, e, t, first)
    ensures Held(t, first)
  {
    StepHouses(s, e, t, first);
    forall p: nat | first <= p < t.next
      ensures Here(t, p)
    {
      StepKeepsArea(s, e, t, first, p);
    }
  }

  ghost predicate Run(ss: seq<Snap>, es: seq<Event>, first: nat) {
    |ss| == |es| + 1 && forall i {:trigger es[i]} :: 0 <= i < |es| ==> Goes(ss[i], es[i], ss[i + 1], first)
  }

  /** Over any run all that exec and the heap rely on stays true. */
  lemma {:induction false} RunKeepsHeld(ss: seq<Snap>, es: seq<Event>, first: nat, k: nat)
    requires Run(ss, es, first) && Held(ss[0], first) && k < |ss|
    ensures Held(ss[k], first)
    ensures OwnFrames(ss[k].m, ss[k].bits, ss[k].max, ss[k].root, ss[k].top, ss[k].own)
    ensures OwnPages(ss[k].m, ss[k].bits, ss[k].top, ss[k].own, first, ss[k].next)
    decreases k
  {
    if k > 0 {
      RunKeepsHeld(ss, es, first, k - 1);
      assert Goes(ss[k - 1], es[k - 1], ss[k - 1 + 1], first);
      StepKeeps(ss[k - 1], es[k - 1], ss[k], first);
    }
    HousedOwnFrames(ss[k], first);
    HeldOwnPages(ss[k], first);
  }

  /** A run may begin with the first space, in which nothing is mapped, and after it the
      processor may go over from the boot table to the new one. */
  lemma StartHeld(s: Snap)
    requires Sane(s) && USER_PAGES <= s.next <= KERNEL_END && NothingMapped(s.m, s.top)
    ensures Held(s, s.next)
  {
    forall p: nat | p < USER_PAGES
      ensures !Here(s, p)
    {
      assert Leaf(s.m, s.top, PathOf(p)) == None;
    }
  }

  lemma SwitchHeld(s: Snap, first: nat)
    requires Held(s, first)
    ensures Held(s.(root := s.top), first)
  {
    var t := s.(root := s.top);
    forall p: nat
      ensures Here(t, p) == Here(s, p) && FrameAt(t, p) == FrameAt(s, p) && (HasOwn(s, p) ==> HasOwn(t, p))
    {
    }
    forall p: nat | Tracked(p, first, s.next)
      ensures HasOwn(t, p)
    {
      assert HasOwn(s, p);
    }
    forall p: nat, q: nat | Tracked(p, first, s.next) && Tracked(q, first, s.next) && p != q
      ensures Alone(t, p, q)
    {
      assert Alone(s, p, q);
    }
  }

  // ----- the methods take these steps --------------------------------------------------

  ghost function Now(s: Space): Snap
    reads s, s.ram, s.frames, s.frames.words
  {
    Snap(s.Mem(), s.Used(), s.frames.maxBlocks, s.root, s.top, s.own, s.kernelNext)
  }

  method AllocatePages(s: Space, virtual: nat, size: nat, ghost first: nat) returns (r: nat, ghost fs: seq<nat>)
    requires s.Steady() && Held(Now(s), first) && virtual % PAGE == 0
    requires var n := if size == 0 then 1 else size;
      && virtual / PAGE + n <= PAGES
      && CanMap(s.Mem(), s.Used(), s.frames.maxBlocks, s.top, virtual / PAGE, virtual / PAGE, n, 1)
    modifies s.ram, s.frames, s.frames.words, s`own
    ensures s.Steady() && Held(Now(s), first)
    ensures Goes(old(Now(s)), Alloc(virtual / PAGE, fs), Now(s), first)
  {
    ghost var was := Now(s);
    r, fs := s.AllocPage(virtual, size);
    StepKeeps(was, Alloc(virtual / PAGE, fs), Now(s), first);
  }

  method ExtendArea(s: Space, size: nat, ghost first: nat) returns (address: nat, ghost fs: seq<nat>)
    requires s.Steady() && Held(Now(s), first) && s.kernelNext + size <= KERNEL_END
    requires CanMap(s.Mem(), s.Used(), s.frames.maxBlocks, s.top, s.kernelNext, s.kernelNext, size, 1)
    modifies s.ram, s.frames, s.frames.words, s`own, s`kernelNext
    ensures s.Steady() && Held(Now(s), first)
    ensures Goes(old(Now(s)), Extend(fs), Now(s), first)
  {
    ghost var was := Now(s);
    address, fs := s.AllocKernelPage(size);
    StepKeeps(was, Extend(fs), Now(s), first);
  }

  method MapDevicePages(s: Space, physical: nat, virtual: nat, size: nat, user: bool, ghost first: nat)
    returns (made: nat, ghost fs: seq<nat>)
    requires s.Steady() && Held(Now(s), first) && virtual % PAGE == 0 && virtual / PAGE + size <= PAGES
    requires (physical / PAGE + size) * ENTRIES <= s.ram.Length && physical / PAGE + size <= MAX_FRAMES
    requires size / 512 > s.frames.FreeCount()
      || CanMap(s.Mem(), s.Used(), s.frames.maxBlocks, s.top, virtual / PAGE, virtual / PAGE, size, 0)
    requires forall p: nat :: virtual / PAGE <= p < virtual / PAGE + size ==> !Tracked(p, first, s.kernelNext)
    modifies s.ram, s.frames, s.frames.words, s`own
    ensures s.Steady() && Held(Now(s), first)
    ensures Goes(old(Now(s)), Device(virtual / PAGE, fs, user), Now(s), first)
  {
    ghost var was := Now(s);
    made, fs := s.MapDevice(physical, virtual, size, user);
    StepKeeps(was, Device(virtual / PAGE, fs, user), Now(s), first);
  }

  /** clean_user_space: nothing is left to require of the caller but the table above
      user space. */
  method EmptyHoused(s: Space, ghost first: nat)
    requires s.Steady() && Housed(Now(s), first) && WalkTo(s.Mem(), s.top, [0]).Some?
    modifies s.ram, s.frames, s.frames.words
    ensures s.Steady() && Housed(Now(s), first)
    ensures Goes(old(Now(s)), Empty, Now(s), first)
  {
    ghost var was := Now(s);
    HousedOwnFrames(was, first);
    CleanUserSpace(s);
    SweepHouses(was, Now(s), first);
  }

  method EmptyUser(s: Space, ghost first: nat)
    requires s.Steady() && Held(Now(s), first) && WalkTo(s.Mem(), s.top, [0]).Some?
    modifies s.ram, s.frames, s.frames.words
    ensures s.Steady() && Held(Now(s), first)
    ensures Goes(old(Now(s)), Empty, Now(s), first)
  {
    ghost var was := Now(s);
    EmptyHoused(s, first);
    StepKeeps(was, Empty, Now(s), first);
  }

  // ----- the copy ----------------------------------------------------------------------

  /** The space that has been made at g, in the memory after. */
  ghost function CopyOf(t: Snap, g: nat, own: Owners): Snap {
    t.(root := g, top := g, own := WithKernel(own, t.own))
  }

  /** What clone_pml4t leaves: the copy at g of space s, made of the blocks supplied. */
  ghost predicate Forked(s: Snap, t: Snap, first: nat, supply: Supply, g: nat, own: Owners, made: Pages) {
    && Held(s, first) && s.root == s.top && Covers(s.m, s.top, supply, first, s.next)
    && Sane(CopyOf(t, g, own)) && t == s.(m := t.m)
    && Supplied(s.m, s.top, supply, own, made, 0xC_0000)
    && forall p {:trigger ClonedAt(s.m, s.top, t.m, g, made, p)} :: Page(p) ==> ClonedAt(s.m, s.top, t.m, g, made, p)
  }

  /** The frame behind a page of the copy below 3 GB. */
  lemma CopyFrame(s: Snap, t: Snap, first: nat, supply: Supply, g: nat, own: Owners, made: Pages, p: seq<nat>)
    requires Forked(s, t, first, supply, g, own, made) && Page(p) && p[0] == 0 && p[1] < 3
    ensures Present(t.m, g, p) <==> Present(s.m, s.top, p)
    ensures Present(t.m, g, p) ==>
      && var h := Leaf(t.m, g, p).value.frame;
         h in made && made[h] == p && p in supply && h == FrameAt(s, supply[p])
  {
    UserPath(p);
    assert ClonedAt(s.m, s.top, t.m, g, made, p) && p[..4 - 1] == p[..3];
    assert HasOwn(s, PageNumber(p));
    if Present(s.m, s.top, p) {
      HereTranslates(s, PageNumber(p));
    }
    if Present(t.m, g, p) {
      var h := WalkTo(t.m, g, p).value;
      assert For(s.m, s.top, supply, h, made);
      SupplyFrame(s, first, supply, p);
    }
  }

  lemma CopyHasOwn(s: Snap, t: Snap, first: nat, supply: Supply, g: nat, own: Owners, made: Pages, page: nat)
    requires Forked(s, t, first, supply, g, own, made) && page < USER_PAGES
    ensures HasOwn(CopyOf(t, g, own), page)
  {
    var c := CopyOf(t, g, own);
    if Here(c, page) {
      PageIs(page);
      var p := PathOf(page);
      CopyFrame(s, t, first, supply, g, own, made, p);
      SupplyFrame(s, first, supply, p);
      var h := FrameAt(c, page);
      HeldReady(s, first, supply);
      assert h in own ==>
        TableOk(c.m, c.bits, c.own, h) && For(s.m, s.top, supply, h, own) && Unlike(s.m, s.top, supply, own[h], p);
    }
  }

  /** The pages of the copy have frames of their own too, so that exec may empty it, and
      any run of it keeps that; the kernel's area is not the copy's own. */
  lemma CopyHoused(s: Snap, t: Snap, first: nat, supply: Supply, g: nat, own: Owners, made: Pages)
    requires Forked(s, t, first, supply, g, own, made)
    ensures Housed(CopyOf(t, g, own), s.next)
  {
    var c := CopyOf(t, g, own);
    forall page: nat | Tracked(page, s.next, c.next)
      ensures HasOwn(c, page)
    {
      CopyHasOwn(s, t, first, supply, g, own, made, page);
    }
    forall p: nat, q: nat | Tracked(p, s.next, c.next) && Tracked(q, s.next, c.next) && p != q
      ensures Alone(c, p, q)
    {
      PageIs(p);
      PageIs(q);
      CopyFrame(s, t, first, supply, g, own, made, PathOf(p));
      CopyFrame(s, t, first, supply, g, own, made, PathOf(q));
    }
  }

  // ----- the kernel's area after an emptying -------------------------------------------

  ghost predicate PageUsed(s: Snap, page: nat) {
    && Translate(s.m, s.top, page).Some?
    && Translate(s.m, s.top, page).value < |s.bits| && s.bits[Translate(s.m, s.top, page).value]
  }

  /** Every page of the kernel's area maps to a frame in use. */
  ghost predicate AreaUsed(s: Snap, first: nat) {
    forall page: nat :: first <= page < s.next ==> PageUsed(s, page)
  }

  /** The frame of a swept page backs this page too. */
  ghost predicate Clash(s: Snap, path: seq<nat>, page: nat) {
    Page(path) && Victim(s.m, s.top, path) && Translate(s.m, s.top, page) == Some(VictimFrame(s.m, s.top, path))
  }

  ghost predicate NoClash(s: Snap, first: nat) {
    forall path, page: nat {:trigger Clash(s, path, page)} :: first <= page < s.next ==> !Clash(s, path, page)
  }

  lemma SweptArea(s: Snap, t: Snap, page: nat)
    requires Emptied(s, t) && t.top == s.top && USER_PAGES <= page < KERNEL_END && PageUsed(s, page)
    ensures Translate(t.m, t.top, page) == Translate(s.m, s.top, page)
    ensures PageUsed(t, page) <==> !exists path :: Clash(s, path, page)
  {
    PageIs(page);
    LeftBySweep(s, t, page);
    var f := Translate(s.m, s.top, page).value;
    assert FrameSwept(s.m, s.bits, t.bits, s.top, f);
    if p :| Page(p) && Backs(s.m, s.top, p, f) { assert Clash(s, p, page); }
    if path :| Clash(s, path, page) { assert Backs(s.m, s.top, path, f); }
  }

  /** Emptying user space leaves the frames of the kernel's area in use, and its pages
      their own, if and only if no swept page's frame backs one of them. */
  lemma SweepKeepsAreaIff(s: Snap, t: Snap, first: nat)
    requires Emptied(s, t) && t.top == s.top && t.next == s.next && USER_PAGES <= first && s.next <= KERNEL_END
    requires AreaUsed(s, first)
    ensures AreaUsed(t, first) <==> NoClash(s, first)
    ensures OwnPages(s.m, s.bits, s.top, s.own, first, s.next) ==>
      (OwnPages(t.m, t.bits, t.top, t.own, first, t.next) <==> NoClash(s, first))
  {
    forall page: nat | first <= page < s.next
      ensures Translate(t.m, t.top, page) == Translate(s.m, s.top, page)
      ensures PageUsed(t, page) <==> !exists path :: Clash(s, path, page)
    {
      assert PageUsed(s, page);
      SweptArea(s, t, page);
    }
    if OwnPages(s.m, s.bits, s.top, s.own, first, s.next) { SweptOwnPages(s, t, first); }
  }

  lemma SweptOwnPages(s: Snap, t: Snap, first: nat)
    requires OwnPages(s.m, s.bits, s.top, s.own, first, s.next) && t.own == s.own && t.next == s.next
    requires forall page: nat :: first <= page < s.next ==> Translate(t.m, t.top, page) == Translate(s.m, s.top, page)
    ensures OwnPages(t.m, t.bits, t.top, t.own, first, t.next) <==> AreaUsed(t, first)
  {
    forall p: nat | first <= p < s.next
      ensures OwnPage(t.m, t.bits, t.top, t.own, p) <==> PageUsed(t, p)
    {
      assert OwnPage(s.m, s.bits, s.top, s.own, p);
    }
    forall p: nat, q: nat | first <= p < q < s.next
      ensures Differ(t.m, t.top, p, q)
    {
      assert Differ(s.m, s.top, p, q);
    }
  }

  /** The copy sees the kernel's area as the space it was made from does. */
  lemma CopyArea(s: Snap, t: Snap, first: nat, supply: Supply, g: nat, own: Owners, made: Pages)
    requires Forked(s, t, first, supply, g, own, made)
    ensures AreaUsed(CopyOf(t, g, own), first)
    ensures forall page: nat :: first <= page < s.next ==> Translate(t.m, g, page) == Some(FrameAt(s, page))
  {
    forall page: nat | first <= page < s.next
      ensures PageUsed(CopyOf(t, g, own), page) && Translate(t.m, g, page) == Some(FrameAt(s, page))
    {
      PageIs(page);
      assert ClonedAt(s.m, s.top, t.m, g, made, PathOf(page));
      assert Here(s, page) && HasOwn(s, page);
      HereTranslates(s, page);
    }
  }

  /** A page of the copy is a block of the heap, so the frame of a swept one backs a page
      of the area. */
  lemma CopyClashIff(s: Snap, t: Snap, first: nat, supply: Supply, g: nat, own: Owners, made: Pages)
    requires Forked(s, t, first, supply, g, own, made)
    ensures NoClash(CopyOf(t, g, own), first) <==> forall p :: Page(p) ==> !Victim(s.m, s.top, p)
  {
    var c := CopyOf(t, g, own);
    CopyArea(s, t, first, supply, g, own, made);
    forall p | Page(p) && Swept(p)
      ensures Victim(c.m, c.top, p) <==> Victim(s.m, s.top, p)
      ensures Victim(c.m, c.top, p) ==> p in supply && Clash(c, p, supply[p])
    {
      CopyFrame(s, t, first, supply, g, own, made, p);
    }
  }

  /** However c's user space is emptied, the area keeps its frames if and only if space s
      has no page that is swept. */
  ghost predicate KeepsAreaIffBare(s: Snap, c: Snap, first: nat) {
    forall u {:trigger Emptied(c, u)} :: Emptied(c, u) && u.top == c.top && u.next == c.next ==>
      (AreaUsed(u, first) <==> forall p :: Page(p) ==> !Victim(s.m, s.top, p))
  }

  /** exec after fork, in the copy: the area keeps its frames if and only if the space
      that was copied had no page that exec sweeps. */
  lemma CopySweepIff(s: Snap, t: Snap, first: nat, supply: Supply, g: nat, own: Owners, made: Pages)
    requires Forked(s, t, first, supply, g, own, made)
    ensures KeepsAreaIffBare(s, CopyOf(t, g, own), first)
  {
    var c := CopyOf(t, g, own);
    CopyArea(s, t, first, supply, g, own, made);
    CopyClashIff(s, t, first, supply, g, own, made);
    forall u | Emptied(c, u) && u.top == c.top && u.next == c.next
      ensures AreaUsed(u, first) <==> forall p :: Page(p) ==> !Victim(s.m, s.top, p)
    {
      SweepKeepsAreaIff(c, u, first);
    }
  }

  lemma CopyFits(s: Snap, t: Snap, first: nat, supply: Supply, g: nat, own: Owners, made: Pages)
    requires Forked(s, t, first, supply, g, own, made)
    ensures Housed(CopyOf(t, g, own), s.next)
    ensures KeepsAreaIffBare(s, CopyOf(t, g, own), first)
  {
    CopyHoused(s, t, first, supply, g, own, made);
    CopySweepIff(s, t, first, supply, g, own, made);
  }

  /** fork's copy, made of heap blocks: the running space goes on as it was. */
  method ForkSpace(s: Space, supply: Supply, ghost first: nat)
    returns (phys: nat, ghost g: nat, ghost own: Owners, ghost made: Pages)
    requires s.Steady() && Held(Now(s), first) && s.root == s.top && WalkTo(s.Mem(), s.top, [0]).Some?
    requires Covers(s.Mem(), s.top, supply, first, s.kernelNext)
    modifies s.ram
    ensures s.Steady() && Held(Now(s), first) && phys == g * PAGE
    ensures Goes(old(Now(s)), Copy(own.Keys + made.Keys), Now(s), first)
    ensures Forked(old(Now(s)), Now(s), first, supply, g, own, made)
    ensures Housed(CopyOf(Now(s), g, own), s.kernelNext) && WalkTo(s.Mem(), g, [0]).Some?
    ensures KeepsAreaIffBare(old(Now(s)), CopyOf(Now(s), g, own), first)
  {
    ghost var was := Now(s);
    HeldReady(was, first, supply);
    ghost var d, e;
    phys, g, own, made, d, e := ClonePml4(s, supply);
    CopyApart(was.m, was.bits, was.max, was.top, was.own, supply, own, made, 0xC_0000);
    StepKeeps(was, Copy(own.Keys + made.Keys), Now(s), first);
    CopyFits(was, Now(s), first, supply, g, own, made);
    FirstStep(s.Mem(), g, [0]);
  }

  /** No page at an address that is swept is mapped. */
  ghost predicate Bare(m: seq<Word>, top: nat) {
    forall page: nat :: page < PAGES && Cleared(page * PAGE) ==> Translate(m, top, page) == None
  }

  lemma BareIff(s: Snap, first: nat)
    requires Housed(s, first)
    ensures Bare(s.m, s.top) <==> forall p :: Page(p) ==> !Victim(s.m, s.top, p)
  {
    HousedOwnFrames(s, first);
    forall page: nat | page < PAGES && Cleared(page * PAGE)
      ensures Page(PathOf(page)) && (Translate(s.m, s.top, page).Some? <==> Victim(s.m, s.top, PathOf(page)))
    {
      PageIs(page);
      SweptIff(page);
      assert HasOwn(s, page);
      if Here(s, page) { HereTranslates(s, page); }
      assert PathOf(page)[..4 - 1] == PathOf(page)[..3];
    }
    forall p | Page(p) && Victim(s.m, s.top, p)
      ensures Cleared(PageNumber(p) * PAGE) && PageNumber(p) < PAGES && PathOf(PageNumber(p)) == p
    {
      UserPath(p);
      SweptIff(PageNumber(p));
    }
  }

  /** A process forks, and the processor goes over to its child. */
  method ForkAndSwitch(s: Space, supply: Supply, ghost first: nat)
    requires s.Steady() && Held(Now(s), first) && s.root == s.top && WalkTo(s.Mem(), s.top, [0]).Some?
    requires Covers(s.Mem(), s.top, supply, first, s.kernelNext)
    modifies s.ram, s`root, s`top, s`own
    ensures s.Steady() && Housed(Now(s), s.kernelNext) && WalkTo(s.Mem(), s.top, [0]).Some?
    ensures KeepsAreaIffBare(old(Now(s)), Now(s), first)
  {
    ghost var was := Now(s);
    var phys;
    ghost var g, own, made;
    phys, g, own, made := ForkSpace(s, supply, first);
    assert phys / PAGE == g;
    Switch(s, phys, WithKernel(own, was.own));
  }

  /** And the child, in the copy, calls exec: the frames that the copy's pages had are
      free again, though the heap's pages map them. */
  method ForkAndEmpty(s: Space, supply: Supply, ghost first: nat)
    requires s.Steady() && Held(Now(s), first) && s.root == s.top && WalkTo(s.Mem(), s.top, [0]).Some?
    requires Covers(s.Mem(), s.top, supply, first, s.kernelNext)
    modifies s.ram, s.frames, s.frames.words, s`root, s`top, s`own
    ensures s.Steady() && Housed(Now(s), s.kernelNext)
    ensures AreaUsed(Now(s), first) <==> old(Bare(s.Mem(), s.top))
  {
    BareIff(Now(s), first);
    ForkAndSwitch(s, supply, first);
    EmptyHoused(s, s.kernelNext);
  }
}

/**
  Emptying the user part of an address space: which pages go, that exactly their
  frames are freed, and that everything else stays. Pages are named by their four
  indices.
 */
module UserSpace {
  import opened Basics
  import opened AddressSpace
  import opened FrameDemand
  import opened Paging
  import opened Tables

  /** The pages the loops free if present: in the first two of the three gigabytes
      they look at, not under the last page directory entry of either, and not in
      the last two entries of a page table. */
  predicate Swept(path: seq<nat>)
    requires |path| == 4
  {
    path[0] == 0 && path[1] < 2 && path[2] != 511 && path[3] < 510
  }

  ghost predicate Victim(m: seq<Word>, top: nat, path: seq<nat>)
    requires Page(path)
  {
    Swept(path) && Present(m, top, path)
  }

  ghost function VictimFrame(m: seq<Word>, top: nat, path: seq<nat>): nat
    requires Page(path) && Victim(m, top, path)
  {
    Leaf(m, top, path).value.frame
  }

  /** Frame f backs a swept page that comes before rank k. */
  ghost predicate Freed(m: seq<Word>, top: nat, f: nat, k: nat) {
    exists p :: Page(p) && Backs(m, top, p, f) && Rank(p) < k
  }

  ghost predicate Backs(m: seq<Word>, top: nat, path: seq<nat>, f: nat)
    requires Page(path)
  {
    Victim(m, top, path) && VictimFrame(m, top, path) == f
  }

  /** A swept page has a frame in use that holds no table. */
  ghost predicate OwnFrame(m: seq<Word>, bits: seq<bool>, max: nat, root: nat, own: Owners, top: nat, path: seq<nat>)
    requires Page(path)
  {
    Victim(m, top, path) ==>
      var f := VictimFrame(m, top, path);
      0 < f < max <= |bits| && f < LOW_FRAMES && bits[f] && f !in own && f != root
  }

  ghost predicate NotShared(m: seq<Word>, top: nat, p: seq<nat>, q: seq<nat>)
    requires Page(p) && Page(q)
  {
    Victim(m, top, p) && Victim(m, top, q) ==> VictimFrame(m, top, p) != VictimFrame(m, top, q)
  }

  /** What the caller owes: the swept pages have frames of their own. */
  ghost predicate OwnFrames(m: seq<Word>, bits: seq<bool>, max: nat, root: nat, top: nat, own: Owners) {
    && (forall p {:trigger OwnFrame(m, bits, max, root, own, top, p)} :: Page(p) ==> OwnFrame(m, bits, max, root, own, top, p))
    && (forall p, q {:trigger NotShared(m, top, p, q)} :: Page(p) && Page(q) && p != q ==> NotShared(m, top, p, q))
  }

  ghost predicate PageAfter(m: seq<Word>, n: seq<Word>, top: nat, k: nat, path: seq<nat>)
    requires Page(path)
  {
    if Rank(path) < k && Victim(m, top, path) then Leaf(n, top, path) == Some(ZERO)
    else SamePath(m, n, top, path) && Leaf(n, top, path) == Leaf(m, top, path)
  }

  ghost predicate FrameAfter(m: seq<Word>, bits: seq<bool>, after: seq<bool>, top: nat, k: nat, f: nat)
    requires f < |bits| == |after|
  {
    after[f] <==> bits[f] && !Freed(m, top, f, k)
  }

  /** Of memory m and bitmap bits, n and after are what is left when the swept pages
      before rank k are gone: their entries are zero and their frames free, and
      nothing else has changed. */
  ghost predicate SweptTo(m: seq<Word>, bits: seq<bool>, n: seq<Word>, after: seq<bool>, top: nat, k: nat) {
    && |n| == |m| && |after| == |bits|
    && (forall p {:trigger PageAfter(m, n, top, k, p)} :: Page(p) ==> PageAfter(m, n, top, k, p))
    && (forall path {:trigger SameTable(m, n, top, path)} :: |path| <= 3 && Plain(path) ==> SameTable(m, n, top, path))
    && (forall f: nat :: f < |bits| ==> FrameAfter(m, bits, after, top, k, f))
  }

  /** A stretch of pages without victims needs no step. */
  lemma SkipPages(m: seq<Word>, bits: seq<bool>, n: seq<Word>, after: seq<bool>, top: nat, k: nat, l: nat)
    requires SweptTo(m, bits, n, after, top, k) && k <= l
    requires forall p :: Page(p) && k <= Rank(p) < l ==> !Victim(m, top, p)
    ensures SweptTo(m, bits, n, after, top, l)
  {
    forall p | Page(p)
      ensures PageAfter(m, n, top, l, p)
    {
      assert PageAfter(m, n, top, k, p);
    }
    forall f: nat | f < |bits|
      ensures FrameAfter(m, bits, after, top, l, f)
    {
      assert FrameAfter(m, bits, after, top, k, f);
      SkipFreed(m, top, f, k, l);
    }
  }

  lemma SkipFreed(m: seq<Word>, top: nat, f: nat, k: nat, l: nat)
    requires k <= l && forall p :: Page(p) && k <= Rank(p) < l ==> !Victim(m, top, p)
    ensures Freed(m, top, f, l) <==> Freed(m, top, f, k)
  {
    if Freed(m, top, f, l) {
      var p :| Page(p) && Backs(m, top, p, f) && Rank(p) < l;
      assert Rank(p) < k;
    }
  }

  /** What has not been reached yet is as it was. */
  lemma VictimStill(m: seq<Word>, bits: seq<bool>, n: seq<Word>, after: seq<bool>, top: nat, path: seq<nat>, k: nat)
    requires Page(path) && k == Rank(path) && SweptTo(m, bits, n, after, top, k)
    ensures Leaf(n, top, path) == Leaf(m, top, path)
  {
    assert PageAfter(m, n, top, k, path);
  }

  lemma FrameStillUsed(m: seq<Word>, bits: seq<bool>, n: seq<Word>, after: seq<bool>, max: nat,
                       root: nat, top: nat, own: Owners, path: seq<nat>, k: nat)
    requires Page(path) && k == Rank(path) && SweptTo(m, bits, n, after, top, k)
    requires OwnFrames(m, bits, max, root, top, own) && Victim(m, top, path)
    ensures var f := VictimFrame(m, top, path);
      0 < f < max <= |after| && after[f] && f !in own && f != root
  {
    var f := VictimFrame(m, top, path);
    assert OwnFrame(m, bits, max, root, own, top, path);
    assert FrameAfter(m, bits, after, top, k, f);
    forall p | Page(p) && Rank(p) < k
      ensures !Backs(m, top, p, f)
    {
      assert NotShared(m, top, p, path);
    }
  }

  /** The write is to a table. */
  lemma SweepKeeps(m: seq<Word>, n: seq<Word>, after: seq<bool>, top: nat, own: Owners, path: seq<nat>, t: nat,
                   o: seq<Word>)
    requires Page(path) && Rooted(n, after, top, own) && WalkTo(n, top, path[..3]) == Some(t)
    requires Key(t, path[3]) < |n| && o == n[Key(t, path[3]) := ZERO]
    requires Kept(m, n, own.Keys)
    ensures Kept(m, o, own.Keys)
  {
    LeafOwner(n, after, top, own, t, path);
    EntryKept(n, o, t, path[3]);
    KeptThen(m, n, o, own.Keys, {t});
    assert own.Keys + {t} == own.Keys;
  }

  /** Freeing one swept page: its frame's bit is cleared and its entry zeroed. */
  lemma SweepOne(m: seq<Word>, bits: seq<bool>, n: seq<Word>, after: seq<bool>, max: nat,
                 root: nat, top: nat, own: Owners, path: seq<nat>, t: nat, o: seq<Word>, k: nat)
    requires Page(path) && k == Rank(path) && SweptTo(m, bits, n, after, top, k)
    requires OwnFrames(m, bits, max, root, top, own) && Victim(m, top, path)
    requires Tabled(n, after, max, root, top, own)
    requires WalkTo(n, top, path[..3]) == Some(t)
    requires Key(t, path[3]) < |n| && o == n[Key(t, path[3]) := ZERO]
    ensures VictimFrame(m, top, path) < |after|
    ensures Tabled(o, after[VictimFrame(m, top, path) := false], max, root, top, own)
    ensures SweptTo(m, bits, o, after[VictimFrame(m, top, path) := false], top, k + 1)
  {
    var g := VictimFrame(m, top, path);
    FrameStillUsed(m, bits, n, after, max, root, top, own, path, k);
    SweepKeepsTables(n, after, max, root, top, own, path, t, o, g);
    var l := k + 1;
    forall p | Page(p)
      ensures PageAfter(m, o, top, l, p)
    {
      assert PageAfter(m, n, top, k, p);
      OtherPages(n, after, max, root, top, own, path, t, o, p);
      if Swept(p) && Rank(p) == k { RankUnique(p, path); }
    }
    forall q | |q| <= 3 && Plain(q)
      ensures SameTable(m, o, top, q)
    {
      assert SameTable(m, n, top, q) && SameTable(n, o, top, q);
    }
    FramesFreed(m, bits, after, top, path, k, l);
  }

  lemma FramesFreed(m: seq<Word>, bits: seq<bool>, after: seq<bool>, top: nat, path: seq<nat>, k: nat, l: nat)
    requires |path| == 4 && k == Rank(path) && l == k + 1
    requires Page(path) && Victim(m, top, path) && VictimFrame(m, top, path) < |after| == |bits|
    requires forall f: nat :: f < |bits| ==> FrameAfter(m, bits, after, top, k, f)
    ensures var gone := after[VictimFrame(m, top, path) := false];
      forall f: nat :: f < |bits| ==> FrameAfter(m, bits, gone, top, l, f)
  {
    var g := VictimFrame(m, top, path);
    var gone := after[g := false];
    forall f: nat | f < |bits|
      ensures FrameAfter(m, bits, gone, top, l, f)
    {
      assert FrameAfter(m, bits, after, top, k, f);
      if f == g {
        assert Backs(m, top, path, f);
      } else if Freed(m, top, f, l) {
        var p :| Page(p) && Backs(m, top, p, f) && Rank(p) < l;
        if Rank(p) == Rank(path) { RankUnique(p, path); }
      }
    }
  }

  lemma SweepKeepsTables(n: seq<Word>, after: seq<bool>, max: nat, root: nat, top: nat, own: Owners,
                         path: seq<nat>, t: nat, k: seq<Word>, g: nat)
    requires Tabled(n, after, max, root, top, own) && Page(path)
    requires WalkTo(n, top, path[..3]) == Some(t)
    requires Key(t, path[3]) < |n| && k == n[Key(t, path[3]) := ZERO]
    requires g < |after| && g !in own && g != root
    ensures Tabled(k, after[g := false], max, root, top, own)
    ensures forall q :: |q| <= 3 && Plain(q) ==> SameTable(n, k, top, q)
  {
    WalkOwner(n, after, top, own, path[..3]);
    LeafKeepsTree(n, k, after, top, own, t, path[3]);
    StepElsewhere(n, k, t, path[3], root, SELF);
    forall f | f in own
      ensures TableOk(k, after[g := false], own, f)
    {
      assert TableOk(k, after, own, f);
    }
    forall q | |q| <= 3 && Plain(q)
      ensures SameTable(n, k, top, q)
    {
      WriteElsewhere(n, k, after, top, own, t, path[3], q);
    }
  }

  lemma OtherPages(n: seq<Word>, after: seq<bool>, max: nat, root: nat, top: nat, own: Owners,
                   path: seq<nat>, t: nat, k: seq<Word>, p: seq<nat>)
    requires Tabled(n, after, max, root, top, own) && Page(path) && Page(p)
    requires WalkTo(n, top, path[..3]) == Some(t)
    requires Key(t, path[3]) < |n| && k == n[Key(t, path[3]) := ZERO]
    ensures p == path ==> Leaf(k, top, p) == Some(ZERO)
    ensures p != path ==> SamePath(n, k, top, p) && Leaf(k, top, p) == Leaf(n, top, p)
  {
    LeafWalk(n, k, after, top, own, t, path);
    if p != path {
      PathElsewhere(n, k, after, top, own, t, path[3], p);
    }
  }

  /** A table that is absent holds no victim. */
  lemma NoTableNoVictim(m: seq<Word>, top: nat, table: seq<nat>, path: seq<nat>)
    requires 0 < |table| <= 3 && table <= path && Page(path) && WalkTo(m, top, table) == None
    ensures !Victim(m, top, path)
  {
    assert path[..3][..|table|] == table;
    NoneBeyond(m, top, path[..3], |table|);
  }

  /** So the pages under it, which are those of ranks k to l, can be skipped. */
  lemma SkipTable(m: seq<Word>, bits: seq<bool>, n: seq<Word>, after: seq<bool>, top: nat, table: seq<nat>,
                  k: nat, l: nat)
    requires 2 <= |table| <= 3 && table[0] == 0 && table[1] < ENTRIES && WalkTo(m, top, table) == None
    requires |table| == 3 ==> table[2] < 512 && k == table[1] * 0x4_0000 + table[2] * 512 && l == k + 512
    requires |table| == 2 ==> k == table[1] * 0x4_0000 && l == k + 0x4_0000
    requires SweptTo(m, bits, n, after, top, k)
    ensures SweptTo(m, bits, n, after, top, l)
  {
    forall p | Page(p) && k <= Rank(p) < l
      ensures !Victim(m, top, p)
    {
      if Swept(p) {
        assert p[1] == table[1] && (|table| == 3 ==> p[2] == table[2]);
        assert table <= p;
        NoTableNoVictim(m, top, table, p);
      }
    }
    SkipPages(m, bits, n, after, top, k, l);
  }

  /** What the sweep keeps of the space it works on. */
  ghost predicate Sweeping(s: Space, m: seq<Word>, bits: seq<bool>, k: nat)
    reads s, s.ram, s.frames, s.frames.words
  {
    && s.Steady()
    && Kept(m, s.Mem(), s.own.Keys)
    && SweptTo(m, bits, s.Mem(), s.Used(), s.top, k)
  }

  /** Reads the present bit of the entry at a path through the window: it says
      whether there was a table to begin with. */
  method TableThere(s: Space, path: seq<nat>, ghost m: seq<Word>, ghost bits: seq<bool>, ghost k: nat)
    returns (there: bool)
    requires Sweeping(s, m, bits, k) && 1 <= |path| <= 3 && Plain(path)
    requires WalkTo(m, s.top, path[..|path| - 1]).Some?
    ensures there == WalkTo(m, s.top, path).Some?
  {
    ghost var n := s.Mem();
    ghost var front := path[..|path| - 1];
    assert SameTable(m, n, s.top, front) && SameTable(m, n, s.top, path);
    WindowEntry(n, s.Used(), s.frames.maxBlocks, s.root, s.top, s.own, path);
    var w := s.ReadAt(WindowAddress(path));
    there := w.present;
    ghost var f := WalkTo(n, s.top, front).value;
    if there {
      PresentLeads(n, s.Used(), s.frames.maxBlocks, s.root, s.top, s.own, path, f);
    } else {
      StepAbsent(n, s.Used(), s.frames.maxBlocks, s.root, s.top, s.own, path, f);
    }
  }

  /** Frees the frame of a swept page and zeroes its entry. */
  method Reclaim(s: Space, va: nat, w: Word, ghost path: seq<nat>, ghost t: nat,
                 ghost m: seq<Word>, ghost bits: seq<bool>, ghost k: nat)
    requires Page(path) && k == Rank(path) && Sweeping(s, m, bits, k)
    requires Victim(m, s.top, path) && VictimFrame(m, s.top, path) == w.frame
    requires WalkTo(s.Mem(), s.top, path[..3]) == Some(t)
    requires Key(t, path[3]) < |s.Mem()| && Resolve(s.Mem(), s.root, va) == Some(Key(t, path[3]))
    requires OwnFrames(m, bits, s.frames.maxBlocks, s.root, s.top, s.own)
    modifies s.ram, s.frames, s.frames.words
    ensures Sweeping(s, m, bits, k + 1)
  {
    ghost var n, after := s.Mem(), s.Used();
    FrameStillUsed(m, bits, n, after, s.frames.maxBlocks, s.root, s.top, s.own, path, k);
    assert OwnFrame(m, bits, s.frames.maxBlocks, s.root, s.own, s.top, path);
    FrameAddressIff(w.frame);
    s.frames.FreeBlock(FrameAddress(w.frame));
    s.WriteAt(va, ZERO);
    SweepOne(m, bits, n, after, s.frames.maxBlocks, s.root, s.top, s.own, path, t, s.Mem(), k);
    SweepKeeps(m, n, after, s.top, s.own, path, t, s.Mem());
  }

  /** The innermost body of the loops, for the page at a path. */
  method SweepPage(s: Space, path: seq<nat>, ghost m: seq<Word>, ghost bits: seq<bool>, ghost k: nat)
    requires Page(path) && path[0] == 0 && path[1] < 3
    requires k == Rank(path) && Sweeping(s, m, bits, k)
    requires WalkTo(m, s.top, path[..3]).Some?
    requires OwnFrames(m, bits, s.frames.maxBlocks, s.root, s.top, s.own)
    modifies s.ram, s.frames, s.frames.words
    ensures Sweeping(s, m, bits, k + 1)
  {
    ghost var n := s.Mem();
    assert SameTable(m, n, s.top, path[..3]);
    ghost var t := WalkTo(n, s.top, path[..3]).value;
    WindowEntry(n, s.Used(), s.frames.maxBlocks, s.root, s.top, s.own, path);
    VictimStill(m, bits, n, s.Used(), s.top, path, k);
    var va := WindowAddress(path);
    var w := s.ReadAt(va);
    if w.present && path[3] < 510 && path[2] != 511 && path[1] != 2 {
      Reclaim(s, va, w, path, t, m, bits, k);
    } else {
      SkipOne(m, bits, n, s.Used(), s.top, path, k);
    }
  }

  lemma SkipOne(m: seq<Word>, bits: seq<bool>, n: seq<Word>, after: seq<bool>, top: nat, path: seq<nat>, k: nat)
    requires Page(path) && path[0] == 0 && !Victim(m, top, path)
    requires k == Rank(path) && SweptTo(m, bits, n, after, top, k)
    ensures SweptTo(m, bits, n, after, top, k + 1)
  {
    forall p | Page(p) && k <= Rank(p) < k + 1
      ensures !Victim(m, top, p)
    {
      if Swept(p) {
        assert p[1] == path[1] && p[2] == path[2] && p[3] == path[3];
        assert p == path;
      }
    }
    SkipPages(m, bits, n, after, top, k, k + 1);
  }

  method SweepTable(s: Space, table: seq<nat>, ghost m: seq<Word>, ghost bits: seq<bool>, ghost k: nat)
    requires |table| == 3 && Plain(table) && table[0] == 0 && table[1] < 3
    requires k == table[1] * 0x4_0000 + table[2] * 512 && Sweeping(s, m, bits, k)
    requires WalkTo(m, s.top, table[..2]).Some?
    requires OwnFrames(m, bits, s.frames.maxBlocks, s.root, s.top, s.own)
    modifies s.ram, s.frames, s.frames.words
    ensures Sweeping(s, m, bits, k + 512)
  {
    var there := TableThere(s, table, m, bits, k);
    if there {
      SweepEntries(s, table, m, bits, k);
    } else {
      SkipTable(m, bits, s.Mem(), s.Used(), s.top, table, k, k + 512);
    }
  }

  method SweepEntries(s: Space, table: seq<nat>, ghost m: seq<Word>, ghost bits: seq<bool>, ghost k: nat)
    requires |table| == 3 && Plain(table) && table[0] == 0 && table[1] < 3
    requires k == table[1] * 0x4_0000 + table[2] * 512 && Sweeping(s, m, bits, k)
    requires WalkTo(m, s.top, table).Some?
    requires OwnFrames(m, bits, s.frames.maxBlocks, s.root, s.top, s.own)
    modifies s.ram, s.frames, s.frames.words
    ensures Sweeping(s, m, bits, k + 512)
  {
    ghost var r := k;
    for y := 0 to 512
      invariant r == k + y && Sweeping(s, m, bits, r)
    {
      PageOf(table, y);
      var path: seq<nat> := table + [y];
      SweepPage(s, path, m, bits, r);
      r := r + 1;
    }
  }

  method SweepDirectory(s: Space, directory: seq<nat>, ghost m: seq<Word>, ghost bits: seq<bool>, ghost k: nat)
    requires |directory| == 2 && Plain(directory) && directory[0] == 0 && directory[1] < 3
    requires k == directory[1] * 0x4_0000 && Sweeping(s, m, bits, k)
    requires WalkTo(m, s.top, directory[..1]).Some?
    requires OwnFrames(m, bits, s.frames.maxBlocks, s.root, s.top, s.own)
    modifies s.ram, s.frames, s.frames.words
    ensures Sweeping(s, m, bits, k + 0x4_0000)
  {
    var there := TableThere(s, directory, m, bits, k);
    if there {
      SweepTables(s, directory, m, bits, k);
    } else {
      SkipTable(m, bits, s.Mem(), s.Used(), s.top, directory, k, k + 0x4_0000);
    }
  }

  method SweepTables(s: Space, directory: seq<nat>, ghost m: seq<Word>, ghost bits: seq<bool>, ghost k: nat)
    requires |directory| == 2 && Plain(directory) && directory[0] == 0 && directory[1] < 3
    requires k == directory[1] * 0x4_0000 && Sweeping(s, m, bits, k)
    requires WalkTo(m, s.top, directory).Some?
    requires OwnFrames(m, bits, s.frames.maxBlocks, s.root, s.top, s.own)
    modifies s.ram, s.frames, s.frames.words
    ensures Sweeping(s, m, bits, k + 0x4_0000)
  {
    ghost var r := k;
    for z := 0 to 512
      invariant r == k + z * 512 && Sweeping(s, m, bits, r)
    {
      Under(directory, z);
      var table: seq<nat> := directory + [z];
      SweepTable(s, table, m, bits, r);
      r := r + 512;
    }
  }

  /** A swept page that was present is unmapped; any other is as before. */
  ghost predicate PageSwept(m: seq<Word>, n: seq<Word>, top: nat, path: seq<nat>)
    requires Page(path)
  {
    if Victim(m, top, path) then WalkTo(n, top, path) == None && Leaf(n, top, path) == Some(ZERO)
    else SamePath(m, n, top, path)
  }

  ghost predicate FrameSwept(m: seq<Word>, bits: seq<bool>, after: seq<bool>, top: nat, f: nat)
    requires f < |bits| == |after|
  {
    after[f] <==> bits[f] && !(exists p :: Page(p) && Backs(m, top, p, f))
  }

  /** Address a lies below 2 GB, neither in the last 2 MB of its gigabyte nor in the last
      8 KB of its stretch of 2 MB. */
  predicate Cleared(a: nat) {
    a < 0x8000_0000 && a % 0x4000_0000 < 0x4000_0000 - 0x20_0000 && a % 0x20_0000 < 0x20_0000 - 0x2000
  }

  /** These are the addresses of the swept pages. */
  lemma SweptIff(page: nat)
    requires page < PAGES
    ensures Swept(PathOf(page)) <==> Cleared(page * PAGE)
  {
    Recompose(page);
    var p := PathOf(page);
    var low, mid := p[3], p[2] * 512 + p[3];
    assert page % 512 == low && page % 0x4_0000 == mid;
    InStretch(page);
    InGigabyte(page);
  }

  lemma InStretch(page: nat)
    ensures page * PAGE % 0x20_0000 == page % 512 * PAGE
  {
    var q, r := page / 512, page % 512;
    assert page * PAGE == q * 0x20_0000 + r * PAGE && r * PAGE < 0x20_0000;
  }

  lemma InGigabyte(page: nat)
    ensures page * PAGE % 0x4000_0000 == page % 0x4_0000 * PAGE
  {
    var q, r := page / 0x4_0000, page % 0x4_0000;
    assert page * PAGE == q * 0x4000_0000 + r * PAGE && r * PAGE < 0x4000_0000;
  }

  /** What becomes of a page, by its address: unmapped with its frame free, or as it was. */
  ghost predicate PageCleared(m: seq<Word>, n: seq<Word>, after: seq<bool>, top: nat, page: nat) {
    if Cleared(page * PAGE) then
      && Translate(n, top, page) == None
      && (Translate(m, top, page).Some? ==>
           Translate(m, top, page).value < |after| && !after[Translate(m, top, page).value])
    else Translate(n, top, page) == Translate(m, top, page)
  }

  ghost predicate ClearedOnto(m: seq<Word>, top: nat, f: nat, page: nat) {
    page < PAGES && Cleared(page * PAGE) && Translate(m, top, page) == Some(f)
  }

  /** A frame is in use afterwards exactly if it was and no cleared page maps to it. */
  ghost predicate FrameCleared(m: seq<Word>, bits: seq<bool>, after: seq<bool>, top: nat, f: nat)
    requires f < |bits| == |after|
  {
    after[f] <==> bits[f] && !(exists page: nat :: ClearedOnto(m, top, f, page))
  }

  lemma BacksIff(m: seq<Word>, bits: seq<bool>, max: nat, root: nat, top: nat, own: Owners, page: nat, f: nat)
    requires Tabled(m, bits, max, root, top, own) && OwnFrames(m, bits, max, root, top, own) && page < PAGES
    ensures Page(PathOf(page))
    ensures Backs(m, top, PathOf(page), f) <==> ClearedOnto(m, top, f, page)
    ensures Backs(m, top, PathOf(page), f) ==> f < max
  {
    PagePaths(page);
    SweptIff(page);
    assert OwnFrame(m, bits, max, root, own, top, PathOf(page));
    assert PathOf(page)[..4 - 1] == PathOf(page)[..3];
  }

  /** What the sweep has done, by addresses. */
  lemma SweptByAddress(m: seq<Word>, bits: seq<bool>, n: seq<Word>, after: seq<bool>, max: nat, root: nat, top: nat, own: Owners)
    requires Tabled(m, bits, max, root, top, own) && OwnFrames(m, bits, max, root, top, own) && |after| == |bits|
    requires forall p {:trigger PageSwept(m, n, top, p)} :: Page(p) ==> PageSwept(m, n, top, p)
    requires forall f: nat {:trigger FrameSwept(m, bits, after, top, f)} :: f < |bits| ==> FrameSwept(m, bits, after, top, f)
    ensures forall page: nat :: page < PAGES ==> PageCleared(m, n, after, top, page)
    ensures forall f: nat :: f < |bits| ==> FrameCleared(m, bits, after, top, f)
  {
    forall page: nat | page < PAGES
      ensures PageCleared(m, n, after, top, page)
    {
      PagePaths(page);
      SweptIff(page);
      var p := PathOf(page);
      assert PageSwept(m, n, top, p) && p[..4 - 1] == p[..3];
      if Cleared(page * PAGE) && Translate(m, top, page).Some? {
        var f := Translate(m, top, page).value;
        BacksIff(m, bits, max, root, top, own, page, f);
        assert FrameSwept(m, bits, after, top, f);
      }
    }
    forall f: nat | f < |bits|
      ensures FrameCleared(m, bits, after, top, f)
    {
      assert FrameSwept(m, bits, after, top, f);
      if p :| Page(p) && Backs(m, top, p, f) {
        NumberedPath(p);
        BacksIff(m, bits, max, root, top, own, PageNumber(p), f);
        assert ClearedOnto(m, top, f, PageNumber(p));
      }
      if page: nat :| ClearedOnto(m, top, f, page) {
        BacksIff(m, bits, max, root, top, own, page, f);
      }
    }
  }

  /** A program at 4 MB, where the linker puts it, goes; the two stacks below 3 GB stay. */
  lemma ProgramGoesStacksStay(m: seq<Word>, n: seq<Word>, after: seq<bool>, top: nat)
    requires forall page: nat :: page < PAGES ==> PageCleared(m, n, after, top, page)
    ensures Translate(n, top, 0x40_0000 / PAGE) == None
    ensures Translate(n, top, 0xbfff_e000 / PAGE) == Translate(m, top, 0xbfff_e000 / PAGE)
    ensures Translate(n, top, 0xbfff_f000 / PAGE) == Translate(m, top, 0xbfff_f000 / PAGE)
  {
    assert 0x40_0000 / PAGE * PAGE == 0x40_0000 && 0xbfff_e000 / PAGE * PAGE == 0xbfff_e000;
    assert PageCleared(m, n, after, top, 0x40_0000 / PAGE);
    assert PageCleared(m, n, after, top, 0xbfff_e000 / PAGE) && PageCleared(m, n, after, top, 0xbfff_f000 / PAGE);
  }

  /** clean_user_space: every page below 2 GB is unmapped and its frame freed, except in
      the last 2 MB of each gigabyte and the last 8 KB of each stretch of 2 MB; no other
      page, table or frame changes, no word outside the tables is written, and the
      counter of used frames keeps agreeing with the bitmap. */
  method CleanUserSpace(s: Space)
    requires s.Steady() && WalkTo(s.Mem(), s.top, [0]).Some?
    requires OwnFrames(s.Mem(), s.Used(), s.frames.maxBlocks, s.root, s.top, s.own)
    modifies s.ram, s.frames, s.frames.words
    ensures s.Steady() && |s.Used()| == |old(s.Used())|
    ensures Kept(old(s.Mem()), s.Mem(), s.own.Keys)
    ensures forall page: nat :: page < PAGES ==> PageCleared(old(s.Mem()), s.Mem(), s.Used(), s.top, page)
    ensures forall f: nat :: f < |s.Used()| ==> FrameCleared(old(s.Mem()), old(s.Used()), s.Used(), s.top, f)
    ensures forall path :: Page(path) ==> PageSwept(old(s.Mem()), s.Mem(), s.top, path)
    ensures TablesStay(old(s.Mem()), s.Mem(), s.top)
    ensures forall f: nat :: f < |s.Used()| ==> FrameSwept(old(s.Mem()), old(s.Used()), s.Used(), s.top, f)
  {
    ghost var m, bits := s.Mem(), s.Used();
    Untouched(m, bits, s.top);
    var first: seq<nat> := [0];
    ghost var r := 0;
    for i := 0 to 3
      invariant r == i * 0x4_0000 && Sweeping(s, m, bits, r)
    {
      Under(first, i);
      var directory: seq<nat> := first + [i];
      SweepDirectory(s, directory, m, bits, r);
      r := r + 0x4_0000;
    }
    AllSwept(m, bits, s.Mem(), s.Used(), s.top, r);
    SweptByAddress(m, bits, s.Mem(), s.Used(), s.frames.maxBlocks, s.root, s.top, s.own);
  }

  lemma Untouched(m: seq<Word>, bits: seq<bool>, top: nat)
    ensures SweptTo(m, bits, m, bits, top, 0)
  {
  }

  lemma AllSwept(m: seq<Word>, bits: seq<bool>, n: seq<Word>, after: seq<bool>, top: nat, k: nat)
    requires SweptTo(m, bits, n, after, top, k) && k == 3 * 0x4_0000
    ensures forall path {:trigger PageSwept(m, n, top, path)} :: Page(path) ==> PageSwept(m, n, top, path)
    ensures forall f: nat :: f < |bits| ==> FrameSwept(m, bits, after, top, f)
  {
    forall p | Page(p)
      ensures PageSwept(m, n, top, p)
    {
      assert PageAfter(m, n, top, k, p);
      if Victim(m, top, p) {
        assert p[..4 - 1] == p[..3] && Rank(p) < k;
      }
    }
    forall f: nat | f < |bits|
      ensures FrameSwept(m, bits, after, top, f)
    {
      assert FrameAfter(m, bits, after, top, k, f);
      assert forall p :: Page(p) && Backs(m, top, p, f) ==> Rank(p) < k;
    }
  }

  // ----- a new program's pages ---------------------------------------------------------

  lemma PagesHaveTables(m: seq<Word>, n: seq<Word>, top: nat, first: nat, size: nat)
    requires TablesStay(m, n, top) && first + size <= PAGES
    requires forall p: nat :: first <= p < first + size ==> WalkTo(m, top, PathOf(p)[..3]).Some?
    ensures forall p: nat :: first <= p < first + size ==> WalkTo(n, top, PathOf(p)[..3]).Some?
  {
    forall p: nat | first <= p < first + size
      ensures WalkTo(n, top, PathOf(p)[..3]).Some?
    {
      LevelOf(p, 3);
      assert SameTable(m, n, top, PathOf(p)[..3]);
    }
  }

  /** What exec does to the address space for a segment that lies where the old program
      had its tables: user space is emptied, and then the segment's pages are mapped.
      The tables are still there, so it does not matter what the frames hold that the
      old program has left. */
  method EmptyAndMap(s: Space, virtual: nat, size: nat) returns (r: nat, ghost fs: seq<nat>, ghost mid: seq<Word>)
    requires s.Steady() && WalkTo(s.Mem(), s.top, [0]).Some?
    requires OwnFrames(s.Mem(), s.Used(), s.frames.maxBlocks, s.root, s.top, s.own)
    requires virtual % PAGE == 0 && size > 0 && virtual / PAGE + size <= PAGES
    requires forall p: nat :: virtual / PAGE <= p < virtual / PAGE + size ==> WalkTo(s.Mem(), s.top, PathOf(p)[..3]).Some?
    modifies s.ram, s.frames, s.frames.words, s`own
    ensures s.Steady() && r == (if |fs| == size then virtual else 0)
    ensures forall path :: Page(path) ==> PageSwept(old(s.Mem()), mid, s.top, path)
    ensures MapsRun(mid, s.Mem(), s.top, virtual / PAGE, fs, true)
    ensures |fs| <= size && (|fs| < size ==> Exhausted(s.Used(), s.frames.maxBlocks))
  {
    CleanUserSpace(s);
    mid := s.Mem();
    PagesHaveTables(old(s.Mem()), mid, s.top, virtual / PAGE, size);
    TablesThere(mid, s.Used(), s.frames.maxBlocks, s.top, virtual / PAGE, virtual / PAGE, size, 1);
    r, fs := s.AllocPage(virtual, size);
  }
}

/**
  Copying the running address space: the first three gigabytes page by page, the
  kernel's gigabyte by sharing one entry. The new tables and pages are blocks of the
  kernel heap, written at their virtual addresses.
 */
module CloneSpace {
  import opened Basics
  import opened AddressSpace
  import opened Copies
  import opened FrameDemand
  import opened Paging
  import opened Tables

  /** The kernel page that kmalloc_a returns for each table and page of the copy, by
      the path it will have there. */
  type Supply = map<seq<nat>, nat>

  ghost predicate Spare(m: seq<Word>, bits: seq<bool>, top: nat, own: Owners, supply: Supply, q: seq<nat>)
    requires q in supply
  {
    && supply[q] < PAGES && Translate(m, top, supply[q]).Some?
    && var h := Translate(m, top, supply[q]).value;
       h !in own && h < |bits| && bits[h] && h < LOW_FRAMES
  }

  ghost function FrameFor(m: seq<Word>, top: nat, supply: Supply, q: seq<nat>): nat {
    if q in supply && Translate(m, top, supply[q]).Some? then Translate(m, top, supply[q]).value else 0
  }

  ghost predicate Unlike(m: seq<Word>, top: nat, supply: Supply, p: seq<nat>, q: seq<nat>) {
    FrameFor(m, top, supply, p) != FrameFor(m, top, supply, q)
  }

  ghost predicate OwnSource(m: seq<Word>, top: nat, supply: Supply, p: seq<nat>)
    requires Page(p)
  {
    Source(m, top, p) ==>
      && p in supply && SourceFrame(m, top, p) * ENTRIES + ENTRIES <= |m|
      && forall q {:trigger NotTaken(m, top, supply, q, p)} :: q in supply ==> NotTaken(m, top, supply, q, p)
  }

  ghost predicate NotTaken(m: seq<Word>, top: nat, supply: Supply, q: seq<nat>, p: seq<nat>)
    requires Page(p) && Source(m, top, p)
  {
    FrameFor(m, top, supply, q) != SourceFrame(m, top, p)
  }

  ghost predicate TableSupplied(m: seq<Word>, top: nat, supply: Supply, q: seq<nat>) {
    WalkTo(m, top, q).Some? ==> q in supply
  }

  /** The heap has a block for everything the copy needs, each mapped to a frame of
      its own that holds no table and backs no page below 3 GB. */
  ghost predicate Ready(m: seq<Word>, bits: seq<bool>, max: nat, top: nat, own: Owners, supply: Supply) {
    && Tabled(m, bits, max, top, top, own)
    && [] in supply && [0] in supply
    && (forall q {:trigger Spare(m, bits, top, own, supply, q)} :: q in supply ==> Spare(m, bits, top, own, supply, q))
    && (forall p, q {:trigger Unlike(m, top, supply, p, q)} ::
         p in supply && q in supply && p != q ==> Unlike(m, top, supply, p, q))
    && (forall q {:trigger TableSupplied(m, top, supply, q)} ::
         2 <= |q| <= 3 && Plain(q) && q[0] == 0 && q[1] < 3 ==> TableSupplied(m, top, supply, q))
    && (forall p {:trigger OwnSource(m, top, supply, p)} :: Page(p) ==> OwnSource(m, top, supply, p))
  }

  /** Every table and page of the copy so far is in the frame supplied for it, and
      the pages have rank below r. */
  ghost predicate Supplied(m: seq<Word>, top: nat, supply: Supply, own: Owners, made: Pages, r: nat) {
    && (forall f {:trigger For(m, top, supply, f, own)} :: f in own ==> For(m, top, supply, f, own))
    && (forall f {:trigger For(m, top, supply, f, made)} :: f in made ==>
         For(m, top, supply, f, made) && Page(made[f]) && made[f][0] == 0 && Rank(made[f]) < r)
  }

  /** Frame f is the one supplied for its path. */
  ghost predicate For(m: seq<Word>, top: nat, supply: Supply, f: nat, paths: map<nat, seq<nat>>)
    requires f in paths
  {
    paths[f] in supply && f == FrameFor(m, top, supply, paths[f])
  }

  /** The state of the work: the old space is unchanged outside the frames taken. */
  ghost predicate Cloning(s: Space, m: seq<Word>, supply: Supply, g: nat, own: Owners, made: Pages, r: nat)
    reads s, s.ram, s.frames, s.frames.words
  {
    && s.Steady() && s.root == s.top
    && Kept(m, s.Mem(), own.Keys + made.Keys)
    && Supplied(m, s.top, supply, own, made, r)
    && Copying(m, s.top, s.Mem(), s.Used(), g, own, made, r)
  }

  // ----- writing through a kernel page -----------------------------------------------

  /** The word at offset 8 * j of a page. */
  lemma PageWord(m: seq<Word>, root: nat, page: nat, j: nat)
    requires page < PAGES && j < ENTRIES
    ensures Resolve(m, root, page * PAGE + 8 * j) == match Translate(m, root, page)
      case None => None
      case Some(f) => Some(Key(f, j))
  {
    var va := page * PAGE + 8 * j;
    assert va / PAGE == page && va % PAGE == 8 * j;
  }

  lemma KeptTabled(m: seq<Word>, n: seq<Word>, bits: seq<bool>, max: nat, root: nat, top: nat, own: Owners, used: set<nat>)
    requires Tabled(m, bits, max, root, top, own) && root == top
    requires Kept(m, n, used) && own.Keys !! used
    ensures Tabled(n, bits, max, root, top, own)
  {
    KeptRooted(m, n, bits, top, own, used);
    KeptStep(m, n, used, top, SELF);
  }

  /** A kernel page stays where it is. */
  ghost predicate At(s: Space, page: nat, h: nat)
    reads s, s.ram, s.frames
  {
    page < PAGES && h !in s.own && h * ENTRIES + ENTRIES <= s.ram.Length && Translate(s.Mem(), s.top, page) == Some(h)
  }

  lemma AtKept(m: seq<Word>, n: seq<Word>, bits: seq<bool>, top: nat, own: Owners, used: set<nat>, page: nat)
    requires Rooted(m, bits, top, own) && Kept(m, n, used) && own.Keys !! used && page < PAGES
    ensures Translate(n, top, page) == Translate(m, top, page)
  {
    PagePaths(page);
    KeptWalk(m, n, bits, top, own, used, PathOf(page));
  }

  method StoreWord(s: Space, page: nat, j: nat, w: Word, ghost h: nat)
    requires s.Steady() && s.root == s.top && At(s, page, h) && j < ENTRIES
    modifies s.ram
    ensures s.Steady() && At(s, page, h)
    ensures s.Mem() == old(s.Mem())[Key(h, j) := w]
    ensures Kept(old(s.Mem()), s.Mem(), {h})
  {
    ghost var m := s.Mem();
    PageWord(m, s.root, page, j);
    s.WriteAt(page * PAGE + 8 * j, w);
    EntryKept(m, s.Mem(), h, j);
    KeptTabled(m, s.Mem(), s.Used(), s.frames.maxBlocks, s.root, s.top, s.own, {h});
    AtKept(m, s.Mem(), s.Used(), s.top, s.own, {h}, page);
  }

  method LoadWord(s: Space, page: nat, j: nat, ghost f: nat) returns (w: Word)
    requires page < PAGES && j < ENTRIES && Translate(s.Mem(), s.root, page) == Some(f)
    ensures Key(f, j) < |s.Mem()| && w == s.Mem()[Key(f, j)]
  {
    PageWord(s.Mem(), s.root, page, j);
    w := s.ReadAt(page * PAGE + 8 * j);
  }

  lemma KeptTwice(m: seq<Word>, n: seq<Word>, k: seq<Word>, h: nat)
    requires Kept(m, n, {h}) && Kept(n, k, {h})
    ensures Kept(m, k, {h})
  {
    KeptThen(m, n, k, {h}, {h});
    assert {h} + {h} == {h};
  }

  /** mem_clear_block. */
  method ClearBlock(s: Space, page: nat, ghost h: nat)
    requires s.Steady() && s.root == s.top && At(s, page, h)
    modifies s.ram
    ensures s.Steady() && At(s, page, h)
    ensures Blank(s.Mem(), h) && Kept(old(s.Mem()), s.Mem(), {h})
  {
    ghost var m := s.Mem();
    for j := 0 to 512
      invariant s.Steady() && At(s, page, h) && Kept(m, s.Mem(), {h})
      invariant forall i :: 0 <= i < j ==> s.Mem()[Key(h, i)] == ZERO
    {
      ghost var n := s.Mem();
      StoreWord(s, page, j, ZERO, h);
      KeptTwice(m, n, s.Mem(), h);
    }
  }

  /** The first j words of frame h of n are those of frame f of m. */
  ghost predicate Copied(m: seq<Word>, f: nat, n: seq<Word>, h: nat, j: nat) {
    && f * ENTRIES + ENTRIES <= |m| && h * ENTRIES + ENTRIES <= |n| && j <= ENTRIES
    && forall i: nat :: i < j ==> n[Key(h, i)] == m[Key(f, i)]
  }

  lemma CopiedNext(m: seq<Word>, f: nat, n: seq<Word>, h: nat, j: nat, w: Word, k: seq<Word>)
    requires Copied(m, f, n, h, j) && j < ENTRIES && w == m[Key(f, j)] && k == n[Key(h, j) := w]
    ensures Copied(m, f, k, h, j + 1)
  {
  }

  /** mem_copy_block, from a page of another frame. */
  method CopyBlock(s: Space, from: nat, to: nat, ghost f: nat, ghost h: nat)
    requires s.Steady() && s.root == s.top && At(s, to, h) && f != h
    requires from < PAGES && Translate(s.Mem(), s.top, from) == Some(f) && f * ENTRIES + ENTRIES <= s.ram.Length
    modifies s.ram
    ensures s.Steady() && At(s, to, h)
    ensures SameBlock(old(s.Mem()), f, s.Mem(), h) && Kept(old(s.Mem()), s.Mem(), {h})
  {
    ghost var m := s.Mem();
    for j := 0 to 512
      invariant s.Steady() && At(s, to, h) && Kept(m, s.Mem(), {h})
      invariant Copied(m, f, s.Mem(), h, j)
    {
      ghost var n := s.Mem();
      AtKept(m, n, s.Used(), s.top, s.own, {h}, from);
      var w := LoadWord(s, from, j, f);
      KeptStep(m, n, {h}, f, j);
      StoreWord(s, to, j, w, h);
      CopiedNext(m, f, n, h, j, w, s.Mem());
      KeptTwice(m, n, s.Mem(), h);
    }
  }

  // ----- the blocks supplied -----------------------------------------------------------

  /** The frames of the copy are none of the old tables. */
  lemma CopyApart(m: seq<Word>, bits: seq<bool>, max: nat, top: nat, base: Owners, supply: Supply,
                  own: Owners, made: Pages, r: nat)
    requires Ready(m, bits, max, top, base, supply) && Supplied(m, top, supply, own, made, r)
    ensures base.Keys !! own.Keys + made.Keys
  {
    forall f | f in own.Keys + made.Keys
      ensures f !in base
    {
      if f in own {
        assert For(m, top, supply, f, own) && Spare(m, bits, top, base, supply, own[f]);
      } else {
        assert For(m, top, supply, f, made) && Spare(m, bits, top, base, supply, made[f]);
      }
    }
  }

  /** A supplied block in the present memory. */
  lemma SupplyHere(m: seq<Word>, n: seq<Word>, bits: seq<bool>, max: nat, top: nat, base: Owners, supply: Supply,
                   used: set<nat>, q: seq<nat>)
    requires Ready(m, bits, max, top, base, supply) && q in supply
    requires Kept(m, n, used) && base.Keys !! used
    ensures var h := FrameFor(m, top, supply, q);
      && Translate(n, top, supply[q]) == Some(h) && supply[q] < PAGES
      && h !in base && h < |bits| && bits[h] && h * ENTRIES + ENTRIES <= |n| && h < LOW_FRAMES
  {
    assert Spare(m, bits, top, base, supply, q);
    AtKept(m, n, bits, top, base, used, supply[q]);
    ByLeaf(m, top, supply[q]);
  }

  /** A block whose purpose is new has not been taken. */
  lemma SupplyFresh(m: seq<Word>, bits: seq<bool>, max: nat, top: nat, base: Owners, supply: Supply,
                    own: Owners, made: Pages, r: nat, q: seq<nat>)
    requires Ready(m, bits, max, top, base, supply) && Supplied(m, top, supply, own, made, r)
    requires q in supply && q !in own.Values
    requires |q| < 4 || (Page(q) && r <= Rank(q))
    ensures FrameFor(m, top, supply, q) !in own && FrameFor(m, top, supply, q) !in made
  {
    var h := FrameFor(m, top, supply, q);
    assert h in own ==> For(m, top, supply, h, own) && own[h] in own.Values && Unlike(m, top, supply, q, own[h]);
    assert h in made ==> For(m, top, supply, h, made) && (made[h] != q ==> Unlike(m, top, supply, q, made[h]));
  }

  /** Sets an entry of a table of the copy: present, rw, the user bit, and the frame
      of the target. */
  method PutEntry(s: Space, page: nat, j: nat, target: nat, user: bool, ghost f: nat, ghost h: nat)
    returns (ghost entry: Word)
    requires s.Steady() && s.root == s.top && At(s, page, f) && j < ENTRIES
    requires target < PAGES && Translate(s.Mem(), s.top, target) == Some(h) && h < LOW_FRAMES
    modifies s.ram
    ensures s.Steady() && Key(f, j) < |s.Mem()|
    ensures s.Mem() == old(s.Mem())[Key(f, j) := entry] && Kept(old(s.Mem()), s.Mem(), {f})
    ensures LinksTo(entry, h) && entry.rw && entry.user == user
  {
    var w := LoadWord(s, page, j, f);
    var phys := s.PhysicalPage(target);
    var e := Linked(w, phys / PAGE, user);
    entry := e;
    StoreWord(s, page, j, e, f);
  }

  /** A block taken for a table and cleared. */
  method TakeBlank(s: Space, supply: Supply, q: seq<nat>, ghost m: seq<Word>, ghost g: nat,
                   ghost own: Owners, ghost made: Pages, ghost r: nat, ghost h: nat)
    requires Ready(m, s.Used(), s.frames.maxBlocks, s.top, s.own, supply)
    requires Cloning(s, m, supply, g, own, made, r)
    requires |q| <= 3 && q in supply && q !in own.Values && h == FrameFor(m, s.top, supply, q)
    modifies s.ram
    ensures s.Steady() && At(s, supply[q], h) && Blank(s.Mem(), h)
    ensures Kept(m, s.Mem(), own.Keys + made.Keys + {h})
    ensures Copying(m, s.top, s.Mem(), s.Used(), g, own, made, r)
    ensures h !in own && h !in made && h < |s.Used()| && s.Used()[h] && h < LOW_FRAMES
  {
    ghost var n, bits, max, used := s.Mem(), s.Used(), s.frames.maxBlocks, own.Keys + made.Keys;
    CopyApart(m, bits, max, s.top, s.own, supply, own, made, r);
    SupplyHere(m, n, bits, max, s.top, s.own, supply, used, q);
    SupplyFresh(m, bits, max, s.top, s.own, supply, own, made, r, q);
    ClearBlock(s, supply[q], h);
    ghost var k := s.Mem();
    KeptThen(m, n, k, used, {h});
    CopyKept(m, s.top, n, bits, g, own, made, r, k, {h});
  }

  /** A block of the supply is cleared and linked into the copy as the table at the
      end of path q. */
  method NewTable(s: Space, supply: Supply, q: seq<nat>, ghost m: seq<Word>, ghost g: nat,
                  ghost own: Owners, ghost made: Pages, ghost r: nat)
    returns (ghost out: Owners)
    requires Ready(m, s.Used(), s.frames.maxBlocks, s.top, s.own, supply)
    requires Cloning(s, m, supply, g, own, made, r)
    requires 1 <= |q| <= 3 && Plain(q) && q in supply
    requires q[..|q| - 1] in own.Values && q !in own.Values
    modifies s.ram
    ensures out == own[FrameFor(m, s.top, supply, q) := q]
    ensures Cloning(s, m, supply, g, out, made, r)
  {
    ghost var h := FrameFor(m, s.top, supply, q);
    ghost var f :| f in own && own[f] == q[..|q| - 1];
    ghost var used := own.Keys + made.Keys + {h};
    assert For(m, s.top, supply, f, own);
    CopyApart(m, s.Used(), s.frames.maxBlocks, s.top, s.own, supply, own, made, r);
    TakeBlank(s, supply, q, m, g, own, made, r, h);
    ghost var k := s.Mem();
    SupplyHere(m, k, s.Used(), s.frames.maxBlocks, s.top, s.own, supply, used, q[..|q| - 1]);
    ghost var w := PutEntry(s, supply[q[..|q| - 1]], q[|q| - 1], supply[q], true, f, h);
    TableLinked(m, s.top, k, s.Used(), g, own, made, r, q, f, h, w, s.Mem(), used, supply);
    out := own[h := q];
  }

  lemma TableLinked(m: seq<Word>, top: nat, n: seq<Word>, bits: seq<bool>, g: nat, own: Owners, made: Pages, r: nat,
                    q: seq<nat>, f: nat, h: nat, w: Word, k: seq<Word>, used: set<nat>, supply: Supply)
    requires Copying(m, top, n, bits, g, own, made, r)
    requires 1 <= |q| <= 3 && Plain(q) && f in own && own[f] == q[..|q| - 1] && q !in own.Values
    requires Key(f, q[|q| - 1]) < |n|
    requires Blank(n, h) && h !in own && h !in made && h < |bits| && bits[h] && h < MAX_FRAMES
    requires LinksTo(w, h) && w.rw && w.user && k == n[Key(f, q[|q| - 1]) := w] && Kept(n, k, {f})
    requires used == own.Keys + made.Keys + {h} && Kept(m, n, used)
    requires Supplied(m, top, supply, own, made, r) && q in supply && h == FrameFor(m, top, supply, q)
    ensures Copying(m, top, k, bits, g, own[h := q], made, r)
    ensures Kept(m, k, own[h := q].Keys + made.Keys)
    ensures Supplied(m, top, supply, own[h := q], made, r)
  {
    assert own[f] + [q[|q| - 1]] == q;
    assert EdgeOk(n, own, f, q[|q| - 1]) && TableOk(n, bits, own, f);
    CopyLinks(m, top, n, bits, g, own, made, r, q, f, h, w, k);
    KeptThen(m, n, k, used, {f});
    var out := own[h := q];
    assert used + {f} == out.Keys + made.Keys;
    forall t | t in out
      ensures For(m, top, supply, t, out)
    {
      if t != h { assert For(m, top, supply, t, own); }
    }
  }

  // ----- copying pages -----------------------------------------------------------------

  /** The frame behind a source has not been touched. */
  lemma SourceKept(m: seq<Word>, bits: seq<bool>, max: nat, top: nat, base: Owners, supply: Supply,
                   own: Owners, made: Pages, r: nat, p: seq<nat>)
    requires Ready(m, bits, max, top, base, supply) && Supplied(m, top, supply, own, made, r)
    requires Page(p) && Source(m, top, p)
    ensures p in supply && SourceFrame(m, top, p) * ENTRIES + ENTRIES <= |m|
    ensures SourceFrame(m, top, p) !in own.Keys + made.Keys
    ensures FrameFor(m, top, supply, p) != SourceFrame(m, top, p)
  {
    var f := SourceFrame(m, top, p);
    assert OwnSource(m, top, supply, p) && NotTaken(m, top, supply, p, p);
    assert f in own ==> For(m, top, supply, f, own) && NotTaken(m, top, supply, own[f], p);
    assert f in made ==> For(m, top, supply, f, made) && NotTaken(m, top, supply, made[f], p);
  }

  /** A source page is readable at its own address. */
  lemma SourceHere(m: seq<Word>, n: seq<Word>, bits: seq<bool>, top: nat, base: Owners, used: set<nat>, p: seq<nat>)
    requires Rooted(m, bits, top, base) && Kept(m, n, used) && base.Keys !! used
    requires Page(p) && Source(m, top, p) && SourceFrame(m, top, p) * ENTRIES + ENTRIES <= |m|
    ensures Translate(n, top, PageNumber(p)) == Some(SourceFrame(m, top, p)) && PageNumber(p) < PAGES
  {
    NumberedPath(p);
    KeptPath(m, n, bits, top, base, used, p);
    assert p[..4 - 1] == p[..3];
  }

  lemma SameBlockThrough(m: seq<Word>, n: seq<Word>, used: set<nat>, f: nat, k: seq<Word>, h: nat)
    requires Kept(m, n, used) && f !in used && SameBlock(n, f, k, h)
    ensures SameBlock(m, f, k, h)
  {
    forall j: nat | j < ENTRIES
      ensures k[Key(h, j)] == m[Key(f, j)]
    {
      KeptStep(m, n, used, f, j);
      assert k[Key(h, j)] == n[Key(f, j)];
    }
  }

  /** A block taken for a page, with the page's words copied to it. */
  method TakeCopy(s: Space, supply: Supply, p: seq<nat>, ghost m: seq<Word>, ghost g: nat,
                  ghost own: Owners, ghost made: Pages, ghost r: nat, ghost h: nat)
    requires Ready(m, s.Used(), s.frames.maxBlocks, s.top, s.own, supply)
    requires Cloning(s, m, supply, g, own, made, r)
    requires Page(p) && Source(m, s.top, p) && r == Rank(p)
    requires p in supply && h == FrameFor(m, s.top, supply, p)
    modifies s.ram
    ensures s.Steady() && At(s, supply[p], h) && SameBlock(m, SourceFrame(m, s.top, p), s.Mem(), h)
    ensures Kept(m, s.Mem(), own.Keys + made.Keys + {h})
    ensures Copying(m, s.top, s.Mem(), s.Used(), g, own, made, r)
    ensures h !in own && h !in made && h < LOW_FRAMES
  {
    ghost var n, bits, max, used := s.Mem(), s.Used(), s.frames.maxBlocks, own.Keys + made.Keys;
    ghost var f := SourceFrame(m, s.top, p);
    CopyApart(m, bits, max, s.top, s.own, supply, own, made, r);
    SourceKept(m, bits, max, s.top, s.own, supply, own, made, r, p);
    SourceHere(m, n, bits, s.top, s.own, used, p);
    SupplyHere(m, n, bits, max, s.top, s.own, supply, used, p);
    NoTableIsPage(n, bits, g, own, p);
    SupplyFresh(m, bits, max, s.top, s.own, supply, own, made, r, p);
    CopyBlock(s, PageNumber(p), supply[p], f, h);
    ghost var k := s.Mem();
    SameBlockThrough(m, n, used, f, k, h);
    KeptThen(m, n, k, used, {h});
    CopyKept(m, s.top, n, bits, g, own, made, r, k, {h});
  }

  lemma NoTableIsPage(n: seq<Word>, bits: seq<bool>, g: nat, own: Owners, p: seq<nat>)
    requires Rooted(n, bits, g, own) && |p| == 4
    ensures p !in own.Values
  {
    forall f | f in own
      ensures own[f] != p
    {
      assert TableOk(n, bits, own, f);
    }
  }

  /** A source page gets a copy, mapped in the copy of its page table. */
  method ClonePage(s: Space, supply: Supply, p: seq<nat>, ghost m: seq<Word>, ghost g: nat,
                   ghost own: Owners, ghost made: Pages, ghost r: nat)
    returns (ghost more: Pages)
    requires Ready(m, s.Used(), s.frames.maxBlocks, s.top, s.own, supply)
    requires Cloning(s, m, supply, g, own, made, r)
    requires Page(p) && Source(m, s.top, p) && r == Rank(p) && p in supply
    requires p[..3] in own.Values && p[..3] in supply
    modifies s.ram
    ensures Cloning(s, m, supply, g, own, more, r + 1)
  {
    ghost var h := FrameFor(m, s.top, supply, p);
    ghost var t :| t in own && own[t] == p[..3];
    ghost var used := own.Keys + made.Keys + {h};
    assert For(m, s.top, supply, t, own);
    CopyApart(m, s.Used(), s.frames.maxBlocks, s.top, s.own, supply, own, made, r);
    TakeCopy(s, supply, p, m, g, own, made, r, h);
    ghost var k := s.Mem();
    SupplyHere(m, k, s.Used(), s.frames.maxBlocks, s.top, s.own, supply, used, p[..3]);
    ghost var w := PutEntry(s, supply[p[..3]], p[3], supply[p], true, t, h);
    PageMapped(m, s.top, k, s.Used(), g, own, made, r, p, t, h, w, s.Mem(), used, supply);
    more := made[h := p];
  }

  lemma PageMapped(m: seq<Word>, top: nat, n: seq<Word>, bits: seq<bool>, g: nat, own: Owners, made: Pages, r: nat,
                   p: seq<nat>, t: nat, h: nat, w: Word, k: seq<Word>, used: set<nat>, supply: Supply)
    requires Copying(m, top, n, bits, g, own, made, r)
    requires Page(p) && Source(m, top, p) && r == Rank(p)
    requires t in own && own[t] == p[..3]
    requires h !in own && h !in made && SameBlock(m, SourceFrame(m, top, p), n, h)
    requires LinksTo(w, h) && w.rw && w.user
    requires Key(t, p[3]) < |n| && k == n[Key(t, p[3]) := w] && Kept(n, k, {t})
    requires used == own.Keys + made.Keys + {h} && Kept(m, n, used)
    requires Supplied(m, top, supply, own, made, r) && p in supply && h == FrameFor(m, top, supply, p)
    ensures Copying(m, top, k, bits, g, own, made[h := p], r + 1)
    ensures Kept(m, k, own.Keys + made[h := p].Keys)
    ensures Supplied(m, top, supply, own, made[h := p], r + 1)
  {
    CopyMaps(m, top, n, bits, g, own, made, r, p, t, h, w, k);
    KeptThen(m, n, k, used, {t});
    var more := made[h := p];
    assert used + {t} == own.Keys + more.Keys;
    forall f | f in more
      ensures For(m, top, supply, f, more) && Page(more[f]) && more[f][0] == 0 && Rank(more[f]) < r + 1
    {
      if f != h { assert For(m, top, supply, f, made); }
    }
  }

  /** A rank that is no source's passes by. */
  lemma PassBy(s: Space, m: seq<Word>, supply: Supply, g: nat, own: Owners, made: Pages, r: nat, l: nat)
    requires Cloning(s, m, supply, g, own, made, r) && r <= l
    requires forall p :: Page(p) && r <= Rank(p) < l ==> !Source(m, s.top, p)
    ensures Cloning(s, m, supply, g, own, made, l)
  {
    CopySkips(m, s.top, s.Mem(), s.Used(), g, own, made, r, l);
    forall f | f in made
      ensures For(m, s.top, supply, f, made) && Page(made[f]) && made[f][0] == 0 && Rank(made[f]) < l
    {
      assert For(m, s.top, supply, f, made);
    }
  }

  lemma OnlyOfRank(m: seq<Word>, top: nat, p: seq<nat>)
    requires Page(p) && p[0] == 0 && !Source(m, top, p)
    ensures forall q :: Page(q) && Rank(p) <= Rank(q) < Rank(p) + 1 ==> !Source(m, top, q)
  {
    forall q | Page(q) && Rank(p) <= Rank(q) < Rank(p) + 1
      ensures !Source(m, top, q)
    {
      if q[0] == 0 { RankUnique(p, q); }
    }
  }

  /** The old space's last-level entry of p, in the present memory. */
  lemma EntryHere(m: seq<Word>, n: seq<Word>, bits: seq<bool>, max: nat, top: nat, base: Owners, used: set<nat>, p: seq<nat>)
    requires Tabled(m, bits, max, top, top, base) && Tabled(n, bits, max, top, top, base)
    requires Kept(m, n, used) && base.Keys !! used
    requires Page(p) && WalkTo(m, top, p[..3]).Some?
    ensures var a := Resolve(n, top, WindowAddress(p));
      a.Some? && a.value < |n| && Leaf(m, top, p) == Some(n[a.value])
  {
    KeptPath(m, n, bits, top, base, used, p);
    KeptWalk(m, n, bits, top, base, used, p[..3]);
    assert p[..4 - 1] == p[..3];
    WindowEntry(n, bits, max, top, top, base, p);
  }

  method OldEntry(s: Space, supply: Supply, p: seq<nat>, ghost m: seq<Word>, ghost g: nat,
                  ghost own: Owners, ghost made: Pages, ghost r: nat)
    returns (w: Word)
    requires Ready(m, s.Used(), s.frames.maxBlocks, s.top, s.own, supply)
    requires Cloning(s, m, supply, g, own, made, r)
    requires Page(p) && WalkTo(m, s.top, p[..3]).Some?
    ensures Leaf(m, s.top, p) == Some(w)
  {
    CopyApart(m, s.Used(), s.frames.maxBlocks, s.top, s.own, supply, own, made, r);
    EntryHere(m, s.Mem(), s.Used(), s.frames.maxBlocks, s.top, s.own, own.Keys + made.Keys, p);
    w := s.ReadAt(WindowAddress(p));
  }

  /** The innermost body of the loops. */
  method CloneEntry(s: Space, supply: Supply, p: seq<nat>, ghost m: seq<Word>, ghost g: nat,
                    ghost own: Owners, ghost made: Pages, ghost r: nat)
    returns (ghost more: Pages)
    requires Ready(m, s.Used(), s.frames.maxBlocks, s.top, s.own, supply)
    requires Cloning(s, m, supply, g, own, made, r)
    requires Page(p) && p[0] == 0 && p[1] < 3 && r == Rank(p) && WalkTo(m, s.top, p[..3]).Some?
    requires p[..3] in own.Values && p[..3] in supply
    modifies s.ram
    ensures Cloning(s, m, supply, g, own, more, r + 1)
  {
    var w := OldEntry(s, supply, p, m, g, own, made, r);
    if w.present {
      assert OwnSource(m, s.top, supply, p);
      more := ClonePage(s, supply, p, m, g, own, made, r);
    } else {
      OnlyOfRank(m, s.top, p);
      PassBy(s, m, supply, g, own, made, r, r + 1);
      more := made;
    }
  }

  // ----- the loops ---------------------------------------------------------------------

  /** The second-level tables of the copy made so far lie before rank d, the
      third-level ones before rank t. */
  ghost predicate Before(paths: set<seq<nat>>, d: nat, t: nat) {
    && (forall q :: q in paths && |q| == 2 ==> q[1] * 0x4_0000 < d)
    && (forall q :: q in paths && |q| == 3 ==> q[1] * 0x4_0000 + q[2] * 512 < t)
  }

  method CloneEntries(s: Space, supply: Supply, q: seq<nat>, ghost m: seq<Word>, ghost g: nat,
                      ghost own: Owners, ghost made: Pages, ghost r: nat)
    returns (ghost more: Pages)
    requires Ready(m, s.Used(), s.frames.maxBlocks, s.top, s.own, supply)
    requires Cloning(s, m, supply, g, own, made, r)
    requires |q| == 3 && Plain(q) && q[0] == 0 && q[1] < 3 && r == q[1] * 0x4_0000 + q[2] * 512
    requires WalkTo(m, s.top, q).Some? && q in own.Values && q in supply
    modifies s.ram
    ensures Cloning(s, m, supply, g, own, more, r + 512)
  {
    more := made;
    ghost var k := r;
    for y := 0 to 512
      invariant k == r + y && Cloning(s, m, supply, g, own, more, k)
    {
      PageOf(q, y);
      var p: seq<nat> := q + [y];
      more := CloneEntry(s, supply, p, m, g, own, more, k);
      k := k + 1;
    }
  }

  /** The present bit of the old space's entry at q. */
  method OldTable(s: Space, q: seq<nat>, ghost m: seq<Word>, supply: Supply, ghost g: nat,
                  ghost own: Owners, ghost made: Pages, ghost r: nat)
    returns (there: bool)
    requires Ready(m, s.Used(), s.frames.maxBlocks, s.top, s.own, supply)
    requires Cloning(s, m, supply, g, own, made, r)
    requires 1 <= |q| <= 3 && Plain(q) && WalkTo(m, s.top, q[..|q| - 1]).Some?
    ensures there == WalkTo(m, s.top, q).Some?
  {
    ghost var n, bits, max := s.Mem(), s.Used(), s.frames.maxBlocks;
    CopyApart(m, bits, max, s.top, s.own, supply, own, made, r);
    KeptWalk(m, n, bits, s.top, s.own, own.Keys + made.Keys, q[..|q| - 1]);
    KeptWalk(m, n, bits, s.top, s.own, own.Keys + made.Keys, q);
    WindowEntry(n, bits, max, s.root, s.top, s.own, q);
    var w := s.ReadAt(WindowAddress(q));
    there := w.present;
    ghost var f := WalkTo(n, s.top, q[..|q| - 1]).value;
    if there {
      PresentLeads(n, bits, max, s.root, s.top, s.own, q, f);
    } else {
      StepAbsent(n, bits, max, s.root, s.top, s.own, q, f);
    }
  }

  /** No sources lie under an absent table. */
  lemma NoneUnder(m: seq<Word>, top: nat, q: seq<nat>, k: nat, l: nat)
    requires 2 <= |q| <= 3 && Plain(q) && q[0] == 0 && WalkTo(m, top, q) == None
    requires |q| == 3 ==> k == q[1] * 0x4_0000 + q[2] * 512 && l == k + 512
    requires |q| == 2 ==> k == q[1] * 0x4_0000 && l == k + 0x4_0000
    ensures forall p :: Page(p) && k <= Rank(p) < l ==> !Source(m, top, p)
  {
    forall p | Page(p) && k <= Rank(p) < l
      ensures !Source(m, top, p)
    {
      if p[0] == 0 {
        assert p[1] == q[1] && (|q| == 3 ==> p[2] == q[2]);
        assert p[..3][..|q|] == q;
        NoneBeyond(m, top, p[..3], |q|);
      }
    }
  }

  lemma AddsValue(own: Owners, h: nat, q: seq<nat>)
    requires h !in own
    ensures own[h := q].Values == own.Values + {q}
  {
    var out := own[h := q];
    assert forall f :: f in own ==> out[f] == own[f] && f in out;
    assert out[h] == q;
  }

  /** A table of the old space gets its counterpart. */
  method AddTable(s: Space, supply: Supply, q: seq<nat>, ghost m: seq<Word>, ghost g: nat,
                  ghost own: Owners, ghost made: Pages, ghost r: nat)
    returns (ghost out: Owners)
    requires Ready(m, s.Used(), s.frames.maxBlocks, s.top, s.own, supply)
    requires Cloning(s, m, supply, g, own, made, r)
    requires 2 <= |q| <= 3 && Plain(q) && q[0] == 0 && q[1] < 3 && WalkTo(m, s.top, q).Some?
    requires q[..|q| - 1] in own.Values && q !in own.Values
    modifies s.ram
    ensures Cloning(s, m, supply, g, out, made, r)
    ensures q in supply && out.Values == own.Values + {q}
  {
    assert TableSupplied(m, s.top, supply, q);
    SupplyFresh(m, s.Used(), s.frames.maxBlocks, s.top, s.own, supply, own, made, r, q);
    AddsValue(own, FrameFor(m, s.top, supply, q), q);
    out := NewTable(s, supply, q, m, g, own, made, r);
  }

  /** The body of the middle loop: a page directory entry. */
  method CloneTable(s: Space, supply: Supply, q: seq<nat>, ghost m: seq<Word>, ghost g: nat,
                    ghost own: Owners, ghost made: Pages, ghost r: nat, ghost d: nat)
    returns (ghost out: Owners, ghost more: Pages)
    requires Ready(m, s.Used(), s.frames.maxBlocks, s.top, s.own, supply)
    requires Cloning(s, m, supply, g, own, made, r)
    requires |q| == 3 && Plain(q) && q[0] == 0 && q[1] < 3 && r == q[1] * 0x4_0000 + q[2] * 512
    requires WalkTo(m, s.top, q[..2]).Some? && q[..2] in own.Values && Before(own.Values, d, r)
    modifies s.ram
    ensures Cloning(s, m, supply, g, out, more, r + 512)
    ensures own.Values <= out.Values && Before(out.Values, d, r + 512)
  {
    var there := OldTable(s, q, m, supply, g, own, made, r);
    if there {
      out := AddTable(s, supply, q, m, g, own, made, r);
      more := CloneEntries(s, supply, q, m, g, out, made, r);
    } else {
      NoneUnder(m, s.top, q, r, r + 512);
      PassBy(s, m, supply, g, own, made, r, r + 512);
      out, more := own, made;
    }
  }

  method CloneTables(s: Space, supply: Supply, q: seq<nat>, ghost m: seq<Word>, ghost g: nat,
                     ghost own: Owners, ghost made: Pages, ghost r: nat, ghost d: nat)
    returns (ghost out: Owners, ghost more: Pages)
    requires Ready(m, s.Used(), s.frames.maxBlocks, s.top, s.own, supply)
    requires Cloning(s, m, supply, g, own, made, r)
    requires |q| == 2 && Plain(q) && q[0] == 0 && q[1] < 3 && r == q[1] * 0x4_0000
    requires WalkTo(m, s.top, q).Some? && q in own.Values && Before(own.Values, d, r)
    modifies s.ram
    ensures Cloning(s, m, supply, g, out, more, r + 0x4_0000)
    ensures own.Values <= out.Values && Before(out.Values, d, r + 0x4_0000)
  {
    out, more := own, made;
    ghost var k := r;
    for z := 0 to 512
      invariant k == r + z * 512 && Cloning(s, m, supply, g, out, more, k)
      invariant own.Values <= out.Values && Before(out.Values, d, k)
    {
      Under(q, z);
      var t: seq<nat> := q + [z];
      out, more := CloneTable(s, supply, t, m, g, out, more, k, d);
      k := k + 512;
    }
  }

  /** The body of the outer loop: an entry of the second table. */
  method CloneDirectory(s: Space, supply: Supply, q: seq<nat>, ghost m: seq<Word>, ghost g: nat,
                        ghost own: Owners, ghost made: Pages, ghost r: nat)
    returns (ghost out: Owners, ghost more: Pages)
    requires Ready(m, s.Used(), s.frames.maxBlocks, s.top, s.own, supply)
    requires Cloning(s, m, supply, g, own, made, r)
    requires |q| == 2 && Plain(q) && q[0] == 0 && q[1] < 3 && r == q[1] * 0x4_0000
    requires WalkTo(m, s.top, q[..1]).Some? && q[..1] in own.Values && Before(own.Values, r, r)
    modifies s.ram
    ensures Cloning(s, m, supply, g, out, more, r + 0x4_0000)
    ensures own.Values <= out.Values && Before(out.Values, r + 0x4_0000, r + 0x4_0000)
  {
    var there := OldTable(s, q, m, supply, g, own, made, r);
    if there {
      out := AddTable(s, supply, q, m, g, own, made, r);
      out, more := CloneTables(s, supply, q, m, g, out, made, r, r + 1);
    } else {
      NoneUnder(m, s.top, q, r, r + 0x4_0000);
      PassBy(s, m, supply, g, own, made, r, r + 0x4_0000);
      out, more := own, made;
    }
  }

  // ----- the whole copy ----------------------------------------------------------------

  /** What the copy at g is to the space that was at top in memory m, page by page.
      Below 3 GB: present in one exactly if in the other, then for user mode at all four
      levels, on the frame made for it, which holds the same words. In the fourth gigabyte: the same frame.
      Elsewhere: nothing. */
  ghost predicate ClonedAt(m: seq<Word>, top: nat, n: seq<Word>, g: nat, made: Pages, p: seq<nat>)
    requires Page(p)
  {
    if p[0] == 0 && p[1] < 3 then
      match WalkTo(m, top, p)
      case None => WalkTo(n, g, p) == None && !Present(n, g, p)
      case Some(f) =>
        && WalkTo(n, g, p).Some?
        && WalkTo(n, g, p).value in made && made[WalkTo(n, g, p).value] == p
        && SameBlock(m, f, n, WalkTo(n, g, p).value)
        && ForUser(n, g, p)
    else if p[0] == 0 && p[1] == 3 then
      WalkTo(n, g, p) == WalkTo(m, top, p)
    else
      WalkTo(n, g, p) == None && !Present(n, g, p)
  }

  /** The spaces at g and top have second tables, d and e, with the same entry 3. */
  ghost predicate SharesKernel(n: seq<Word>, g: nat, top: nat, d: nat, e: nat) {
    && Step(n, Some(g), 0) == Some(d) && Step(n, Some(top), 0) == Some(e)
    && n[Key(d, 3)] == n[Key(e, 3)]
  }

  lemma FirstStep(n: seq<Word>, root: nat, p: seq<nat>)
    requires |p| >= 1
    ensures WalkTo(n, root, p[..1]) == Step(n, Some(root), p[0])
  {
    assert p[..1][..0] == [];
  }

  /** A kernel mapping made later, below the shared entry, shows in both spaces: in
      any memory k in which the four tables are as they were, every page of the fourth
      gigabyte translates alike. */
  lemma LaterKernel(n: seq<Word>, k: seq<Word>, used: set<nat>, g: nat, top: nat, d: nat, e: nat, p: seq<nat>)
    requires SharesKernel(n, g, top, d, e)
    requires Kept(n, k, used) && used !! {g, top, d, e}
    requires Page(p) && p[0] == 0 && p[1] == 3
    ensures SharesKernel(k, g, top, d, e)
    ensures WalkTo(k, g, p) == WalkTo(k, top, p)
  {
    KeptStep(n, k, used, g, 0);
    KeptStep(n, k, used, top, 0);
    KeptStep(n, k, used, d, 3);
    KeptStep(n, k, used, e, 3);
    FirstStep(k, g, p);
    FirstStep(k, top, p);
    KernelShared(k, g, top, p[..1], d, e, p);
  }

  /** The frame behind a page of the copy is the block supplied for that page: it
      holds no old table, backs no page of the old space below 3 GB, and backs no
      other page of the copy. */
  lemma CopyOnFreshFrame(m: seq<Word>, bits: seq<bool>, max: nat, top: nat, base: Owners, supply: Supply,
                         n: seq<Word>, g: nat, own: Owners, made: Pages, r: nat, p: seq<nat>, q: seq<nat>)
    requires Ready(m, bits, max, top, base, supply) && Supplied(m, top, supply, own, made, r)
    requires Page(p) && p[0] == 0 && p[1] < 3 && ClonedAt(m, top, n, g, made, p) && WalkTo(n, g, p).Some?
    requires Page(q) && q[0] == 0 && q[1] < 3 && ClonedAt(m, top, n, g, made, q)
    ensures var h := WalkTo(n, g, p).value;
      && h == FrameFor(m, top, supply, p) && h !in base
      && WalkTo(m, top, q) != Some(h)
      && (p != q ==> WalkTo(n, g, q) != Some(h))
  {
    var h := WalkTo(n, g, p).value;
    CopyApart(m, bits, max, top, base, supply, own, made, r);
    assert For(m, top, supply, h, made);
    assert OwnSource(m, top, supply, q);
    SourcePresent(m, top, supply, q);
    if Source(m, top, q) { assert NotTaken(m, top, supply, p, q); }
  }

  lemma SourcePresent(m: seq<Word>, top: nat, supply: Supply, p: seq<nat>)
    requires Page(p) && p[0] == 0 && p[1] < 3 && OwnSource(m, top, supply, p)
    ensures WalkTo(m, top, p) == if Source(m, top, p) then Some(SourceFrame(m, top, p)) else None
  {
    assert p[..4 - 1] == p[..3];
  }

  /** The blocks for pml4 and pdp: cleared, and the second linked into the first. */
  method CloneRoot(s: Space, supply: Supply, ghost m: seq<Word>, ghost g: nat) returns (ghost out: Owners)
    requires s.Steady() && s.root == s.top && m == s.Mem()
    requires Ready(m, s.Used(), s.frames.maxBlocks, s.top, s.own, supply)
    requires g == FrameFor(m, s.top, supply, [])
    modifies s.ram
    ensures Cloning(s, m, supply, g, out, map[], 0)
    ensures out.Values == {[], [0]} && g in out && out[g] == []
  {
    ghost var own: Owners := map[g := []];
    ghost var made: Pages := map[];
    SupplyHere(m, m, s.Used(), s.frames.maxBlocks, s.top, s.own, supply, {}, []);
    ClearBlock(s, supply[[]], g);
    CopyStarts(m, s.top, s.Mem(), s.Used(), g);
    assert own.Keys + made.Keys == {g};
    assert For(m, s.top, supply, g, own);
    assert own.Values == {[]} && [0][..0] == [] && Plain([0]);
    ghost var h := FrameFor(m, s.top, supply, [0]);
    SupplyFresh(m, s.Used(), s.frames.maxBlocks, s.top, s.own, supply, own, made, 0, [0]);
    AddsValue(own, h, [0]);
    out := NewTable(s, supply, [0], m, g, own, made, 0);
  }

  method CloneUser(s: Space, supply: Supply, first: seq<nat>, ghost m: seq<Word>, ghost g: nat,
                   ghost own: Owners, ghost none: Pages, ghost zero: nat)
    returns (ghost out: Owners, ghost made: Pages, ghost r: nat)
    requires Ready(m, s.Used(), s.frames.maxBlocks, s.top, s.own, supply)
    requires Cloning(s, m, supply, g, own, none, zero) && zero == 0
    requires |first| == 1 && first[0] == 0 && Plain(first) && first in own.Values
    requires Before(own.Values, zero, zero) && WalkTo(m, s.top, first).Some?
    modifies s.ram
    ensures r == 0xC_0000 && Cloning(s, m, supply, g, out, made, r) && first in out.Values
  {
    out, made, r := own, none, zero;
    for i := 0 to 3
      invariant r == i * 0x4_0000 && Cloning(s, m, supply, g, out, made, r)
      invariant first in out.Values && Before(out.Values, r, r)
    {
      Under(first, i);
      var q: seq<nat> := first + [i];
      out, made := CloneDirectory(s, supply, q, m, g, out, made, r);
      r := r + 0x4_0000;
    }
  }

  lemma SelfGranted(k: seq<Word>, g: nat)
    requires g * ENTRIES + ENTRIES <= |k|
    ensures Grants(k, g, [SELF], false) <==> k[Key(g, SELF)].rw && !k[Key(g, SELF)].user
  {
    assert [SELF][..0] == [];
  }

  /** Everything but the two last entries is there; these complete the copy. */
  lemma CopyComplete(m: seq<Word>, n: seq<Word>, bits: seq<bool>, max: nat, top: nat, base: Owners, supply: Supply,
                     g: nat, own: Owners, made: Pages, r: nat, d: nat, e: nat, v: Word, k: seq<Word>)
    requires Ready(m, bits, max, top, base, supply) && Supplied(m, top, supply, own, made, r) && r == 0xC_0000
    requires Kept(m, n, own.Keys + made.Keys) && Copying(m, top, n, bits, g, own, made, r)
    requires d in own && own[d] == [0] && Step(m, Some(top), 0) == Some(e)
    requires Key(d, 3) < |n| && Key(g, SELF) < |n| && Key(e, 3) < |n| && LinksTo(v, g) && v.rw && !v.user
    requires k == n[Key(d, 3) := n[Key(e, 3)]][Key(g, SELF) := v]
    ensures Kept(m, k, own.Keys + made.Keys)
    ensures Step(k, Some(g), SELF) == Some(g) && SharesKernel(k, g, top, d, e) && Grants(k, g, [SELF], false)
    ensures Tabled(k, bits, max, g, g, WithKernel(own, base))
    ensures forall p {:trigger ClonedAt(m, top, k, g, made, p)} :: Page(p) ==> ClonedAt(m, top, k, g, made, p)
  {
    var l := n[Key(g, SELF) := v];
    assert d != g;
    assert TableOk(n, bits, own, d) && TableOk(n, bits, own, g);
    SelfGranted(k, g);
    assert k == l[Key(d, 3) := n[Key(e, 3)]] by { assert Key(d, 3) != Key(g, SELF); }
    CopySelf(m, top, n, bits, g, own, made, r, v, l);
    CopyShares(m, top, l, bits, g, own, made, r, d, n[Key(e, 3)], k);
    EntryKept(n, l, g, SELF);
    EntryKept(l, k, d, 3);
    KeptThen(m, n, l, own.Keys + made.Keys, {g});
    KeptThen(m, l, k, own.Keys + made.Keys + {g}, {d});
    assert own.Keys + made.Keys + {g} + {d} == own.Keys + made.Keys;
    CopyApart(m, bits, max, top, base, supply, own, made, r);
    KernelEntries(m, n, k, bits, max, top, base, own.Keys + made.Keys, g, d, e);
    CopyTabled(m, l, k, bits, max, top, base, own.Keys + made.Keys, g, own, d, e);
    forall p | Page(p)
      ensures ClonedAt(m, top, k, g, made, p)
    {
      if p[0] == 0 && p[1] == 3 {
        FirstStep(k, g, p);
        FirstStep(k, top, p);
        KernelShared(k, g, top, p[..1], d, e, p);
        KeptWalk(m, k, bits, top, base, own.Keys + made.Keys, p);
      } else {
        assert PageCopied(m, top, k, g, made, r, p) && OwnSource(m, top, supply, p);
        if p[0] == 0 && p[1] < 3 { SourcePresent(m, top, supply, p); }
      }
    }
  }

  lemma KernelEntries(m: seq<Word>, n: seq<Word>, k: seq<Word>, bits: seq<bool>, max: nat, top: nat, base: Owners,
                      used: set<nat>, g: nat, d: nat, e: nat)
    requires Tabled(m, bits, max, top, top, base) && Kept(m, n, used) && Kept(m, k, used) && base.Keys !! used
    requires Step(m, Some(top), 0) == Some(e) && Key(e, 3) < |m| && Key(d, 3) < |m|
    requires k[Key(d, 3)] == n[Key(e, 3)]
    requires WalkTo(k, g, [0]) == Some(d)
    ensures SharesKernel(k, g, top, d, e)
  {
    assert TableOk(m, bits, base, top) && EdgeOk(m, base, top, 0);
    KeptStep(m, n, used, e, 3);
    KeptStep(m, k, used, e, 3);
    KeptStep(m, k, used, top, 0);
    FirstStep(k, g, [0]);
    assert [0][..1] == [0];
  }

  // ----- the copy as a space -----------------------------------------------------------

  /** The tables of the copy: its own, and those of the kernel's gigabyte, which it
      shares. */
  ghost function WithKernel(own: Owners, base: Owners): Owners {
    map f | f in own.Keys + base.Keys && (f in own || [0, 3] <= base[f]) :: if f in own then own[f] else base[f]
  }

  /** The shared entry leads to the table that the old space has there, if any. */
  lemma SharedEdge(m: seq<Word>, k: seq<Word>, bits: seq<bool>, max: nat, top: nat, base: Owners,
                   used: set<nat>, own: Owners, d: nat, e: nat)
    requires Tabled(m, bits, max, top, top, base) && Kept(m, k, used) && base.Keys !! used && own.Keys <= used
    requires d in own && own[d] == [0] && Step(m, Some(top), 0) == Some(e)
    requires d * ENTRIES + ENTRIES <= |k| && Key(e, 3) < |k| && k[Key(d, 3)] == k[Key(e, 3)]
    ensures EdgeOk(k, WithKernel(own, base), d, 3)
  {
    assert TableOk(m, bits, base, top) && EdgeOk(m, base, top, 0);
    assert [] + [0] == [0] && [0] + [3] == [0, 3] && Plain([0]) && Plain([0, 3]);
    assert e in base && base[e] == [0];
    assert TableOk(m, bits, base, e) && EdgeOk(m, base, e, 3);
    KeptStep(m, k, used, e, 3);
  }

  lemma PrefixStays(p: seq<nat>, q: seq<nat>, i: nat)
    requires p <= q
    ensures p <= q + [i]
  {
  }

  /** A table of the kernel's gigabyte has not changed. */
  lemma KernelEdge(m: seq<Word>, k: seq<Word>, bits: seq<bool>, max: nat, top: nat, base: Owners,
                   used: set<nat>, own: Owners, f: nat, i: nat)
    requires Tabled(m, bits, max, top, top, base) && Kept(m, k, used) && base.Keys !! used && own.Keys <= used
    requires f in base && [0, 3] <= base[f] && i < ENTRIES
    ensures EdgeOk(k, WithKernel(own, base), f, i)
  {
    assert TableOk(m, bits, base, f) && EdgeOk(m, base, f, i);
    KeptStep(m, k, used, f, i);
    PrefixStays([0, 3], base[f], i);
  }

  lemma OwnEdge(l: seq<Word>, k: seq<Word>, bits: seq<bool>, g: nat, own: Owners, base: Owners, d: nat, f: nat, i: nat)
    requires Rooted(l, bits, g, own) && d in own && Key(d, 3) < |l|
    requires |l| == |k| && forall j :: 0 <= j < |l| && j != Key(d, 3) ==> k[j] == l[j]
    requires f in own && i < ENTRIES && (f != d || i != 3)
    ensures EdgeOk(k, WithKernel(own, base), f, i)
  {
    assert EdgeOk(l, own, f, i) && TableOk(l, bits, own, f);
    StepElsewhere(l, k, d, 3, f, i);
  }

  /** The copy's tables are in order: a tree in frames that are in use, with its own top
      table behind slot 511. */
  lemma CopyTabled(m: seq<Word>, l: seq<Word>, k: seq<Word>, bits: seq<bool>, max: nat, top: nat, base: Owners,
                   used: set<nat>, g: nat, own: Owners, d: nat, e: nat)
    requires Tabled(m, bits, max, top, top, base) && Kept(m, k, used) && base.Keys !! used && own.Keys <= used
    requires Rooted(l, bits, g, own) && Step(k, Some(g), SELF) == Some(g)
    requires d in own && own[d] == [0] && Step(m, Some(top), 0) == Some(e) && Key(d, 3) < |l| && Key(e, 3) < |k|
    requires |l| == |k| && (forall j :: 0 <= j < |l| && j != Key(d, 3) ==> k[j] == l[j]) && k[Key(d, 3)] == k[Key(e, 3)]
    ensures Tabled(k, bits, max, g, g, WithKernel(own, base))
  {
    var all := WithKernel(own, base);
    assert TableOk(l, bits, own, d) && TableOk(l, bits, own, g);
    forall f | f in all
      ensures TableOk(k, bits, all, f)
    {
      if f in own { assert TableOk(l, bits, own, f); } else { assert TableOk(m, bits, base, f); }
    }
    forall f, i: nat | f in all && i < ENTRIES
      ensures EdgeOk(k, all, f, i)
    {
      if f in own && (f != d || i != 3) {
        OwnEdge(l, k, bits, g, own, base, d, f, i);
      } else if f in own {
        SharedEdge(m, k, bits, max, top, base, used, own, d, e);
      } else {
        KernelEdge(m, k, bits, max, top, base, used, own, f, i);
      }
    }
  }

  /** Loading cr3: the processor goes over to the space whose top table is at phys. */
  method Switch(s: Space, phys: nat, ghost own: Owners)
    requires s.Steady() && Tabled(s.Mem(), s.Used(), s.frames.maxBlocks, phys / PAGE, phys / PAGE, own)
    modifies s`root, s`top, s`own
    ensures s.Steady() && s.root == s.top == phys / PAGE && s.own == own
  {
    s.root := phys / PAGE;
    s.top := phys / PAGE;
    s.own := own;
  }

  /** clone_pml4t: the physical address of a new top table whose space is the copy of
      the running one. Only blocks supplied for the copy are written, so the running
      space is as it was; and the copy is a space that can be switched to. */
  method ClonePml4(s: Space, supply: Supply)
    returns (phys: nat, ghost g: nat, ghost own: Owners, ghost made: Pages, ghost d: nat, ghost e: nat)
    requires s.Steady() && s.root == s.top && WalkTo(s.Mem(), s.top, [0]).Some?
    requires Ready(s.Mem(), s.Used(), s.frames.maxBlocks, s.top, s.own, supply)
    modifies s.ram
    ensures s.Steady() && phys == g * PAGE
    ensures forall p {:trigger ClonedAt(old(s.Mem()), s.top, s.Mem(), g, made, p)} ::
      Page(p) ==> ClonedAt(old(s.Mem()), s.top, s.Mem(), g, made, p)
    ensures Step(s.Mem(), Some(g), SELF) == Some(g) && SharesKernel(s.Mem(), g, s.top, d, e)
    ensures Grants(s.Mem(), g, [SELF], false)
    ensures Tabled(s.Mem(), s.Used(), s.frames.maxBlocks, g, g, WithKernel(own, s.own))
    ensures Kept(old(s.Mem()), s.Mem(), own.Keys + made.Keys)
    ensures Supplied(old(s.Mem()), s.top, supply, own, made, 0xC_0000)
  {
    ghost var m := s.Mem();
    g := FrameFor(m, s.top, supply, []);
    own, made := CloneLow(s, supply, m, g);
    d, e := ShareKernel(s, supply, m, g, own, made);
    phys := TopAddress(s, supply, m, g, own, made, 0xC_0000);
  }

  /** The copy of the first three gigabytes. */
  method CloneLow(s: Space, supply: Supply, ghost m: seq<Word>, ghost g: nat)
    returns (ghost own: Owners, ghost made: Pages)
    requires s.Steady() && s.root == s.top && m == s.Mem() && WalkTo(m, s.top, [0]).Some?
    requires Ready(m, s.Used(), s.frames.maxBlocks, s.top, s.own, supply)
    requires g == FrameFor(m, s.top, supply, [])
    modifies s.ram
    ensures Cloning(s, m, supply, g, own, made, 0xC_0000) && [0] in own.Values
  {
    ghost var base := CloneRoot(s, supply, m, g);
    ghost var r;
    own, made, r := CloneUser(s, supply, [0], m, g, base, map[], 0);
  }

  /** Where the block for the new top table lies in physical memory. */
  method TopAddress(s: Space, supply: Supply, ghost m: seq<Word>, ghost g: nat, ghost own: Owners, ghost made: Pages,
                    ghost r: nat) returns (phys: nat)
    requires s.Steady() && s.root == s.top && Ready(m, s.Used(), s.frames.maxBlocks, s.top, s.own, supply)
    requires Kept(m, s.Mem(), own.Keys + made.Keys) && Supplied(m, s.top, supply, own, made, r)
    requires g == FrameFor(m, s.top, supply, [])
    ensures phys == g * PAGE
  {
    CopyApart(m, s.Used(), s.frames.maxBlocks, s.top, s.own, supply, own, made, r);
    SupplyHere(m, s.Mem(), s.Used(), s.frames.maxBlocks, s.top, s.own, supply, own.Keys + made.Keys, []);
    phys := s.PhysicalPage(supply[[]]);
  }

  /** The last two entries: the kernel's gigabyte and the self-reference. */
  method ShareKernel(s: Space, supply: Supply, ghost m: seq<Word>, ghost g: nat, ghost own: Owners, ghost made: Pages)
    returns (ghost d: nat, ghost e: nat)
    requires Ready(m, s.Used(), s.frames.maxBlocks, s.top, s.own, supply)
    requires Cloning(s, m, supply, g, own, made, 0xC_0000)
    requires [0] in own.Values && WalkTo(m, s.top, [0]).Some?
    modifies s.ram
    ensures s.Steady() && Kept(m, s.Mem(), own.Keys + made.Keys)
    ensures Step(s.Mem(), Some(g), SELF) == Some(g) && SharesKernel(s.Mem(), g, s.top, d, e)
    ensures Grants(s.Mem(), g, [SELF], false)
    ensures Tabled(s.Mem(), s.Used(), s.frames.maxBlocks, g, g, WithKernel(own, s.own))
    ensures forall p {:trigger ClonedAt(m, s.top, s.Mem(), g, made, p)} ::
      Page(p) ==> ClonedAt(m, s.top, s.Mem(), g, made, p)
  {
    ghost var n, bits, max, used := s.Mem(), s.Used(), s.frames.maxBlocks, own.Keys + made.Keys;
    d :| d in own && own[d] == [0];
    assert For(m, s.top, supply, d, own) && For(m, s.top, supply, g, own);
    CopyApart(m, bits, max, s.top, s.own, supply, own, made, 0xC_0000);
    SupplyHere(m, n, bits, max, s.top, s.own, supply, used, [0]);
    SupplyHere(m, n, bits, max, s.top, s.own, supply, used, []);
    var w;
    w, e := KernelEntry(s, supply, m, g, own, made);
    StoreWord(s, supply[[0]], 3, w, d);
    KeptThen(m, n, s.Mem(), used, {d});
    SupplyHere(m, s.Mem(), bits, max, s.top, s.own, supply, used + {d}, []);
    ghost var v := PutEntry(s, supply[[]], SELF, supply[[]], false, g, g);
    CopyComplete(m, n, bits, max, s.top, s.own, supply, g, own, made, 0xC_0000, d, e, v, s.Mem());
  }

  /** The entry of the running space that covers the kernel's gigabyte. */
  method KernelEntry(s: Space, supply: Supply, ghost m: seq<Word>, ghost g: nat, ghost own: Owners, ghost made: Pages)
    returns (w: Word, ghost e: nat)
    requires Ready(m, s.Used(), s.frames.maxBlocks, s.top, s.own, supply)
    requires Cloning(s, m, supply, g, own, made, 0xC_0000)
    requires WalkTo(m, s.top, [0]).Some?
    ensures Step(m, Some(s.top), 0) == Some(e) && Key(e, 3) < |s.Mem()| && w == s.Mem()[Key(e, 3)]
  {
    ghost var n, bits, max := s.Mem(), s.Used(), s.frames.maxBlocks;
    var q: seq<nat> := [0, 3];
    ghost var first: seq<nat> := [0];
    assert q[..|q| - 1] == first && first[..1] == first;
    CopyApart(m, bits, max, s.top, s.own, supply, own, made, 0xC_0000);
    KeptWalk(m, n, bits, s.top, s.own, own.Keys + made.Keys, first);
    FirstStep(m, s.top, first);
    WindowEntry(n, bits, max, s.root, s.top, s.own, q);
    e := WalkTo(n, s.top, first).value;
    w := s.ReadAt(WindowAddress(q));
  }
}

/**
  The address space the processor runs in, edited through the window of its
  self-referencing page tables, with frames from the frame bitmap.
 */
module AddressSpace {
  import opened Basics
  import FrameMap
  import opened FrameDemand
  import opened Paging
  import opened Tables

  /** Memory m holds the page tables of a space: a tree below top, reachable from
      root through slot 511, in frames that are in use. */
  ghost predicate Tabled(m: seq<Word>, bits: seq<bool>, max: nat, root: nat, top: nat, own: Owners) {
    && Tree(m, bits, top, own)
    && Step(m, Some(root), SELF) == Some(top)
    && (root == top || root !in own)
    && root < |bits| && bits[root]
    && max * ENTRIES <= |m| && max <= MAX_FRAMES && max <= |bits|
  }

  lemma PagePaths(page: nat)
    requires page < PAGES
    ensures var p := PathOf(page);
      && Plain(p) && Plain(p[..1]) && Plain(p[..2]) && Plain(p[..3])
      && p[..1][..0] == [] && p[..2][..1] == p[..1] && p[..3][..2] == p[..2]
      && WindowAddress(p) == PT_WINDOW + 8 * page
  {
    Recompose(page);
    assert page / 0x800_0000 < SELF;
  }

  function PageNumber(p: seq<nat>): nat
    requires |p| == 4
  {
    ((p[0] * ENTRIES + p[1]) * ENTRIES + p[2]) * ENTRIES + p[3]
  }

  lemma NumberedPath(p: seq<nat>)
    requires Page(p)
    ensures PathOf(PageNumber(p)) == p && PageNumber(p) < PAGES
  {
    PathDigits(p[0], p[1], p[2], p[3]);
    assert [p[0], p[1], p[2], p[3]] == p;
  }

  ghost predicate SameAt(m: seq<Word>, n: seq<Word>, top: nat, page: nat) {
    SamePath(m, n, top, PathOf(page))
  }

  /** No translation outside slot 511 differs between m and n, nor any last-level
      entry behind one. */
  ghost predicate SameMaps(m: seq<Word>, n: seq<Word>, top: nat) {
    forall page: nat :: page < PAGES ==> SameAt(m, n, top, page)
  }

  lemma ResolvedInMemory(m: seq<Word>, root: nat, va: nat)
    requires Resolve(m, root, va).Some?
    ensures Resolve(m, root, va).value < |m|
  {
    var path := PathOf(va / PAGE % 0x10_0000_0000);
    assert path != [];
    assert Step(m, WalkTo(m, root, path[..3]), path[3]).Some?;
  }

  /** The window address of a path whose table exists, and the entry it shows. */
  lemma WindowEntry(m: seq<Word>, bits: seq<bool>, max: nat, root: nat, top: nat, own: Owners, path: seq<nat>)
    requires Tabled(m, bits, max, root, top, own)
    requires 1 <= |path| <= 4 && Plain(path)
    requires WalkTo(m, top, path[..|path| - 1]).Some?
    ensures var f := WalkTo(m, top, path[..|path| - 1]).value;
      && f in own && own[f] == path[..|path| - 1] && own[f] + [path[|path| - 1]] == path
      && f * ENTRIES + ENTRIES <= |m|
      && Resolve(m, root, WindowAddress(path)) == Some(Key(f, path[|path| - 1]))
  {
    var front := path[..|path| - 1];
    WindowShowsEntry(m, root, top, path);
    WalkOwner(m, bits, top, own, front);
    assert TableOk(m, bits, own, WalkTo(m, top, front).value);
  }

  /** The window shows a page's last-level entry. */
  lemma LeafShown(m: seq<Word>, bits: seq<bool>, max: nat, root: nat, top: nat, own: Owners, page: nat)
    requires Tabled(m, bits, max, root, top, own)
    requires page < PAGES && WalkTo(m, top, PathOf(page)[..3]).Some?
    ensures var r := Resolve(m, root, PT_WINDOW + 8 * page);
      && r.Some? && r.value < |m|
      && Leaf(m, top, PathOf(page)) == Some(m[r.value])
      && r == Some(Key(WalkTo(m, top, PathOf(page)[..3]).value, PathOf(page)[3]))
  {
    PagePaths(page);
    WindowEntry(m, bits, max, root, top, own, PathOf(page));
  }

  /** A page translates by its last-level entry. */
  lemma ByLeaf(m: seq<Word>, top: nat, page: nat)
    ensures Translate(m, top, page) == match Leaf(m, top, PathOf(page))
      case None => None
      case Some(w) => if w.present && w.frame * ENTRIES + ENTRIES <= |m| then Some(w.frame) else None
    ensures Translate(m, top, page).Some? ==> WalkTo(m, top, PathOf(page)[..3]).Some?
  {
  }

  lemma OwnedUsed(m: seq<Word>, bits: seq<bool>, top: nat, own: Owners, g: nat)
    requires Tree(m, bits, top, own)
    ensures g in own ==> g < |bits| && bits[g]
  {
    assert g in own ==> TableOk(m, bits, own, g);
  }

  /** Linking a zeroed free frame in as a table keeps the space. */
  lemma LinkOk(m: seq<Word>, bits: seq<bool>, max: nat, root: nat, top: nat, own: Owners,
               f: nat, i: nat, g: nat, w: Word, n: seq<Word>)
    requires Tabled(m, bits, max, root, top, own)
    requires f in own && |own[f]| < 3 && i < ENTRIES && Plain(own[f] + [i])
    requires Key(f, i) < |m| && !m[Key(f, i)].present
    requires g < max && !bits[g] && Blank(m, g)
    requires LinksTo(w, g) && n == m[Key(f, i) := w]
    ensures LinksBlank(m, n, own, f, i, g)
    ensures Tabled(n, bits[g := true], max, root, top, own[g := own[f] + [i]])
  {
    OwnedUsed(m, bits, top, own, g);
    assert TableOk(m, bits, own, f);
    assert Step(m, Some(f), i) == None && Step(n, Some(f), i) == Some(g);
    LinkKeepsTree(m, n, bits, bits[g := true], top, own, f, i, g);
    assert own[top] == [] && (f == top ==> own[f] + [i] == [i]);
    StepElsewhere(m, n, f, i, root, SELF);
  }

  /** Writing a last-level entry keeps the space. */
  lemma LeafOk(m: seq<Word>, bits: seq<bool>, max: nat, root: nat, top: nat, own: Owners, f: nat, i: nat, w: Word)
    requires Tabled(m, bits, max, root, top, own)
    requires f in own && |own[f]| == 3 && i < ENTRIES && Key(f, i) < |m|
    ensures Tabled(m[Key(f, i) := w], bits, max, root, top, own)
  {
    var n := m[Key(f, i) := w];
    LeafKeepsTree(m, n, bits, top, own, f, i);
    StepElsewhere(m, n, f, i, root, SELF);
  }

  /** Marking a free frame used keeps the space. */
  lemma MarkOk(m: seq<Word>, bits: seq<bool>, max: nat, root: nat, top: nat, own: Owners, g: nat)
    requires Tabled(m, bits, max, root, top, own)
    requires g < |bits|
    ensures Tabled(m, bits[g := true], max, root, top, own)
  {
    forall f | f in own
      ensures TableOk(m, bits[g := true], own, f)
    {
      assert TableOk(m, bits, own, f);
    }
  }

  /** No table but the one at path comes or goes. */
  ghost predicate OnlyTable(m: seq<Word>, n: seq<Word>, top: nat, path: seq<nat>) {
    forall q {:trigger SameTable(m, n, top, q)} :: |q| <= 3 && Plain(q) && q != path ==> SameTable(m, n, top, q)
  }

  /** What linking a free frame in at the end of a path does to the walks. */
  lemma LinkEffects(m: seq<Word>, bits: seq<bool>, max: nat, root: nat, top: nat, own: Owners,
                    path: seq<nat>, f: nat, g: nat, w: Word, n: seq<Word>)
    requires Tabled(m, bits, max, root, top, own)
    requires 1 <= |path| <= 3 && Plain(path)
    requires WalkTo(m, top, path[..|path| - 1]) == Some(f)
    requires f in own && own[f] == path[..|path| - 1]
    requires Key(f, path[|path| - 1]) < |m| && !m[Key(f, path[|path| - 1])].present
    requires g < max && !bits[g] && Blank(m, g)
    requires LinksTo(w, g) && n == m[Key(f, path[|path| - 1]) := w]
    ensures Tabled(n, bits[g := true], max, root, top, own[g := path])
    ensures WalkTo(n, top, path) == Some(g)
    ensures SameMaps(m, n, top) && OnlyTable(m, n, top, path)
  {
    var i := path[|path| - 1];
    assert own[f] + [i] == path;
    LinkOk(m, bits, max, root, top, own, f, i, g, w, n);
    WriteElsewhere(m, n, bits, top, own, f, i, own[f]);
    forall page: nat | page < PAGES
      ensures SameAt(m, n, top, page)
    {
      PagePaths(page);
      LinkKeepsWalks(m, n, bits, top, own, f, i, g, PathOf(page));
    }
    forall q | |q| <= 3 && Plain(q) && q != path
      ensures SameTable(m, n, top, q)
    {
      LinkKeepsTables(m, n, bits, top, own, f, i, g, q);
    }
  }

  /** The entry at the end of the path, if it was absent, now points at the next free
      frame, or, if there is none, at frame 0. */
  ghost predicate LevelMade(m: seq<Word>, n: seq<Word>, bits: seq<bool>, after: seq<bool>, max: nat, top: nat,
                            path: seq<nat>, user: bool)
    requires max <= |bits| && 1 <= |path|
  {
    if WalkTo(m, top, path).Some? then n == m && after == bits
    else
      && WalkTo(m, top, path[..|path| - 1]).Some?
      && var k := Key(WalkTo(m, top, path[..|path| - 1]).value, path[|path| - 1]);
         var g := if Exhausted(bits, max) then 0 else NextFree(bits, max);
      && k < |m| && g < MAX_FRAMES && n == m[k := Linked(m[k], g, user)]
      && after == (if Exhausted(bits, max) then bits else bits[g := true])
  }

  /** The tables of a space after the level has been made. */
  ghost function OwnersAfter(m: seq<Word>, bits: seq<bool>, max: nat, top: nat, own: Owners, path: seq<nat>): Owners
    requires max <= |bits|
  {
    if WalkTo(m, top, path).Some? then own else own[NextFree(bits, max) := path]
  }

  /** With a zeroed frame for it, or no need of one, the level is there and the space is
      in order, and nothing else has changed. */
  lemma LevelOk(m: seq<Word>, n: seq<Word>, bits: seq<bool>, after: seq<bool>, max: nat, root: nat, top: nat,
                own: Owners, path: seq<nat>, user: bool)
    requires Tabled(m, bits, max, root, top, own) && 1 <= |path| <= 3 && Plain(path)
    requires WalkTo(m, top, path[..|path| - 1]).Some?
    requires LevelMade(m, n, bits, after, max, top, path, user)
    requires Provides(m, bits, max, Missing(m, top, path))
    ensures Tabled(n, after, max, root, top, OwnersAfter(m, bits, max, top, own, path))
    ensures WalkTo(n, top, path).Some? && SameMaps(m, n, top) && OnlyTable(m, n, top, path)
    ensures after == Taken(bits, max, Missing(m, top, path))
    ensures Grew(m, n, bits, after, own, OwnersAfter(m, bits, max, top, own, path))
    ensures NewRights(m, n, top, user)
  {
    if WalkTo(m, top, path) == None {
      var f, i, g := WalkTo(m, top, path[..|path| - 1]).value, path[|path| - 1], NextFree(bits, max);
      NextFreeFacts(bits, max);
      AbsentEntry(m, bits, max, root, top, own, path, f);
      LinkEffects(m, bits, max, root, top, own, path, f, g, n[Key(f, i)], n);
      LinkGrew(m, n, bits, own, f, i, g, path);
      assert own[f] + [i] == path;
      LinkOk(m, bits, max, root, top, own, f, i, g, n[Key(f, i)], n);
      LinkRights(m, n, bits, top, own, f, i, g, user);
    }
  }

  lemma AbsentEntry(m: seq<Word>, bits: seq<bool>, max: nat, root: nat, top: nat, own: Owners, path: seq<nat>, f: nat)
    requires Tabled(m, bits, max, root, top, own) && 1 <= |path| <= 3 && Plain(path)
    requires WalkTo(m, top, path[..|path| - 1]) == Some(f) && WalkTo(m, top, path) == None
    ensures f in own && own[f] == path[..|path| - 1]
    ensures Key(f, path[|path| - 1]) < |m| && !m[Key(f, path[|path| - 1])].present
  {
    WalkOwner(m, bits, top, own, path[..|path| - 1]);
    assert TableOk(m, bits, own, f);
    if m[Key(f, path[|path| - 1])].present {
      PresentLeads(m, bits, max, root, top, own, path, f);
    }
  }

  /** The code uses what the allocation returns without a test: an absent table is
      made of frame 0 exactly when there is no free frame left. */
  lemma FrameZeroLinkedIff(m: seq<Word>, n: seq<Word>, bits: seq<bool>, after: seq<bool>, max: nat, root: nat,
                           top: nat, own: Owners, path: seq<nat>, user: bool)
    requires Tabled(m, bits, max, root, top, own) && 1 <= |path| <= 3 && Plain(path)
    requires |bits| > 0 && bits[0] && ENTRIES <= |m|
    requires WalkTo(m, top, path[..|path| - 1]).Some? && WalkTo(m, top, path) == None
    requires LevelMade(m, n, bits, after, max, top, path, user)
    ensures WalkTo(n, top, path) == Some(0) <==> Exhausted(bits, max)
  {
    var f, i := WalkTo(m, top, path[..|path| - 1]).value, path[|path| - 1];
    NextFreeFacts(bits, max);
    AbsentEntry(m, bits, max, root, top, own, path, f);
    assert own[f] + [i] == path && !(own[f] + [i] <= own[f]);
    WriteElsewhere(m, n, bits, top, own, f, i, own[f]);
    assert TableOk(m, bits, own, f);
  }

  /** Two tables at frame 0 are one, so no assignment of paths to tables makes a space of
      that memory: what is mapped below the one is mapped below the other. */
  lemma SharedTableNoSpace(m: seq<Word>, bits: seq<bool>, max: nat, root: nat, top: nat, own: Owners,
                           p: seq<nat>, q: seq<nat>)
    requires |p| <= 3 && |q| <= 3 && Plain(p) && Plain(q) && p != q
    requires WalkTo(m, top, p).Some? && WalkTo(m, top, q) == WalkTo(m, top, p)
    ensures !Tabled(m, bits, max, root, top, own)
    ensures forall i: nat :: WalkTo(m, top, p + [i]) == WalkTo(m, top, q + [i])
  {
    if Tabled(m, bits, max, root, top, own) {
      WalkOwner(m, bits, top, own, p);
      WalkOwner(m, bits, top, own, q);
    }
    forall i: nat
      ensures WalkTo(m, top, p + [i]) == WalkTo(m, top, q + [i])
    {
      assert (p + [i])[..|p|] == p && (q + [i])[..|q|] == q;
    }
  }

  /** Without a free frame an absent level is made by pointing its entry at frame 0. */
  lemma ZeroLinked(m: seq<Word>, n: seq<Word>, bits: seq<bool>, mid: seq<bool>, max: nat, root: nat, top: nat,
                   own: Owners, p: seq<nat>, user: bool) returns (f: nat, w: Word)
    requires Tabled(m, bits, max, root, top, own) && Exhausted(bits, max)
    requires 1 <= |p| <= 3 && Plain(p) && WalkTo(m, top, p[..|p| - 1]).Some? && WalkTo(m, top, p) == None
    requires LevelMade(m, n, bits, mid, max, top, p, user)
    ensures f in own && own[f] + [p[|p| - 1]] == p && own[f] == p[..|p| - 1] && WalkTo(m, top, own[f]) == Some(f)
    ensures Key(f, p[|p| - 1]) < |m| && n == m[Key(f, p[|p| - 1]) := w] && LinksTo(w, 0) && mid == bits
  {
    f := WalkTo(m, top, p[..|p| - 1]).value;
    w := n[Key(f, p[|p| - 1])];
    AbsentEntry(m, bits, max, root, top, own, p, f);
  }

  lemma EntryToZero(k: seq<Word>, top: nat, p: seq<nat>, f: nat)
    requires p != [] && p[|p| - 1] < ENTRIES && WalkTo(k, top, p[..|p| - 1]) == Some(f)
    requires f * ENTRIES + ENTRIES <= |k| && LinksTo(k[Key(f, p[|p| - 1])], 0)
    ensures WalkTo(k, top, p) == Some(0)
  {
  }

  lemma KeysDiffer(f: nat, i: nat, g: nat, j: nat)
    requires i < ENTRIES && j < ENTRIES && (f == g ==> i != j)
    ensures Key(f, i) != Key(g, j)
  {
  }

  /** Two absent tables, neither above the other, made when no frame is free: frame 0
      becomes both of them, and what is left is no space. */
  lemma FrameZeroTwice(m: seq<Word>, n: seq<Word>, k: seq<Word>, bits: seq<bool>, mid: seq<bool>, after: seq<bool>,
                       max: nat, root: nat, top: nat, own: Owners, p: seq<nat>, q: seq<nat>, user: bool, other: bool)
    requires Tabled(m, bits, max, root, top, own) && Exhausted(bits, max)
    requires 1 <= |p| <= 3 && Plain(p) && 1 <= |q| <= 3 && Plain(q) && !(p <= q) && !(q <= p)
    requires WalkTo(m, top, p[..|p| - 1]).Some? && WalkTo(m, top, p) == None
    requires WalkTo(m, top, q[..|q| - 1]).Some? && WalkTo(m, top, q) == None
    requires LevelMade(m, n, bits, mid, max, top, p, user) && |mid| == |bits|
    requires LevelMade(n, k, mid, after, max, top, q, other)
    ensures WalkTo(k, top, p) == Some(0) && WalkTo(k, top, q) == Some(0)
    ensures forall i: nat :: WalkTo(k, top, p + [i]) == WalkTo(k, top, q + [i])
    ensures forall out {:trigger Tabled(k, after, max, root, top, out)} :: !Tabled(k, after, max, root, top, out)
  {
    var i, j := p[|p| - 1], q[|q| - 1];
    var f, w := ZeroLinked(m, n, bits, mid, max, root, top, own, p, user);
    var g, v := ZeroLinkedNext(m, n, k, bits, after, max, root, top, own, f, i, q, other);
    assert f == g ==> i != j;
    KeysDiffer(f, i, g, j);
    ZeroReached(m, k, bits, top, own, f, i, g, j);
    ZeroReached(m, k, bits, top, own, g, j, f, i);
    SharedTableNoSpace(k, after, max, root, top, own, p, q);
    forall out
      ensures !Tabled(k, after, max, root, top, out)
    {
      SharedTableNoSpace(k, after, max, root, top, out, p, q);
    }
  }

  /** A second absent level, not below the first. */
  lemma ZeroLinkedNext(m: seq<Word>, n: seq<Word>, k: seq<Word>, bits: seq<bool>, after: seq<bool>, max: nat, root: nat,
                       top: nat, own: Owners, f: nat, i: nat, q: seq<nat>, other: bool) returns (g: nat, v: Word)
    requires Tabled(m, bits, max, root, top, own) && Exhausted(bits, max)
    requires f in own && i < ENTRIES && |m| == |n| && forall l :: 0 <= l < |m| && l != Key(f, i) ==> n[l] == m[l]
    requires 1 <= |q| <= 3 && Plain(q) && !(own[f] + [i] <= q)
    requires WalkTo(m, top, q[..|q| - 1]).Some? && WalkTo(m, top, q) == None
    requires LevelMade(n, k, bits, after, max, top, q, other)
    ensures g in own && own[g] + [q[|q| - 1]] == q && |own[g]| <= 2 && WalkTo(m, top, own[g]) == Some(g)
    ensures !(own[f] + [i] <= own[g])
    ensures Key(g, q[|q| - 1]) < |n| && k == n[Key(g, q[|q| - 1]) := v] && LinksTo(v, 0)
  {
    g := WalkTo(m, top, q[..|q| - 1]).value;
    v := k[Key(g, q[|q| - 1])];
    AbsentEntry(m, bits, max, root, top, own, q, g);
    WriteElsewhere(m, n, bits, top, own, f, i, q);
    FrontPrefix(own[f] + [i], q);
    WriteElsewhere(m, n, bits, top, own, f, i, own[g]);
  }

  lemma ZeroReached(m: seq<Word>, k: seq<Word>, bits: seq<bool>, top: nat, own: Owners, f: nat, i: nat, g: nat, j: nat)
    requires Rooted(m, bits, top, own) && f in own && g in own && i < ENTRIES && j < ENTRIES
    requires |own[f]| <= 2 && !(own[g] + [j] <= own[f]) && WalkTo(m, top, own[f]) == Some(f) && |m| == |k|
    requires forall l :: 0 <= l < |m| && l != Key(f, i) && l != Key(g, j) ==> k[l] == m[l]
    requires Key(f, i) < |k| && LinksTo(k[Key(f, i)], 0)
    ensures WalkTo(k, top, own[f] + [i]) == Some(0)
  {
    var path := own[f];
    assert TableOk(m, bits, own, f);
    assert |path + [i]| > |path|;
    WritesElsewhere(m, k, bits, top, own, f, i, g, j, path);
    assert (path + [i])[..|path|] == path;
    EntryToZero(k, top, path + [i], f);
  }

  /** A space of one table in the second of two frames, none of which is free. */
  function SmallMemory(): seq<Word> {
    seq(2 * ENTRIES, j => if j == Key(1, SELF) then Word(true, true, false, 0, 1, 0) else ZERO)
  }

  const FULL: FrameMap.Word := FrameMap.ALL_ONES     // its bitmap fills a word

  lemma SmallSpace()
    ensures Tabled(SmallMemory(), FULL, 2, 1, 1, map[1 := []]) && Exhausted(FULL, 2)
  {
    var m, own := SmallMemory(), map[1 := []];
    forall i: nat | i < ENTRIES
      ensures EdgeOk(m, own, 1, i)
    {
      if i == SELF { assert ([] + [i])[0] == SELF; }
    }
    assert Step(m, Some(1), SELF) == Some(1);
  }

  /** There every two entries of the top table come to that. */
  lemma SmallSpaceShares(i: nat, j: nat) returns (n: seq<Word>, k: seq<Word>)
    requires i < SELF && j < SELF && i != j
    ensures LevelMade(SmallMemory(), n, FULL, FULL, 2, 1, [i], true)
    ensures LevelMade(n, k, FULL, FULL, 2, 1, [j], true)
    ensures WalkTo(k, 1, [i]) == Some(0) && WalkTo(k, 1, [j]) == Some(0)
    ensures forall out {:trigger Tabled(k, FULL, 2, 1, 1, out)} :: !Tabled(k, FULL, 2, 1, 1, out)
  {
    SmallSpace();
    var m := SmallMemory();
    n := m[Key(1, i) := Linked(ZERO, 0, true)];
    k := n[Key(1, j) := Linked(ZERO, 0, true)];
    EntryWalk(m, i);
    EntryWalk(m, j);
    EntryWalk(n, j);
    assert !([i] <= [j]) && !([j] <= [i]) by { assert [i][0] == i && [j][0] == j; }
    FrameZeroTwice(m, n, k, FULL, FULL, FULL, 2, 1, 1, map[1 := []], [i], [j], true, true);
  }

  lemma EntryWalk(m: seq<Word>, i: nat)
    requires |m| == 2 * ENTRIES && i < ENTRIES
    ensures WalkTo(m, 1, [i]) == if m[Key(1, i)].present && m[Key(1, i)].frame < 2 then Some(m[Key(1, i)].frame) else None
    ensures [i][..0] == [] && WalkTo(m, 1, []) == Some(1)
  {
    assert [i][..0] == [];
  }

  /** Every frame in use stays in use. */
  ghost predicate OnlyAdds(bits: seq<bool>, after: seq<bool>) {
    |after| == |bits| && forall g :: 0 <= g < |bits| && bits[g] ==> after[g]
  }

  /** From memory m and bitmap bits to n and after, frames were only taken, tables
      only added, in frames that were free, and no word outside the tables written. */
  ghost predicate Grew(m: seq<Word>, n: seq<Word>, bits: seq<bool>, after: seq<bool>, own: Owners, out: Owners) {
    && OnlyAdds(bits, after) && own.Keys <= out.Keys
    && (forall f {:trigger WasFree(bits, own, f)} :: f in out ==> WasFree(bits, own, f))
    && Kept(m, n, out.Keys)
  }

  /** A table that is new has taken a free frame. */
  ghost predicate WasFree(bits: seq<bool>, own: Owners, f: nat) {
    f !in own ==> f < |bits| && !bits[f]
  }

  /** So the words of every frame that was in use and is no table stay. */
  lemma ContentsStay(m: seq<Word>, n: seq<Word>, bits: seq<bool>, after: seq<bool>, own: Owners, out: Owners,
                     f: nat, j: nat)
    requires Grew(m, n, bits, after, own, out)
    requires f < |bits| && bits[f] && f !in own && j < ENTRIES && Key(f, j) < |m|
    ensures n[Key(f, j)] == m[Key(f, j)]
  {
    assert f in out ==> WasFree(bits, own, f);
    assert SameFrame(m, n, f);
  }

  lemma GrewThen(m: seq<Word>, n: seq<Word>, k: seq<Word>, bits: seq<bool>, mid: seq<bool>, after: seq<bool>,
                 own: Owners, more: Owners, out: Owners)
    requires Grew(m, n, bits, mid, own, more) && Grew(n, k, mid, after, more, out)
    ensures Grew(m, k, bits, after, own, out)
  {
    forall f | f in out
      ensures WasFree(bits, own, f)
    {
      assert WasFree(mid, more, f) && (f in more ==> WasFree(bits, own, f));
    }
    KeptGrowing(m, n, k, more.Keys, out.Keys);
  }

  lemma LinkGrew(m: seq<Word>, n: seq<Word>, bits: seq<bool>, own: Owners, f: nat, i: nat, g: nat, path: seq<nat>)
    requires f in own && i < ENTRIES && Key(f, i) < |m| && g < |bits| && !bits[g]
    requires |m| == |n| && forall k :: 0 <= k < |m| && k != Key(f, i) ==> n[k] == m[k]
    ensures Grew(m, n, bits, bits[g := true], own, own[g := path])
  {
    EntryKept(m, n, f, i);
  }

  lemma TakenGrew(m: seq<Word>, bits: seq<bool>, after: seq<bool>, own: Owners)
    requires OnlyAdds(bits, after)
    ensures Grew(m, m, bits, after, own, own)
  {
  }

  /** A frame that is taken first is none of the tables made after that. */
  lemma PageNoTable(m: seq<Word>, n: seq<Word>, bits: seq<bool>, mid: seq<bool>, after: seq<bool>, max: nat, root: nat,
                    top: nat, had: Owners, out: Owners, g: nat)
    requires Tabled(m, bits, max, root, top, had) && g < |bits| && !bits[g] && mid == bits[g := true]
    requires Grew(m, n, mid, after, had, out)
    ensures g !in out
  {
    OwnedUsed(m, bits, top, had, g);
    assert g in out ==> WasFree(mid, had, g);
  }

  /** The frames listed were free, are in use now, and are distinct. */
  ghost predicate FreshRun(bits: seq<bool>, after: seq<bool>, fs: seq<nat>) {
    && OnlyAdds(bits, after)
    && (forall j :: 0 <= j < |fs| ==> fs[j] < |bits| && !bits[fs[j]] && after[fs[j]])
    && (forall i, j :: 0 <= i < j < |fs| ==> fs[i] != fs[j])
  }

  /** None of the frames listed holds a table. */
  ghost predicate NoTables(fs: seq<nat>, own: Owners) {
    forall j :: 0 <= j < |fs| ==> fs[j] !in own
  }

  lemma NoTablesNext(bits: seq<bool>, mid: seq<bool>, after: seq<bool>, fs: seq<nat>, g: nat,
                     m: seq<Word>, n: seq<Word>, had: Owners, out: Owners)
    requires FreshRun(bits, mid, fs) && NoTables(fs, had)
    requires Grew(m, n, mid, after, had, out) && g !in out
    ensures NoTables(fs + [g], out)
  {
    forall j | 0 <= j < |fs|
      ensures fs[j] !in out
    {
      assert fs[j] in out ==> WasFree(mid, had, fs[j]);
    }
  }

  lemma FreshNext(bits: seq<bool>, mid: seq<bool>, after: seq<bool>, fs: seq<nat>, g: nat)
    requires FreshRun(bits, mid, fs) && OnlyAdds(mid, after)
    requires g < |mid| && !mid[g] && after[g]
    ensures FreshRun(bits, after, fs + [g])
  {
  }

  lemma PresentLeads(m: seq<Word>, bits: seq<bool>, max: nat, root: nat, top: nat, own: Owners, path: seq<nat>, f: nat)
    requires Tabled(m, bits, max, root, top, own)
    requires 1 <= |path| <= 3 && Plain(path)
    requires WalkTo(m, top, path[..|path| - 1]) == Some(f) && f in own && own[f] == path[..|path| - 1]
    requires Key(f, path[|path| - 1]) < |m| && m[Key(f, path[|path| - 1])].present
    ensures WalkTo(m, top, path).Some?
  {
    assert own[f] + [path[|path| - 1]] == path;
    assert TableOk(m, bits, own, f) && EdgeOk(m, own, f, path[|path| - 1]);
  }

  lemma Fronts(path: seq<nat>)
    requires |path| == 4 && Plain(path)
    ensures Plain(path[..1]) && Plain(path[..2]) && Plain(path[..3])
    ensures path[..1][..0] == [] && path[..2][..1] == path[..1] && path[..3][..2] == path[..2]
  {
  }

  lemma SameThen(m: seq<Word>, n: seq<Word>, k: seq<Word>, top: nat)
    requires SameMaps(m, n, top) && SameMaps(n, k, top)
    ensures SameMaps(m, k, top)
  {
    forall page: nat | page < PAGES
      ensures SameAt(m, k, top, page)
    {
      assert SameAt(m, n, top, page) && SameAt(n, k, top, page);
    }
  }

  lemma StepAbsent(m: seq<Word>, bits: seq<bool>, max: nat, root: nat, top: nat, own: Owners, path: seq<nat>, f: nat)
    requires Tabled(m, bits, max, root, top, own)
    requires 1 <= |path| <= 3 && Plain(path)
    requires WalkTo(m, top, path[..|path| - 1]) == Some(f)
    requires Key(f, path[|path| - 1]) < |m| && !m[Key(f, path[|path| - 1])].present
    ensures WalkTo(m, top, path) == None
  {
  }

  ghost predicate NothingMapped(m: seq<Word>, top: nat) {
    forall page: nat :: page < PAGES ==> Translate(m, top, page) == None && Leaf(m, top, PathOf(page)) == None
  }

  lemma BootOk(m: seq<Word>, bits: seq<bool>, max: nat, root: nat, g: nat, w: Word, n: seq<Word>, v: Word, k: seq<Word>)
    requires root < |bits| && bits[root] && (root + 1) * ENTRIES <= |m|
    requires max * ENTRIES <= |m| && max <= MAX_FRAMES && max <= |bits|
    requires g < max && !bits[g] && Blank(m, g)
    requires LinksTo(w, g) && w.rw && !w.user && n == m[Key(root, SELF) := w]
    requires LinksTo(v, g) && v.rw && !v.user && k == n[Key(g, SELF) := v]
    ensures Tabled(k, bits[g := true], max, root, g, map[g := []])
    ensures NothingMapped(k, g) && Grants(k, root, [SELF], false) && Grants(k, g, [SELF], false)
  {
    var own: Owners := map[g := []];
    assert [SELF][..0] == [] && Key(g, SELF) != Key(root, SELF);
    forall i: nat | i < ENTRIES && i != SELF
      ensures k[Key(g, i)] == ZERO
    {
      assert m[Key(g, i)] == ZERO;
      assert Key(g, i) != Key(root, SELF);
    }
    assert forall i: nat :: i < ENTRIES ==> EdgeOk(k, own, g, i);
    forall page: nat | page < PAGES
      ensures Translate(k, g, page) == None && Leaf(k, g, PathOf(page)) == None
    {
      PagePaths(page);
      var q := PathOf(page);
      assert q[..1][..0] == [] && WalkTo(k, g, []) == Some(g);
      assert k[Key(g, q[0])] == ZERO;
      NoneBeyond(k, g, q, 1);
      assert q[..3][..1] == q[..1];
      NoneBeyond(k, g, q[..3], 1);
    }
  }

  /** The page maps to frame g, writable, for user mode or for the kernel only. */
  ghost predicate MappedTo(n: seq<Word>, top: nat, page: nat, g: nat, user: bool) {
    && Translate(n, top, page) == Some(g)
    && Leaf(n, top, PathOf(page)).Some?
    && var w := Leaf(n, top, PathOf(page)).value;
       w.rw && w.user == user
  }

  /** Memory n differs from m in that page now maps to frame g, and in nothing else
      that translations outside slot 511 show. */
  ghost predicate MapsOne(m: seq<Word>, n: seq<Word>, top: nat, page: nat, g: nat, user: bool) {
    && MappedTo(n, top, page, g, user)
    && forall p: nat :: p < PAGES && p != page ==> SameAt(m, n, top, p)
  }

  /** Page first + j maps to the j-th frame of the list. */
  ghost predicate MapsAt(n: seq<Word>, top: nat, first: nat, fs: seq<nat>, user: bool, j: nat)
    requires j < |fs|
  {
    MappedTo(n, top, first + j, fs[j], user)
  }

  /** Memory n differs from m in that the pages from first on map to the frames
      listed. */
  ghost predicate MapsRun(m: seq<Word>, n: seq<Word>, top: nat, first: nat, fs: seq<nat>, user: bool) {
    && (forall j: nat :: j < |fs| ==> MapsAt(n, top, first, fs, user, j))
    && (forall p: nat :: p < PAGES && !(first <= p < first + |fs|) ==> SameAt(m, n, top, p))
  }

  lemma MapsNext(m: seq<Word>, n: seq<Word>, k: seq<Word>, top: nat, first: nat, fs: seq<nat>, page: nat, g: nat, user: bool)
    requires MapsRun(m, n, top, first, fs, user)
    requires MapsOne(n, k, top, page, g, user)
    requires page == first + |fs| < PAGES
    ensures MapsRun(m, k, top, first, fs + [g], user)
  {
    forall j: nat | j < |fs| + 1
      ensures MapsAt(k, top, first, fs + [g], user, j)
    {
      if j < |fs| {
        assert MapsAt(n, top, first, fs, user, j) && SameAt(n, k, top, first + j);
      }
    }
    forall p: nat | p < PAGES && !(first <= p < first + |fs| + 1)
      ensures SameAt(m, k, top, p)
    {
      assert SameAt(m, n, top, p) && SameAt(n, k, top, p);
    }
  }

  ghost predicate TablesStay(m: seq<Word>, n: seq<Word>, top: nat) {
    forall q {:trigger SameTable(m, n, top, q)} :: |q| <= 3 && Plain(q) ==> SameTable(m, n, top, q)
  }

  /** Writing one last-level entry leaves every other page and every table. */
  lemma LeafOthers(m: seq<Word>, bits: seq<bool>, top: nat, own: Owners, page: nat, f: nat, n: seq<Word>)
    requires Rooted(m, bits, top, own) && page < PAGES && f in own && own[f] + [PathOf(page)[3]] == PathOf(page)
    requires |m| == |n| && forall k :: 0 <= k < |m| && k != Key(f, PathOf(page)[3]) ==> n[k] == m[k]
    ensures forall p: nat :: p < PAGES && p != page ==> SameAt(m, n, top, p)
    ensures TablesStay(m, n, top)
  {
    forall p: nat | p < PAGES && p != page
      ensures SameAt(m, n, top, p)
    {
      PagePaths(p);
      if PathOf(p) == PathOf(page) { PathUnique(p, page); }
      PathElsewhere(m, n, bits, top, own, f, PathOf(page)[3], PathOf(p));
    }
    forall q | |q| <= 3 && Plain(q)
      ensures SameTable(m, n, top, q)
    {
      WriteElsewhere(m, n, bits, top, own, f, PathOf(page)[3], q);
    }
  }

  lemma LeafEffects(m: seq<Word>, bits: seq<bool>, max: nat, root: nat, top: nat, own: Owners,
                    page: nat, f: nat, g: nat, user: bool, w: Word, n: seq<Word>)
    requires Tabled(m, bits, max, root, top, own)
    requires page < PAGES && WalkTo(m, top, PathOf(page)[..3]) == Some(f)
    requires LinksTo(w, g) && w.rw && w.user == user && (g + 1) * ENTRIES <= |m|
    requires Key(f, PathOf(page)[3]) < |m| && n == m[Key(f, PathOf(page)[3]) := w]
    ensures Tabled(n, bits, max, root, top, own)
    ensures MapsOne(m, n, top, page, g, user) && TablesStay(m, n, top)
  {
    PagePaths(page);
    LeafWalk(m, n, bits, top, own, f, PathOf(page));
    LeafOthers(m, bits, top, own, page, f, n);
    LeafOk(m, bits, max, root, top, own, f, PathOf(page)[3], w);
    assert TableOk(m, bits, own, f);
    assert PathOf(page)[..4 - 1] == PathOf(page)[..3];
  }

  lemma MapsAfterSame(m: seq<Word>, n: seq<Word>, k: seq<Word>, top: nat, page: nat, g: nat, user: bool)
    requires SameMaps(m, n, top) && MapsOne(n, k, top, page, g, user)
    ensures MapsOne(m, k, top, page, g, user)
  {
    forall p: nat | p < PAGES && p != page
      ensures SameAt(m, k, top, p)
    {
      assert SameAt(m, n, top, p) && SameAt(n, k, top, p);
    }
  }

  lemma SameTables(m: seq<Word>, n: seq<Word>, top: nat, path: seq<nat>, l: nat)
    requires |path| == 4 && Plain(path) && 1 <= l <= 3 && OnlyTable(m, n, top, path[..l])
    ensures forall j: nat :: 1 <= j <= 3 && j != l ==> SameTable(m, n, top, path[..j])
  {
    forall j: nat | 1 <= j <= 3 && j != l
      ensures SameTable(m, n, top, path[..j])
    {
      assert |path[..j]| != |path[..l]|;
    }
  }

  lemma TwoLevels(m: seq<Word>, n: seq<Word>, k: seq<Word>, bits: seq<bool>, mid: seq<bool>, after: seq<bool>,
                  own: Owners, more: Owners, out: Owners, top: nat, max: nat, i: nat, j: nat)
    requires max <= |bits| && mid == Taken(bits, max, i) && after == Taken(mid, max, j)
    requires Grew(m, n, bits, mid, own, more) && Grew(n, k, mid, after, more, out)
    requires SameMaps(m, n, top) && SameMaps(n, k, top)
    ensures after == Taken(bits, max, i + j) && Grew(m, k, bits, after, own, out) && SameMaps(m, k, top)
  {
    GrewThen(m, n, k, bits, mid, after, own, more, out);
    SameThen(m, n, k, top);
    TakenThen(bits, max, i, j);
  }

  /** The three tables above a page are there, and no other has come or gone. */
  ghost predicate PathMade(m: seq<Word>, n: seq<Word>, top: nat, path: seq<nat>)
    requires |path| == 4
  {
    && (forall l: nat :: 1 <= l <= 3 ==> WalkTo(n, top, path[..l]).Some?)
    && (forall q {:trigger SameTable(m, n, top, q)} ::
         |q| <= 3 && Plain(q) && q != path[..1] && q != path[..2] && q != path[..3] ==> SameTable(m, n, top, q))
  }

  lemma ThreeMade(m: seq<Word>, n: seq<Word>, k: seq<Word>, o: seq<Word>, top: nat, path: seq<nat>)
    requires |path| == 4 && Plain(path)
    requires OnlyTable(m, n, top, path[..1]) && OnlyTable(n, k, top, path[..2]) && OnlyTable(k, o, top, path[..3])
    requires WalkTo(n, top, path[..1]).Some? && WalkTo(k, top, path[..2]).Some? && WalkTo(o, top, path[..3]).Some?
    ensures PathMade(m, o, top, path)
  {
    SameTables(n, k, top, path, 2);
    SameTables(k, o, top, path, 3);
    forall q | |q| <= 3 && Plain(q) && q != path[..1] && q != path[..2] && q != path[..3]
      ensures SameTable(m, o, top, q)
    {
      assert SameTable(m, n, top, q) && SameTable(n, k, top, q) && SameTable(k, o, top, q);
    }
  }

  lemma PageTables(m: seq<Word>, n: seq<Word>, top: nat, page: nat)
    requires page < PAGES && PathMade(m, n, top, PathOf(page))
    ensures TablesAfter(m, n, top, page, 1)
  {
    var one := 1;
    forall q | |q| <= 3 && Plain(q)
      ensures TableAfter(m, n, top, page, one, q)
    {
      AboveNext(page, 0, q);
      var path := PathOf(page);
      assert |path[..1]| == 1 && |path[..2]| == 2 && |path[..3]| == 3;
      assert OnPath(page, q) <==> q == path[..1] || q == path[..2] || q == path[..3];
    }
  }

  lemma TablesAfterStay(m: seq<Word>, n: seq<Word>, k: seq<Word>, top: nat, first: nat, i: nat)
    requires TablesAfter(m, n, top, first, i) && TablesStay(n, k, top)
    ensures TablesAfter(m, k, top, first, i)
  {
    forall q | |q| <= 3 && Plain(q)
      ensures TableAfter(m, k, top, first, i, q)
    {
      assert TableAfter(m, n, top, first, i, q) && SameTable(n, k, top, q);
    }
  }

  /** What is still free has not been written. */
  lemma GrownFreeKept(m: seq<Word>, n: seq<Word>, bits: seq<bool>, after: seq<bool>, own: Owners, out: Owners,
                      root: nat, top: nat, max: nat)
    requires Grew(m, n, bits, after, own, out) && Tabled(n, after, max, root, top, out)
    ensures FreeKept(m, n, after)
  {
    forall f: nat | f < |after| && !after[f]
      ensures SameFrame(m, n, f)
    {
      OwnedUsed(n, after, top, out, f);
    }
  }

  ghost predicate RunSoFar(m: seq<Word>, n: seq<Word>, bits: seq<bool>, used: seq<bool>, own: Owners, out: Owners,
                           top: nat, first: nat, fs: seq<nat>, user: bool, tables: bool) {
    && MapsRun(m, n, top, first, fs, user) && NewRights(m, n, top, tables)
    && Grew(m, n, bits, used, own, out) && TablesAfter(m, n, top, first, |fs|)
  }

  lemma SoFarNext(m: seq<Word>, n: seq<Word>, k: seq<Word>, bits: seq<bool>, used: seq<bool>, after: seq<bool>,
                  own: Owners, had: Owners, out: Owners, top: nat, first: nat, fs: seq<nat>, g: nat, user: bool,
                  tables: bool)
    requires RunSoFar(m, n, bits, used, own, had, top, first, fs, user, tables) && first + |fs| < PAGES
    requires MapsOne(n, k, top, first + |fs|, g, user) && TablesAfter(n, k, top, first + |fs|, 1)
    requires Grew(n, k, used, after, had, out) && NewRights(n, k, top, tables)
    ensures RunSoFar(m, k, bits, after, own, out, top, first, fs + [g], user, tables)
  {
    RightsThen(m, n, k, top, tables);
    GrewThen(m, n, k, bits, used, after, own, had, out);
    MapsNext(m, n, k, top, first, fs, first + |fs|, g, user);
    TablesNext(m, n, k, top, first, |fs|);
    assert |fs + [g]| == |fs| + 1;
  }

  /** A run of pages of which those with the frames fs have been mapped and rest are left. */
  ghost predicate RunParts(m: seq<Word>, n: seq<Word>, bits: seq<bool>, used: seq<bool>, max: nat, own: Owners,
                           out: Owners, top: nat, first: nat, rest: nat, fs: seq<nat>, user: bool, each: nat)
    requires max <= |used|
  {
    && RunSoFar(m, n, bits, used, own, out, top, first, fs, user, each == 1 && user)
    && RunLeft(m, bits, used, max, top, first, |fs|, rest, each)
  }

  ghost predicate ServedSoFar(m: seq<Word>, bits: seq<bool>, used: seq<bool>, max: nat, top: nat, first: nat, k: nat, rest: nat)
    requires max <= |used|
  {
    max <= |bits| && Served(m, bits, max, top, first, first, k + rest) == k + Served(m, used, max, top, first, first + k, rest)
  }

  lemma ServedNext(m: seq<Word>, bits: seq<bool>, used: seq<bool>, max: nat, top: nat, first: nat, k: nat, rest: nat)
    requires max <= |used| && rest > 0 && !Exhausted(used, max)
    requires ServedSoFar(m, bits, used, max, top, first, k, rest)
    ensures ServedSoFar(m, bits, Taken(Taken(used, max, 1), max, Demand(m, top, first, first + k)), max, top, first, k + 1, rest - 1)
  {
    assert k + 1 + (rest - 1) == k + rest && first + k + 1 == first + (k + 1);
  }

  /** A run of total pages after those with the frames fs. */
  ghost predicate Mapping(m: seq<Word>, n: seq<Word>, bits: seq<bool>, used: seq<bool>, max: nat, own: Owners,
                          out: Owners, top: nat, first: nat, total: nat, fs: seq<nat>, user: bool, each: nat)
    requires max <= |used|
  {
    |fs| <= total &&
    forall rest: nat :: |fs| + rest == total ==> RunParts(m, n, bits, used, max, own, out, top, first, rest, fs, user, each)
  }

  lemma MappingStarts(m: seq<Word>, bits: seq<bool>, max: nat, own: Owners, top: nat, first: nat, total: nat,
                      user: bool, each: nat)
    requires max <= |bits| && CanMap(m, bits, max, top, first, first, total, each)
    ensures Mapping(m, m, bits, bits, max, own, own, top, first, total, [], user, each)
  {
    TablesStart(m, top, first);
    TakenGrew(m, bits, bits, own);
    SameRights(m, top, each == 1 && user);
    assert RunParts(m, m, bits, bits, max, own, own, top, first, total, [], user, each);
  }

  lemma MappingEnds(m: seq<Word>, n: seq<Word>, bits: seq<bool>, used: seq<bool>, max: nat, own: Owners,
                    out: Owners, top: nat, first: nat, total: nat, fs: seq<nat>, user: bool, each: nat)
    requires max <= |used| && Mapping(m, n, bits, used, max, own, out, top, first, total, fs, user, each)
    ensures MapsRun(m, n, top, first, fs, user) && |fs| <= total
    ensures Grew(m, n, bits, used, own, out) && TablesAfter(m, n, top, first, |fs|)
    ensures NewRights(m, n, top, each == 1 && user)
    ensures each == 1 && (|fs| == total || Exhausted(used, max)) ==>
      max <= |bits| && |fs| == Served(m, bits, max, top, first, first, total)
  {
    assert RunParts(m, n, bits, used, max, own, out, top, first, total - |fs|, fs, user, each);
  }

  /** The demand of a run, page by page, in the memory as it has become. */
  lemma MappingAsks(m: seq<Word>, n: seq<Word>, bits: seq<bool>, used: seq<bool>, max: nat, own: Owners, out: Owners,
                    root: nat, top: nat, first: nat, total: nat, fs: seq<nat>, user: bool, each: nat)
    requires Tabled(n, used, max, root, top, out) && first + total <= PAGES && |fs| < total
    requires Mapping(m, n, bits, used, max, own, out, top, first, total, fs, user, each)
    requires each > 0 ==> !Exhausted(used, max)
    ensures Lacks(n, top, PathOf(first + |fs|)) == Demand(m, top, first, first + |fs|)
    ensures Provides(n, Taken(used, max, each), max, Lacks(n, top, PathOf(first + |fs|)))
  {
    assert RunParts(m, n, bits, used, max, own, out, top, first, total - |fs|, fs, user, each);
    DemandIs(m, n, top, first, |fs|);
    GrownFreeKept(m, n, bits, used, own, out, root, top, max);
    TakenAdds(used, max, each);
    ProvidesKept(m, n, Taken(used, max, each), max, Demand(m, top, first, first + |fs|));
  }

  /** What the frames of a run still have to cover, and how many pages they have served. */
  ghost predicate RunLeft(m: seq<Word>, bits: seq<bool>, used: seq<bool>, max: nat, top: nat, first: nat, k: nat,
                          rest: nat, each: nat)
    requires max <= |used|
  {
    && CanMap(m, used, max, top, first, first + k, rest, each)
    && (each == 1 ==> ServedSoFar(m, bits, used, max, top, first, k, rest))
  }

  lemma LeftNext(m: seq<Word>, bits: seq<bool>, used: seq<bool>, after: seq<bool>, max: nat, top: nat, first: nat,
                 k: nat, rest: nat, each: nat)
    requires max <= |used| && rest > 0 && (each > 0 ==> !Exhausted(used, max))
    requires RunLeft(m, bits, used, max, top, first, k, rest, each)
    requires after == Taken(Taken(used, max, each), max, Demand(m, top, first, first + k))
    ensures RunLeft(m, bits, after, max, top, first, k + 1, rest - 1, each)
  {
    assert first + k + 1 == first + (k + 1);
    if each == 1 { ServedNext(m, bits, used, max, top, first, k, rest); }
  }

  /** What is left after one page more. */
  lemma MappingLeft(m: seq<Word>, n: seq<Word>, bits: seq<bool>, used: seq<bool>, after: seq<bool>, max: nat,
                    own: Owners, out: Owners, top: nat, first: nat, total: nat, fs: seq<nat>, user: bool, each: nat)
    requires max <= |used| && |fs| < total && (each > 0 ==> !Exhausted(used, max))
    requires Mapping(m, n, bits, used, max, own, out, top, first, total, fs, user, each)
    requires after == Taken(Taken(used, max, each), max, Demand(m, top, first, first + |fs|))
    ensures RunSoFar(m, n, bits, used, own, out, top, first, fs, user, each == 1 && user)
    ensures RunLeft(m, bits, after, max, top, first, |fs| + 1, total - |fs| - 1, each)
  {
    var rest := total - |fs|;
    assert RunParts(m, n, bits, used, max, own, out, top, first, rest, fs, user, each);
    LeftNext(m, bits, used, after, max, top, first, |fs|, rest, each);
  }

  lemma MappingFrom(m: seq<Word>, n: seq<Word>, bits: seq<bool>, used: seq<bool>, max: nat, own: Owners,
                    out: Owners, top: nat, first: nat, total: nat, fs: seq<nat>, user: bool, each: nat)
    requires max <= |used| && |fs| <= total
    requires RunSoFar(m, n, bits, used, own, out, top, first, fs, user, each == 1 && user)
    requires RunLeft(m, bits, used, max, top, first, |fs|, total - |fs|, each)
    ensures Mapping(m, n, bits, used, max, own, out, top, first, total, fs, user, each)
  {
  }

  /** A page more. */
  lemma MappingNext(m: seq<Word>, n: seq<Word>, k: seq<Word>, bits: seq<bool>, used: seq<bool>, after: seq<bool>,
                    max: nat, own: Owners, had: Owners, out: Owners, top: nat, first: nat, total: nat,
                    fs: seq<nat>, g: nat, user: bool, each: nat)
    requires max <= |used| && first + total <= PAGES && |fs| < total
    requires Mapping(m, n, bits, used, max, own, had, top, first, total, fs, user, each)
    requires each > 0 ==> !Exhausted(used, max)
    requires MapsOne(n, k, top, first + |fs|, g, user) && TablesAfter(n, k, top, first + |fs|, 1)
    requires Grew(n, k, used, after, had, out) && NewRights(n, k, top, each == 1 && user)
    requires after == Taken(Taken(used, max, each), max, Demand(m, top, first, first + |fs|))
    ensures Mapping(m, k, bits, after, max, own, out, top, first, total, fs + [g], user, each)
  {
    MappingLeft(m, n, bits, used, after, max, own, had, top, first, total, fs, user, each);
    SoFarNext(m, n, k, bits, used, after, own, had, out, top, first, fs, g, user, each == 1 && user);
    MappingFrom(m, k, bits, after, max, own, out, top, first, total, fs + [g], user, each);
  }

  /** The same for pages whose frames are given, so that none is taken for the page itself. */
  lemma GivenAsks(m: seq<Word>, n: seq<Word>, bits: seq<bool>, used: seq<bool>, max: nat, own: Owners, out: Owners,
                  root: nat, top: nat, first: nat, total: nat, fs: seq<nat>, user: bool)
    requires Tabled(n, used, max, root, top, out) && first + total <= PAGES && |fs| < total
    requires Mapping(m, n, bits, used, max, own, out, top, first, total, fs, user, 0)
    ensures Lacks(n, top, PathOf(first + |fs|)) == Demand(m, top, first, first + |fs|)
    ensures Provides(n, used, max, Lacks(n, top, PathOf(first + |fs|)))
  {
    MappingAsks(m, n, bits, used, max, own, out, root, top, first, total, fs, user, 0);
    assert Taken(used, max, 0) == used;
  }

  lemma GivenNext(m: seq<Word>, n: seq<Word>, k: seq<Word>, bits: seq<bool>, used: seq<bool>, after: seq<bool>,
                  max: nat, own: Owners, had: Owners, out: Owners, root: nat, top: nat, first: nat, total: nat,
                  fs: seq<nat>, page: nat, g: nat, user: bool)
    requires Tabled(n, used, max, root, top, had) && first + total <= PAGES && |fs| < total
    requires Mapping(m, n, bits, used, max, own, had, top, first, total, fs, user, 0)
    requires page == first + |fs| && MapsOne(n, k, top, page, g, user) && TablesAfter(n, k, top, page, 1)
    requires Grew(n, k, used, after, had, out) && NewRights(n, k, top, false)
    requires after == Taken(used, max, Lacks(n, top, PathOf(page)))
    ensures Mapping(m, k, bits, after, max, own, out, top, first, total, fs + [g], user, 0)
  {
    GivenAsks(m, n, bits, used, max, own, had, root, top, first, total, fs, user);
    assert Taken(used, max, 0) == used;
    MappingNext(m, n, k, bits, used, after, max, own, had, out, top, first, total, fs, g, user, 0);
  }

  /** The table at the end of the path is there, made of the next free frame if it was
      missing, and nothing else has changed. */
  ghost predicate LevelDone(m: seq<Word>, n: seq<Word>, bits: seq<bool>, after: seq<bool>, max: nat, own: Owners,
                            out: Owners, top: nat, path: seq<nat>, user: bool)
    requires max <= |bits|
  {
    forall i: nat {:trigger Taken(bits, max, i)} :: i == Missing(m, top, path) ==>
      && WalkTo(n, top, path).Some? && SameMaps(m, n, top) && OnlyTable(m, n, top, path)
      && after == Taken(bits, max, i) && Grew(m, n, bits, after, own, out) && NewRights(m, n, top, user)
  }

  /** The other two tables above the page are missing or not as before. */
  lemma OthersMissing(m: seq<Word>, n: seq<Word>, bits: seq<bool>, after: seq<bool>, max: nat, own: Owners,
                      out: Owners, top: nat, path: seq<nat>, l: nat, user: bool)
    requires |path| == 4 && Plain(path) && 1 <= l <= 3 && max <= |bits|
    requires LevelDone(m, n, bits, after, max, own, out, top, path[..l], user)
    ensures WalkTo(n, top, path[..l]).Some?
    ensures forall j: nat {:trigger path[..j]} :: 1 <= j <= 3 && j != l ==>
      Missing(n, top, path[..j]) == Missing(m, top, path[..j])
  {
    var i := Missing(m, top, path[..l]);
    assert after == Taken(bits, max, i);
    SameTables(m, n, top, path, l);
    forall j: nat {:trigger path[..j]} | 1 <= j <= 3 && j != l
      ensures Missing(n, top, path[..j]) == Missing(m, top, path[..j])
    {
      assert SameTable(m, n, top, path[..j]);
    }
  }

  lemma ThreeLevels(m: seq<Word>, n: seq<Word>, k: seq<Word>, o: seq<Word>, bits: seq<bool>, b1: seq<bool>, b2: seq<bool>,
                    after: seq<bool>, own: Owners, w1: Owners, w2: Owners, out: Owners, top: nat, max: nat,
                    path: seq<nat>, user: bool)
    requires |path| == 4 && Plain(path) && max <= |bits| == |b1| == |b2|
    requires LevelDone(m, n, bits, b1, max, own, w1, top, path[..1], user)
    requires LevelDone(n, k, b1, b2, max, w1, w2, top, path[..2], user)
    requires LevelDone(k, o, b2, after, max, w2, out, top, path[..3], user)
    ensures after == Taken(bits, max, Lacks(m, top, path)) && Grew(m, o, bits, after, own, out) && SameMaps(m, o, top)
    ensures PathMade(m, o, top, path) && NewRights(m, o, top, user)
  {
    OthersMissing(m, n, bits, b1, max, own, w1, top, path, 1, user);
    OthersMissing(n, k, b1, b2, max, w1, w2, top, path, 2, user);
    var i, j, l := Missing(m, top, path[..1]), Missing(n, top, path[..2]), Missing(k, top, path[..3]);
    assert b1 == Taken(bits, max, i) && b2 == Taken(b1, max, j) && after == Taken(b2, max, l);
    TwoLevels(m, n, k, bits, b1, b2, own, w1, w2, top, max, i, j);
    TwoLevels(m, k, o, bits, b2, after, own, w2, out, top, max, i + j, l);
    ThreeMade(m, n, k, o, top, path);
    RightsThen(m, n, k, top, user);
    RightsThen(m, k, o, top, user);
  }

  /** Each page of a run for user mode can be used by a program exactly if the tables that
      were there before let it be, and those that were not are made for user mode. */
  lemma UsableIff(m: seq<Word>, n: seq<Word>, top: nat, first: nat, fs: seq<nat>, j: nat, tables: bool)
    requires MapsRun(m, n, top, first, fs, true) && NewRights(m, n, top, tables)
    requires j < |fs| && first + j < PAGES
    ensures var path := PathOf(first + j);
      ForUser(n, top, path) <==> forall l: nat {:trigger path[..l]} :: 1 <= l <= 3 ==>
        if WalkTo(m, top, path[..l]).Some? then Grants(m, top, path[..l], true) else tables
  {
    var path := PathOf(first + j);
    PagePaths(first + j);
    assert MapsAt(n, top, first, fs, true, j) && path[..4] == path && path[..4 - 1] == path[..3];
    forall l: nat {:trigger path[..l]} | 1 <= l <= 3
      ensures Grants(n, top, path[..l], true) <==>
              if WalkTo(m, top, path[..l]).Some? then Grants(m, top, path[..l], true) else tables
    {
      LevelGranted(m, n, top, path, l, tables);
    }
    assert Grants(n, top, path[..4], true);
  }

  lemma LevelGranted(m: seq<Word>, n: seq<Word>, top: nat, path: seq<nat>, l: nat, tables: bool)
    requires Page(path) && 1 <= l <= 3 && NewRights(m, n, top, tables) && WalkTo(n, top, path).Some?
    ensures Grants(n, top, path[..l], true) <==>
            if WalkTo(m, top, path[..l]).Some? then Grants(m, top, path[..l], true) else tables
  {
    var q := path[..l];
    if WalkTo(n, top, q) == None { NoneBeyond(n, top, path, l); }
    assert RightsAt(m, n, top, q, tables);
  }

  /** In a space whose first top entry was made for the kernel, as at start-up, no page that
      alloc_page maps below it can be used by a program; only the copies that fork makes
      have that entry for user mode. */
  lemma KernelTopBars(m: seq<Word>, n: seq<Word>, k: seq<Word>, top: nat, first: nat, fs: seq<nat>, j: nat)
    requires NewRights(m, n, top, false) && WalkTo(m, top, [0]) == None && WalkTo(n, top, [0]).Some?
    requires MapsRun(n, k, top, first, fs, true) && NewRights(n, k, top, true)
    requires j < |fs| && first + j < PAGES && PathOf(first + j)[0] == 0
    ensures !ForUser(k, top, PathOf(first + j))
  {
    var path := PathOf(first + j);
    assert RightsAt(m, n, top, [0], false);
    UsableIff(n, k, top, first, fs, j, true);
    assert path[..1] == [0];
  }

  /** A page of the kernel's is out of reach for programs, whatever the tables allow. */
  lemma KernelPageGuarded(m: seq<Word>, n: seq<Word>, top: nat, first: nat, fs: seq<nat>, j: nat)
    requires MapsRun(m, n, top, first, fs, false) && j < |fs|
    ensures !ForUser(n, top, PathOf(first + j))
  {
    var path := PathOf(first + j);
    assert MapsAt(n, top, first, fs, false, j) && path[..4] == path && path[..4 - 1] == path[..3];
    assert !Grants(n, top, path[..4], true);
  }

  /** The frames listed are consecutive from first on. */
  ghost predicate InRow(fs: seq<nat>, first: nat) {
    forall j :: 0 <= j < |fs| ==> fs[j] == first + j
  }

  class Space {
    const ram: array<Word>        // physical memory, in 64-bit words
    const frames: FrameMap.Frames
    var root: nat                 // the frame cr3 points to
    var kernelNext: nat           // the next page of the kernel's area
    ghost var top: nat            // the frame of the self-referencing top table
    ghost var own: Owners

    ghost function Mem(): (m: seq<Word>)
      reads ram
      ensures |m| == ram.Length
    {
      ram[..]
    }

    ghost function Used(): seq<bool>
      reads frames`bits
    {
      frames.bits
    }

    /** The tables are in order, and so is the frame bitmap. */
    ghost predicate Steady()
      reads ram, frames.words, frames, `root, `top, `own
    {
      && ram as object != frames.words as object
      && frames.Valid()
      && Tabled(Mem(), Used(), frames.maxBlocks, root, top, own)
    }

    /** The start of paging in memman_init: slot 511 of the boot table and of a new
        table are pointed at the new one, which is empty otherwise. */
    constructor (memory: array<Word>, bitmap: FrameMap.Frames, pml4: nat, next: nat)
      requires memory as object != bitmap.words as object && bitmap.Valid()
      requires pml4 < |bitmap.bits| && bitmap.bits[pml4] && (pml4 + 1) * ENTRIES <= memory.Length
      requires bitmap.maxBlocks * ENTRIES <= memory.Length && bitmap.maxBlocks <= MAX_FRAMES
      requires bitmap.maxBlocks <= |bitmap.bits| && Provides(memory[..], bitmap.bits, bitmap.maxBlocks, 1)
      modifies memory, bitmap.words, bitmap
      ensures Steady() && ram == memory && frames == bitmap && root == pml4 && root != top && kernelNext == next
      ensures top == NextFree(old(bitmap.bits), bitmap.maxBlocks)
      ensures Used() == Taken(old(bitmap.bits), bitmap.maxBlocks, 1)
      ensures NothingMapped(Mem(), top) && Grants(Mem(), root, [SELF], false) && Grants(Mem(), top, [SELF], false)
    {
      ram := memory;
      frames := bitmap;
      root := pml4;
      kernelNext := next;
      new;
      ghost var m, bits := Mem(), Used();
      NextFreeFacts(bits, frames.maxBlocks);
      var addr, g := frames.AllocBlock();
      NextFreeIs(bits, frames.maxBlocks, g);
      var table := addr / PAGE;
      var first := Linked(ram[pml4 * ENTRIES + SELF], table, false);
      ram[pml4 * ENTRIES + SELF] := first;
      ghost var n := Mem();
      var second := Linked(ram[table * ENTRIES + SELF], table, false);
      ram[table * ENTRIES + SELF] := second;
      BootOk(m, bits, frames.maxBlocks, pml4, g, first, n, second, Mem());
      top := table;
      own := map[table := []];
    }

    /** Reads the word at a virtual address, whose page must be present. */
    method ReadAt(va: nat) returns (w: Word)
      requires Resolve(Mem(), root, va).Some?
      ensures Resolve(Mem(), root, va).value < |Mem()|
      ensures w == Mem()[Resolve(Mem(), root, va).value]
    {
      ResolvedInMemory(Mem(), root, va);
      w := ram[Resolve(ram[..], root, va).value];
    }

    /** Writes the word at a virtual address, whose page must be present. */
    method WriteAt(va: nat, w: Word)
      requires Resolve(Mem(), root, va).Some?
      modifies ram
      ensures Resolve(old(Mem()), root, va).value < |Mem()|
      ensures Mem() == old(Mem())[Resolve(old(Mem()), root, va).value := w]
    {
      ResolvedInMemory(Mem(), root, va);
      var k := Resolve(ram[..], root, va).value;
      ram[k] := w;
    }

    /** mem_alloc_block: the next free frame, or else 0 and no change. */
    method TakeFrame() returns (addr: nat, ghost g: nat)
      requires Steady()
      modifies frames, frames.words
      ensures frames.Valid() && addr == g * PAGE
      ensures Exhausted(old(Used()), frames.maxBlocks) ==> g == 0 && Used() == old(Used())
      ensures !Exhausted(old(Used()), frames.maxBlocks) ==>
        && g == NextFree(old(Used()), frames.maxBlocks) && 0 < g < frames.maxBlocks && !old(Used())[g]
        && Used() == old(Used())[g := true]
      ensures OnlyAdds(old(Used()), Used()) && Steady()
    {
      ghost var bits := Used();
      NextFreeFacts(bits, frames.maxBlocks);
      addr, g := frames.AllocBlock();
      if addr != 0 {
        NextFreeIs(bits, frames.maxBlocks, g);
        MarkOk(Mem(), bits, frames.maxBlocks, root, top, own, g);
      }
    }

    /** Makes the entry at va, which is word k, link what mem_alloc_block returns. */
    method LinkTable(va: nat, w: Word, user: bool, ghost k: nat)
      requires Steady() && Resolve(Mem(), root, va) == Some(k) && k < |Mem()| && w == Mem()[k]
      modifies ram, frames, frames.words
      ensures frames.Valid() && frames.maxBlocks <= |Used()|
      ensures var max, bits := frames.maxBlocks, old(Used());
        var g := if Exhausted(bits, max) then 0 else NextFree(bits, max);
        && g < MAX_FRAMES && Mem() == old(Mem())[k := Linked(w, g, user)]
        && Used() == (if Exhausted(bits, max) then bits else bits[g := true])
    {
      var addr, g := TakeFrame();
      WriteAt(va, Linked(w, addr / PAGE, user));
    }

    /** One level of create_page_for_current: if the entry at the end of the path is
        absent, it is made to link what mem_alloc_block returns, a frame or 0. The entry
        is reached through the window, which the tables above it make present. */
    method EnsureTable(path: seq<nat>, user: bool)
      requires Steady() && 1 <= |path| <= 3 && Plain(path)
      requires WalkTo(Mem(), top, path[..|path| - 1]).Some?
      modifies ram, frames, frames.words
      ensures frames.Valid() && frames.maxBlocks <= |Used()|
      ensures LevelMade(old(Mem()), Mem(), old(Used()), Used(), frames.maxBlocks, top, path, user)
    {
      ghost var m, bits, f := Mem(), Used(), WalkTo(Mem(), top, path[..|path| - 1]).value;
      WindowEntry(m, bits, frames.maxBlocks, root, top, own, path);
      var va := WindowAddress(path);
      var w := ReadAt(va);
      if !w.present {
        StepAbsent(m, bits, frames.maxBlocks, root, top, own, path, f);
        LinkTable(va, w, user, Key(f, path[|path| - 1]));
      } else {
        PresentLeads(m, bits, frames.maxBlocks, root, top, own, path, f);
      }
    }

    /** A level for which there is a zeroed frame, if it needs one, and more besides. */
    method MakeTable(path: seq<nat>, user: bool, ghost rest: nat)
      requires Steady() && 1 <= |path| <= 3 && Plain(path)
      requires WalkTo(Mem(), top, path[..|path| - 1]).Some?
      requires Provides(Mem(), Used(), frames.maxBlocks, Missing(Mem(), top, path) + rest)
      modifies ram, frames, frames.words, `own
      ensures Steady() && |Used()| == |old(Used())| && Provides(Mem(), Used(), frames.maxBlocks, rest)
      ensures LevelDone(old(Mem()), Mem(), old(Used()), Used(), frames.maxBlocks, old(own), own, top, path, user)
    {
      ghost var m, bits, max, k := Mem(), Used(), frames.maxBlocks, Missing(Mem(), top, path);
      ProvidesThen(m, bits, max, k, rest);
      EnsureTable(path, user);
      LevelOk(m, Mem(), bits, Used(), max, root, top, own, path, user);
      own := OwnersAfter(m, bits, max, top, own, path);
      GrownFreeKept(m, Mem(), bits, Used(), old(own), own, root, top, max);
      ProvidesKept(m, Mem(), Used(), max, rest);
    }

    /** The upper two levels of create_page_for_current. */
    method EnsureUpper(path: seq<nat>, user: bool) returns (ghost n: seq<Word>, ghost mid: seq<bool>, ghost more: Owners)
      requires Steady() && |path| == 4 && Plain(path)
      requires Provides(Mem(), Used(), frames.maxBlocks, Lacks(Mem(), top, path))
      modifies ram, frames, frames.words, `own
      ensures Steady() && |Used()| == |mid| == |old(Used())|
      ensures LevelDone(old(Mem()), n, old(Used()), mid, frames.maxBlocks, old(own), more, top, path[..1], user)
      ensures LevelDone(n, Mem(), mid, Used(), frames.maxBlocks, more, own, top, path[..2], user)
      ensures WalkTo(Mem(), top, path[..3][..2]).Some?
      ensures Provides(Mem(), Used(), frames.maxBlocks, Missing(Mem(), top, path[..3]))
    {
      Fronts(path);
      ghost var m, bits, had, max := Mem(), Used(), own, frames.maxBlocks;
      ghost var j, k := Missing(m, top, path[..2]), Missing(m, top, path[..3]);
      MakeTable(path[..1], user, j + k);
      n, mid, more := Mem(), Used(), own;
      OthersMissing(m, n, bits, mid, max, had, more, top, path, 1, user);
      MakeTable(path[..2], user, k);
      OthersMissing(n, Mem(), mid, Used(), max, more, own, top, path, 2, user);
    }

    /** The three levels. */
    method EnsureTables(path: seq<nat>, user: bool)
      requires Steady() && |path| == 4 && Plain(path)
      requires Provides(Mem(), Used(), frames.maxBlocks, Lacks(Mem(), top, path))
      modifies ram, frames, frames.words, `own
      ensures Steady()
      ensures PathMade(old(Mem()), Mem(), top, path) && SameMaps(old(Mem()), Mem(), top)
      ensures NewRights(old(Mem()), Mem(), top, user)
      ensures Used() == Taken(old(Used()), frames.maxBlocks, Lacks(old(Mem()), top, path))
      ensures Grew(old(Mem()), Mem(), old(Used()), Used(), old(own), own)
    {
      ghost var m, bits, had, max := Mem(), Used(), own, frames.maxBlocks;
      ghost var n, mid, more := EnsureUpper(path, user);
      ghost var k, late, last := Mem(), Used(), own;
      MakeTable(path[..3], user, 0);
      ThreeLevels(m, n, k, Mem(), bits, mid, late, Used(), had, more, last, own, top, max, path, user);
    }

    /** create_page_for_current: the three tables above a page's entry exist
        afterwards, no other table has come or gone and no translation has changed, and
        the window address of the entry is returned, which resolves to it. It takes as
        many frames as tables were missing. */
    method CreatePage(page: nat, user: bool) returns (va: nat)
      requires Steady() && page < PAGES
      requires Provides(Mem(), Used(), frames.maxBlocks, Lacks(Mem(), top, PathOf(page)))
      modifies ram, frames, frames.words, `own
      ensures Steady()
      ensures va == WindowAddress(PathOf(page))
      ensures TablesAfter(old(Mem()), Mem(), top, page, 1) && SameMaps(old(Mem()), Mem(), top)
      ensures NewRights(old(Mem()), Mem(), top, user)
      ensures WalkTo(Mem(), top, PathOf(page)[..3]).Some?
      ensures Used() == Taken(old(Used()), frames.maxBlocks, Lacks(old(Mem()), top, PathOf(page)))
      ensures Grew(old(Mem()), Mem(), old(Used()), Used(), old(own), own)
    {
      PagePaths(page);
      EnsureTables(PathOf(page), user);
      PageTables(old(Mem()), Mem(), top, page);
      va := PT_WINDOW + 8 * page;
    }

    /** Fills in the last-level entry that the window shows at va. */
    method SetEntry(page: nat, va: nat, frame: nat, user: bool, ghost tables: bool)
      requires Steady() && page < PAGES && va == WindowAddress(PathOf(page))
      requires WalkTo(Mem(), top, PathOf(page)[..3]).Some?
      requires frame < MAX_FRAMES && (frame + 1) * ENTRIES <= ram.Length
      modifies ram
      ensures Steady()
      ensures MapsOne(old(Mem()), Mem(), top, page, frame, user)
      ensures TablesStay(old(Mem()), Mem(), top) && Kept(old(Mem()), Mem(), own.Keys)
      ensures NewRights(old(Mem()), Mem(), top, tables)
    {
      PagePaths(page);
      ghost var m, path := Mem(), PathOf(page);
      ghost var f := WalkTo(m, top, path[..3]).value;
      WindowEntry(m, Used(), frames.maxBlocks, root, top, own, path);
      var w := ReadAt(va);
      var entry := Linked(w, frame, user);
      WriteAt(va, entry);
      LeafEffects(m, Used(), frames.maxBlocks, root, top, own, page, f, frame, user, entry, Mem());
      LeafRights(m, Mem(), Used(), top, own, f, path[3], tables);
      EntryKept(m, Mem(), f, path[3]);
    }

    /** Maps a page to a frame: the entry create_page_for_current hands back is
        filled in through the window. */
    method MapPage(page: nat, frame: nat, tables: bool, user: bool)
      requires Steady() && page < PAGES
      requires frame < MAX_FRAMES && (frame + 1) * ENTRIES <= ram.Length
      requires Provides(Mem(), Used(), frames.maxBlocks, Lacks(Mem(), top, PathOf(page)))
      modifies ram, frames, frames.words, `own
      ensures Steady()
      ensures MapsOne(old(Mem()), Mem(), top, page, frame, user)
      ensures TablesAfter(old(Mem()), Mem(), top, page, 1) && NewRights(old(Mem()), Mem(), top, tables)
      ensures Used() == Taken(old(Used()), frames.maxBlocks, Lacks(old(Mem()), top, PathOf(page)))
      ensures Grew(old(Mem()), Mem(), old(Used()), Used(), old(own), own)
    {
      ghost var m := Mem();
      var va := CreatePage(page, tables);
      ghost var n := Mem();
      SetEntry(page, va, frame, user, tables);
      RightsThen(m, n, Mem(), top, tables);
      MapsAfterSame(m, n, Mem(), top, page, frame, user);
      TablesAfterStay(m, n, Mem(), top, page, 1);
      KeptGrowing(m, n, Mem(), own.Keys, own.Keys);
    }

    /** One turn of the loop in alloc_page and alloc_kernel_page: a frame is taken
        and the page mapped to it, unless there is no frame. */
    method MapFresh(page: nat, user: bool) returns (ok: bool, ghost g: nat)
      requires Steady() && page < PAGES
      requires !Exhausted(Used(), frames.maxBlocks) ==>
        Provides(Mem(), Taken(Used(), frames.maxBlocks, 1), frames.maxBlocks, Lacks(Mem(), top, PathOf(page)))
      modifies ram, frames, frames.words, `own
      ensures Steady() && (ok <==> !Exhausted(old(Used()), frames.maxBlocks))
      ensures !ok ==> Mem() == old(Mem()) && Used() == old(Used()) && own == old(own)
      ensures ok ==>
        && g == NextFree(old(Used()), frames.maxBlocks) && !old(Used())[g] && Used()[g] && g !in own
        && MapsOne(old(Mem()), Mem(), top, page, g, user)
        && TablesAfter(old(Mem()), Mem(), top, page, 1) && NewRights(old(Mem()), Mem(), top, user)
        && Used() == Taken(Taken(old(Used()), frames.maxBlocks, 1), frames.maxBlocks, Lacks(old(Mem()), top, PathOf(page)))
      ensures Grew(old(Mem()), Mem(), old(Used()), Used(), old(own), own)
    {
      ghost var m, bits, had := Mem(), Used(), own;
      NextFreeFacts(bits, frames.maxBlocks);
      var addr;
      addr, g := TakeFrame();
      ok := addr != 0;
      ghost var mid := Used();
      TakenGrew(m, bits, mid, had);
      if ok {
        assert mid == Taken(bits, frames.maxBlocks, 1);
        MapPage(page, addr / PAGE, user, user);
        GrewThen(m, m, Mem(), bits, mid, Used(), had, had, own);
        PageNoTable(m, Mem(), bits, mid, Used(), frames.maxBlocks, root, top, had, own, g);
      }
    }

    /** The loops of alloc_page and alloc_kernel_page: the pages from first on map to
        distinct frames that were free, as many of the n as there are frames for, and
        no other translation changes. */
    method MapPages(first: nat, n: nat, user: bool) returns (ok: bool, ghost fs: seq<nat>)
      requires Steady() && first + n <= PAGES
      requires CanMap(Mem(), Used(), frames.maxBlocks, top, first, first, n, 1)
      modifies ram, frames, frames.words, `own
      ensures Steady() && (ok <==> |fs| == n)
      ensures |fs| == Served(old(Mem()), old(Used()), frames.maxBlocks, top, first, first, n)
      ensures !ok ==> Exhausted(Used(), frames.maxBlocks)
      ensures MapsRun(old(Mem()), Mem(), top, first, fs, user)
      ensures NewRights(old(Mem()), Mem(), top, user)
      ensures TablesAfter(old(Mem()), Mem(), top, first, |fs|)
      ensures FreshRun(old(Used()), Used(), fs) && NoTables(fs, own)
      ensures Grew(old(Mem()), Mem(), old(Used()), Used(), old(own), own)
    {
      ghost var m, bits, max := Mem(), Used(), frames.maxBlocks;
      fs := [];
      MappingStarts(m, bits, max, own, top, first, n, user, 1);
      for i := 0 to n
        invariant Steady() && |fs| == i
        invariant Mapping(m, Mem(), bits, Used(), max, old(own), own, top, first, n, fs, user, 1)
        invariant FreshRun(bits, Used(), fs) && NoTables(fs, own)
      {
        ok, fs := MapNext(first + i, first, n, user, m, bits, old(own), fs);
        if !ok {
          MappingEnds(m, Mem(), bits, Used(), max, old(own), own, top, first, n, fs, user, 1);
          return;
        }
      }
      MappingEnds(m, Mem(), bits, Used(), max, old(own), own, top, first, n, fs, user, 1);
      ok := true;
    }

    /** The body of the loop: one page more of the run, unless there is no frame. */
    method MapNext(page: nat, ghost first: nat, ghost n: nat, user: bool, ghost m: seq<Word>, ghost bits: seq<bool>,
                   ghost before: Owners, ghost fs: seq<nat>) returns (ok: bool, ghost out: seq<nat>)
      requires Steady() && first + n <= PAGES && |fs| < n && page == first + |fs|
      requires Mapping(m, Mem(), bits, Used(), frames.maxBlocks, before, own, top, first, n, fs, user, 1)
      requires FreshRun(bits, Used(), fs) && NoTables(fs, own)
      modifies ram, frames, frames.words, `own
      ensures Steady() && (ok <==> !Exhausted(old(Used()), frames.maxBlocks))
      ensures Mapping(m, Mem(), bits, Used(), frames.maxBlocks, before, own, top, first, n, out, user, 1)
      ensures FreshRun(bits, Used(), out) && NoTables(out, own)
      ensures if ok then |out| == |fs| + 1 else out == fs && Used() == old(Used())
    {
      ghost var n0, used, had, max := Mem(), Used(), own, frames.maxBlocks;
      if !Exhausted(used, max) {
        MappingAsks(m, n0, bits, used, max, before, had, root, top, first, n, fs, user, 1);
      }
      ghost var g;
      ok, g := MapFresh(page, user);
      out := fs;
      if ok {
        MappingNext(m, n0, Mem(), bits, used, Used(), max, before, had, own, top, first, n, fs, g, user, 1);
        NoTablesNext(bits, used, Used(), fs, g, n0, Mem(), had, own);
        FreshNext(bits, used, Used(), fs, g);
        out := fs + [g];
      }
    }

    /** alloc_page(virtual, size); a size of zero counts as one. The result is 0 if the
        frames ran out, with no frame left and the pages up to there mapped. */
    method AllocPage(virtual: nat, size: nat) returns (r: nat, ghost fs: seq<nat>)
      requires Steady() && virtual % PAGE == 0
      requires var n := if size == 0 then 1 else size;
        && virtual / PAGE + n <= PAGES
        && CanMap(Mem(), Used(), frames.maxBlocks, top, virtual / PAGE, virtual / PAGE, n, 1)
      modifies ram, frames, frames.words, `own
      ensures Steady()
      ensures var n := if size == 0 then 1 else size;
        && |fs| == Served(old(Mem()), old(Used()), frames.maxBlocks, top, virtual / PAGE, virtual / PAGE, n)
        && r == (if |fs| == n then virtual else 0)
        && (|fs| < n ==> Exhausted(Used(), frames.maxBlocks))
      ensures MapsRun(old(Mem()), Mem(), top, virtual / PAGE, fs, true)
      ensures NewRights(old(Mem()), Mem(), top, true)
      ensures TablesAfter(old(Mem()), Mem(), top, virtual / PAGE, |fs|)
      ensures FreshRun(old(Used()), Used(), fs) && NoTables(fs, own)
      ensures Grew(old(Mem()), Mem(), old(Used()), Used(), old(own), own)
    {
      var ok;
      ok, fs := MapPages(virtual / PAGE, if size == 0 then 1 else size, true);
      r := if ok then virtual else 0;
    }

    /** alloc_kernel_page(size): the next pages of the kernel's area, in order, or 0 if
        the frames ran out; the area's end then stays, with pages mapped behind it. */
    method AllocKernelPage(size: nat) returns (address: nat, ghost fs: seq<nat>)
      requires Steady() && kernelNext + size <= PAGES
      requires CanMap(Mem(), Used(), frames.maxBlocks, top, kernelNext, kernelNext, size, 1)
      modifies ram, frames, frames.words, `own, `kernelNext
      ensures Steady()
      ensures |fs| == Served(old(Mem()), old(Used()), frames.maxBlocks, top, old(kernelNext), old(kernelNext), size)
      ensures address == (if |fs| == size then old(kernelNext) * PAGE else 0)
      ensures kernelNext == (if |fs| == size then old(kernelNext) + size else old(kernelNext))
      ensures |fs| < size ==> Exhausted(Used(), frames.maxBlocks)
      ensures MapsRun(old(Mem()), Mem(), top, old(kernelNext), fs, false)
      ensures NewRights(old(Mem()), Mem(), top, false)
      ensures TablesAfter(old(Mem()), Mem(), top, old(kernelNext), |fs|)
      ensures FreshRun(old(Used()), Used(), fs) && NoTables(fs, own)
      ensures Grew(old(Mem()), Mem(), old(Used()), Used(), old(own), own)
    {
      var ok;
      ok, fs := MapPages(kernelNext, size, false);
      if !ok {
        return 0, fs;
      }
      kernelNext := kernelNext + size;
      address := (kernelNext - size) * PAGE;
    }

    /** The loop of brute_create_page: n pages map to n frames in a row. */
    method MapFrames(first: nat, frame: nat, n: nat, user: bool) returns (ghost fs: seq<nat>)
      requires Steady() && first + n <= PAGES
      requires (frame + n) * ENTRIES <= ram.Length && frame + n <= MAX_FRAMES
      requires CanMap(Mem(), Used(), frames.maxBlocks, top, first, first, n, 0)
      modifies ram, frames, frames.words, `own
      ensures Steady()
      ensures |fs| == n && InRow(fs, frame)
      ensures MapsRun(old(Mem()), Mem(), top, first, fs, user)
      ensures NewRights(old(Mem()), Mem(), top, false)
      ensures TablesAfter(old(Mem()), Mem(), top, first, n)
      ensures Grew(old(Mem()), Mem(), old(Used()), Used(), old(own), own)
    {
      ghost var m, bits, max := Mem(), Used(), frames.maxBlocks;
      fs := [];
      MappingStarts(m, bits, max, own, top, first, n, user, 0);
      for i := 0 to n
        invariant Steady() && |fs| == i && InRow(fs, frame)
        invariant Mapping(m, Mem(), bits, Used(), max, old(own), own, top, first, n, fs, user, 0)
      {
        fs := MapFrame(first + i, frame + i, first, n, user, m, bits, old(own), fs);
      }
      MappingEnds(m, Mem(), bits, Used(), max, old(own), own, top, first, n, fs, user, 0);
    }

    /** The body of the loop: one page more. */
    method MapFrame(page: nat, frame: nat, ghost first: nat, ghost n: nat, user: bool, ghost m: seq<Word>,
                    ghost bits: seq<bool>, ghost before: Owners, ghost fs: seq<nat>) returns (ghost out: seq<nat>)
      requires Steady() && first + n <= PAGES && |fs| < n && page == first + |fs|
      requires |fs| <= frame && InRow(fs, frame - |fs|)
      requires (frame + 1) * ENTRIES <= ram.Length && frame < MAX_FRAMES
      requires Mapping(m, Mem(), bits, Used(), frames.maxBlocks, before, own, top, first, n, fs, user, 0)
      modifies ram, frames, frames.words, `own
      ensures Steady() && |out| == |fs| + 1 && InRow(out, frame - |fs|)
      ensures Mapping(m, Mem(), bits, Used(), frames.maxBlocks, before, own, top, first, n, out, user, 0)
    {
      ghost var n0, used, had, max := Mem(), Used(), own, frames.maxBlocks;
      GivenAsks(m, n0, bits, used, max, before, had, root, top, first, n, fs, user);
      MapPage(page, frame, false, user);
      GivenNext(m, n0, Mem(), bits, used, Used(), max, before, had, own, root, top, first, n, fs, page, frame, user);
      out := fs + [frame];
    }

    /** brute_create_page: the pages from virtual on map to the frames from physical
        on, one to one; nothing is done when the rough test for free frames fails. */
    method MapDevice(physical: nat, virtual: nat, size: nat, user: bool) returns (made: nat, ghost fs: seq<nat>)
      requires Steady() && virtual % PAGE == 0 && virtual / PAGE + size <= PAGES
      requires (physical / PAGE + size) * ENTRIES <= ram.Length && physical / PAGE + size <= MAX_FRAMES
      requires size / 512 > frames.FreeCount()
        || CanMap(Mem(), Used(), frames.maxBlocks, top, virtual / PAGE, virtual / PAGE, size, 0)
      modifies ram, frames, frames.words, `own
      ensures Steady()
      ensures made == if size / 512 > old(frames.FreeCount()) then 0 else size
      ensures made == 0 ==> Mem() == old(Mem()) && Used() == old(Used())
      ensures |fs| == made && InRow(fs, physical / PAGE)
      ensures MapsRun(old(Mem()), Mem(), top, virtual / PAGE, fs, user)
      ensures NewRights(old(Mem()), Mem(), top, false)
      ensures TablesAfter(old(Mem()), Mem(), top, virtual / PAGE, made)
      ensures Grew(old(Mem()), Mem(), old(Used()), Used(), old(own), own)
    {
      made := 0;
      fs := [];
      TablesStart(Mem(), top, virtual / PAGE);
      TakenGrew(Mem(), Used(), Used(), own);
      SameRights(Mem(), top, false);
      if size / 512 > frames.FreeCount() || size == 0 {
        return;
      }
      made := size;
      fs := MapFrames(virtual / PAGE, physical / PAGE, size, user);
    }

    /** get_physical_address: where a mapped page's frame starts, read off the window,
        if that is below 1 TB. */
    method PhysicalAddress(a: nat) returns (phys: nat)
      requires Steady() && a / PAGE % 0x10_0000_0000 < PAGES
      requires Translate(Mem(), top, a / PAGE % 0x10_0000_0000).Some?
      ensures phys % PAGE == 0
      ensures Translate(Mem(), top, a / PAGE % 0x10_0000_0000) == Some(phys / PAGE)
         <==> Translate(Mem(), top, a / PAGE % 0x10_0000_0000).value < LOW_FRAMES
    {
      phys := PhysicalPage(a / PAGE % 0x10_0000_0000);
    }

    method PhysicalPage(page: nat) returns (phys: nat)
      requires Steady() && page < PAGES && Translate(Mem(), top, page).Some?
      ensures phys % PAGE == 0
      ensures Translate(Mem(), top, page) == Some(phys / PAGE) <==> Translate(Mem(), top, page).value < LOW_FRAMES
    {
      ByLeaf(Mem(), top, page);
      LeafShown(Mem(), Used(), frames.maxBlocks, root, top, own, page);
      var w := ReadAt(PT_WINDOW + 8 * page);
      FrameAddressIff(w.frame);
      phys := FrameAddress(w.frame);
    }
  }
}

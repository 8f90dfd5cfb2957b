/**
  The relation between an address space and its copy: which pages of the copy are
  there so far, on frames of their own with the same words.
 */
module Copies {
  import opened Basics
  import opened Paging
  import opened Tables

  /** A page below 3 GB that is present in the old space at top of memory m. */
  ghost predicate Source(m: seq<Word>, top: nat, path: seq<nat>)
    requires Page(path)
  {
    path[0] == 0 && path[1] < 3 && Present(m, top, path)
  }

  ghost function SourceFrame(m: seq<Word>, top: nat, path: seq<nat>): nat
    requires Page(path) && Source(m, top, path)
  {
    Leaf(m, top, path).value.frame
  }

  /** Frame h of n holds the words that frame f of m holds. */
  ghost predicate SameBlock(m: seq<Word>, f: nat, n: seq<Word>, h: nat) {
    && f * ENTRIES + ENTRIES <= |m| && h * ENTRIES + ENTRIES <= |n|
    && forall j: nat :: j < ENTRIES ==> n[Key(h, j)] == m[Key(f, j)]
  }

  /** Writing frames that hold no table changes no walk. */
  lemma {:induction false} KeptWalk(m: seq<Word>, n: seq<Word>, bits: seq<bool>, top: nat, own: Owners,
                                     used: set<nat>, path: seq<nat>)
    requires Rooted(m, bits, top, own) && Kept(m, n, used) && own.Keys !! used
    requires |path| <= 4 && Plain(path)
    ensures WalkTo(n, top, path) == WalkTo(m, top, path)
    decreases |path|
  {
    if path != [] {
      var front := path[..|path| - 1];
      KeptWalk(m, n, bits, top, own, used, front);
      if WalkTo(m, top, front).Some? {
        WalkOwner(m, bits, top, own, front);
        KeptStep(m, n, used, WalkTo(m, top, front).value, path[|path| - 1]);
      }
    }
  }

  lemma KeptPath(m: seq<Word>, n: seq<Word>, bits: seq<bool>, top: nat, own: Owners, used: set<nat>, path: seq<nat>)
    requires Rooted(m, bits, top, own) && Kept(m, n, used) && own.Keys !! used
    requires Page(path)
    ensures WalkTo(n, top, path) == WalkTo(m, top, path) && Leaf(n, top, path) == Leaf(m, top, path)
  {
    KeptWalk(m, n, bits, top, own, used, path);
    KeptWalk(m, n, bits, top, own, used, path[..3]);
    if WalkTo(m, top, path[..3]).Some? {
      var t := WalkTo(m, top, path[..3]).value;
      WalkOwner(m, bits, top, own, path[..3]);
      assert TableOk(m, bits, own, t);
      KeptStep(m, n, used, t, path[3]);
    }
  }

  lemma KeptEntry(m: seq<Word>, n: seq<Word>, bits: seq<bool>, top: nat, own: Owners, used: set<nat>, q: seq<nat>)
    requires Rooted(m, bits, top, own) && Kept(m, n, used) && own.Keys !! used
    requires 1 <= |q| <= 4 && Plain(q)
    ensures EntryAt(n, top, q) == EntryAt(m, top, q)
  {
    var front := q[..|q| - 1];
    KeptWalk(m, n, bits, top, own, used, front);
    if WalkTo(m, top, front).Some? {
      WalkOwner(m, bits, top, own, front);
      KeptStep(m, n, used, WalkTo(m, top, front).value, q[|q| - 1]);
    }
  }

  lemma KeptRooted(m: seq<Word>, n: seq<Word>, bits: seq<bool>, top: nat, own: Owners, used: set<nat>)
    requires Rooted(m, bits, top, own) && Kept(m, n, used) && own.Keys !! used
    ensures Rooted(n, bits, top, own)
  {
    forall f | f in own
      ensures TableOk(n, bits, own, f)
    {
      assert TableOk(m, bits, own, f);
    }
    forall f, i: nat | f in own && i < ENTRIES
      ensures EdgeOk(n, own, f, i)
    {
      assert EdgeOk(m, own, f, i) && TableOk(m, bits, own, f);
      KeptStep(m, n, used, f, i);
    }
  }

  lemma KeptBlock(m: seq<Word>, f: nat, n: seq<Word>, k: seq<Word>, used: set<nat>, h: nat)
    requires SameBlock(m, f, n, h) && Kept(n, k, used) && h !in used
    ensures SameBlock(m, f, k, h)
  {
    forall j: nat | j < ENTRIES
      ensures k[Key(h, j)] == m[Key(f, j)]
    {
      assert n[Key(h, j)] == m[Key(f, j)];
      KeptStep(n, k, used, h, j);
    }
  }

  /** The copied pages by the frame that holds them. */
  type Pages = map<nat, seq<nat>>

  /** Frame h was made for page p and holds the words of p's frame. */
  ghost predicate OnOwnFrame(m: seq<Word>, top: nat, n: seq<Word>, made: Pages, p: seq<nat>, h: nat)
    requires Page(p) && Source(m, top, p)
  {
    h in made && made[h] == p && SameBlock(m, SourceFrame(m, top, p), n, h)
  }

  /** A page is in the copy at g exactly if its rank is below r and it is a source,
      and then on a frame made for it, with the source's words, for user mode. */
  ghost predicate PageCopied(m: seq<Word>, top: nat, n: seq<Word>, g: nat, made: Pages, r: nat, p: seq<nat>)
    requires Page(p)
  {
    if Source(m, top, p) && Rank(p) < r then
      && WalkTo(n, g, p).Some? && OnOwnFrame(m, top, n, made, p, WalkTo(n, g, p).value)
      && Leaf(n, g, p).Some? && Leaf(n, g, p).value.rw && Leaf(n, g, p).value.user
    else
      WalkTo(n, g, p) == None && !Present(n, g, p)
  }

  /** A table of the copy is where its path leads, by an entry that lets a program
      through. */
  ghost predicate Reached(n: seq<Word>, g: nat, own: Owners, f: nat)
    requires f in own
  {
    WalkTo(n, g, own[f]) == Some(f) && (own[f] != [] ==> Grants(n, g, own[f], true))
  }

  /** In memory n the copy at g has its tables own and the pages made, for the
      sources of rank below r. */
  ghost predicate Copying(m: seq<Word>, top: nat, n: seq<Word>, bits: seq<bool>, g: nat, own: Owners,
                          made: Pages, r: nat) {
    && Rooted(n, bits, g, own) && own.Keys !! made.Keys
    && (forall f {:trigger Reached(n, g, own, f)} :: f in own ==> Reached(n, g, own, f))
    && (forall p {:trigger PageCopied(m, top, n, g, made, r, p)} :: Page(p) ==> PageCopied(m, top, n, g, made, r, p))
  }

  /** A blank top table is the copy of nothing. */
  lemma CopyStarts(m: seq<Word>, top: nat, n: seq<Word>, bits: seq<bool>, g: nat)
    requires Blank(n, g) && g < MAX_FRAMES && g < |bits| && bits[g]
    ensures Copying(m, top, n, bits, g, map[g := []], map[], 0)
  {
    var own: Owners := map[g := []];
    forall i: nat | i < ENTRIES
      ensures EdgeOk(n, own, g, i)
    {
      assert n[Key(g, i)] == ZERO;
    }
    forall p | Page(p)
      ensures PageCopied(m, top, n, g, map[], 0, p)
    {
      BlankStep(n, g, p[0]);
      assert p[..1][..0] == [];
      NoneBeyond(n, g, p, 1);
      assert p[..3][..1] == p[..1];
      NoneBeyond(n, g, p[..3], 1);
    }
  }

  /** Pages that are no sources take no step. */
  lemma CopySkips(m: seq<Word>, top: nat, n: seq<Word>, bits: seq<bool>, g: nat, own: Owners, made: Pages,
                  r: nat, l: nat)
    requires Copying(m, top, n, bits, g, own, made, r) && r <= l
    requires forall p :: Page(p) && r <= Rank(p) < l ==> !Source(m, top, p)
    ensures Copying(m, top, n, bits, g, own, made, l)
  {
    forall p | Page(p)
      ensures PageCopied(m, top, n, g, made, l, p)
    {
      assert PageCopied(m, top, n, g, made, r, p);
    }
  }

  /** Writes to frames that the copy does not use leave it as it is. */
  lemma CopyKept(m: seq<Word>, top: nat, n: seq<Word>, bits: seq<bool>, g: nat, own: Owners, made: Pages, r: nat,
                 k: seq<Word>, used: set<nat>)
    requires Copying(m, top, n, bits, g, own, made, r)
    requires Kept(n, k, used) && own.Keys !! used && made.Keys !! used
    ensures Copying(m, top, k, bits, g, own, made, r)
  {
    KeptRooted(n, k, bits, g, own, used);
    forall f | f in own
      ensures Reached(k, g, own, f)
    {
      assert Reached(n, g, own, f) && TableOk(n, bits, own, f);
      KeptWalk(n, k, bits, g, own, used, own[f]);
      if own[f] != [] { KeptEntry(n, k, bits, g, own, used, own[f]); }
    }
    forall p | Page(p)
      ensures PageCopied(m, top, k, g, made, r, p)
    {
      assert PageCopied(m, top, n, g, made, r, p);
      KeptPath(n, k, bits, g, own, used, p);
      if Source(m, top, p) && Rank(p) < r {
        KeptBlock(m, SourceFrame(m, top, p), n, k, used, WalkTo(n, g, p).value);
      }
    }
  }

  lemma NotBelow(n: seq<Word>, g: nat, path: seq<nat>, q: seq<nat>)
    requires WalkTo(n, g, path).Some? && WalkTo(n, g, q) == None
    ensures !(q <= path)
  {
    if q <= path {
      assert path[..|q|] == q;
      NoneBeyond(n, g, path, |q|);
    }
  }

  lemma ReachedElsewhere(n: seq<Word>, k: seq<Word>, bits: seq<bool>, g: nat, own: Owners, f: nat, i: nat, t: nat)
    requires Rooted(n, bits, g, own) && f in own && i < ENTRIES && t in own && Reached(n, g, own, t)
    requires |n| == |k| && (forall j :: 0 <= j < |n| && j != Key(f, i) ==> k[j] == n[j])
    requires !(own[f] + [i] <= own[t])
    ensures Reached(k, g, own, t)
  {
    assert TableOk(n, bits, own, t);
    WriteElsewhere(n, k, bits, g, own, f, i, own[t]);
    if own[t] != [] { EntryElsewhere(n, k, bits, g, own, f, i, own[t]); }
  }

  /** A page of the copy is for user mode at all four levels. */
  lemma CopyForUser(m: seq<Word>, top: nat, n: seq<Word>, bits: seq<bool>, g: nat, own: Owners, made: Pages, r: nat,
                    p: seq<nat>)
    requires Copying(m, top, n, bits, g, own, made, r) && Page(p) && Source(m, top, p) && Rank(p) < r
    ensures ForUser(n, g, p)
  {
    assert PageCopied(m, top, n, g, made, r, p) && p[..4] == p && p[..4 - 1] == p[..3];
    forall l: nat {:trigger p[..l]} | 1 <= l <= 3
      ensures Grants(n, g, p[..l], true)
    {
      if WalkTo(n, g, p[..l]) == None { NoneBeyond(n, g, p, l); }
      WalkOwner(n, bits, g, own, p[..l]);
      assert Reached(n, g, own, WalkTo(n, g, p[..l]).value);
    }
    assert Grants(n, g, p[..4], true);
  }

  lemma TakenPrefix(q: seq<nat>, p: seq<nat>, l: nat)
    requires l <= |p| && !(q <= p)
    ensures !(q <= p[..l])
  {
  }

  lemma ForUserElsewhere(n: seq<Word>, k: seq<Word>, bits: seq<bool>, g: nat, own: Owners, f: nat, i: nat, p: seq<nat>)
    requires Rooted(n, bits, g, own) && f in own && i < ENTRIES && Page(p) && !(own[f] + [i] <= p)
    requires |n| == |k| && (forall j :: 0 <= j < |n| && j != Key(f, i) ==> k[j] == n[j])
    ensures ForUser(n, g, p) ==> ForUser(k, g, p)
  {
    forall l: nat {:trigger p[..l]} | 1 <= l <= 4
      ensures EntryAt(k, g, p[..l]) == EntryAt(n, g, p[..l])
    {
      TakenPrefix(own[f] + [i], p, l);
      EntryElsewhere(n, k, bits, g, own, f, i, p[..l]);
    }
  }

  /** A new table of the copy, blank, linked in at the end of path q. */
  lemma CopyLinks(m: seq<Word>, top: nat, n: seq<Word>, bits: seq<bool>, g: nat, own: Owners, made: Pages, r: nat,
                  q: seq<nat>, f: nat, h: nat, w: Word, k: seq<Word>)
    requires Copying(m, top, n, bits, g, own, made, r)
    requires 1 <= |q| <= 3 && Plain(q) && f in own && own[f] == q[..|q| - 1]
    requires Key(f, q[|q| - 1]) < |n| && !n[Key(f, q[|q| - 1])].present
    requires Blank(n, h) && h !in own && h !in made && h < |bits| && bits[h] && h < MAX_FRAMES
    requires LinksTo(w, h) && w.rw && w.user && k == n[Key(f, q[|q| - 1]) := w]
    ensures Copying(m, top, k, bits, g, own[h := q], made, r)
  {
    var i := q[|q| - 1];
    assert own[f] + [i] == q;
    assert Reached(n, g, own, f) && TableOk(n, bits, own, f);
    assert LinksBlank(n, k, own, f, i, h);
    assert bits[h := true] == bits;
    LinkKeepsRooted(n, k, bits, bits, g, own, f, i, h);
    EntryKept(n, k, f, i);
    assert q[..|q| - 1] == own[f] && WalkTo(n, g, q) == None;
    forall t | t in own
      ensures Reached(k, g, own, t)
    {
      assert Reached(n, g, own, t) && TableOk(n, bits, own, t);
      NotBelow(n, g, own[t], q);
      ReachedElsewhere(n, k, bits, g, own, f, i, t);
    }
    forall p | Page(p)
      ensures PageCopied(m, top, k, g, made, r, p)
    {
      assert PageCopied(m, top, n, g, made, r, p);
      LinkKeepsWalks(n, k, bits, g, own, f, i, h, p);
      if Source(m, top, p) && Rank(p) < r {
        KeptBlock(m, SourceFrame(m, top, p), n, k, {f}, WalkTo(n, g, p).value);
      }
    }
    var out := own[h := q];
    forall t | t in out
      ensures Reached(k, g, out, t)
    {
      if t == h {
        assert WalkTo(k, g, q[..|q| - 1]) == Some(f);
        LinkedEntry(n, k, bits, g, own, f, i);
      } else {
        assert Reached(k, g, own, t);
      }
    }
  }

  /** The page of rank r is copied: its words are in frame h, and its entry is
      written. */
  lemma CopyMaps(m: seq<Word>, top: nat, n: seq<Word>, bits: seq<bool>, g: nat, own: Owners, made: Pages, r: nat,
                 q: seq<nat>, t: nat, h: nat, w: Word, k: seq<Word>)
    requires Copying(m, top, n, bits, g, own, made, r)
    requires Page(q) && Source(m, top, q) && r == Rank(q)
    requires t in own && own[t] == q[..3]
    requires h !in own && h !in made && SameBlock(m, SourceFrame(m, top, q), n, h)
    requires LinksTo(w, h) && w.rw && w.user
    requires Key(t, q[3]) < |n| && k == n[Key(t, q[3]) := w]
    ensures Copying(m, top, k, bits, g, own, made[h := q], r + 1)
  {
    assert Reached(n, g, own, t) && TableOk(n, bits, own, t);
    LeafKeepsRooted(n, k, bits, g, own, t, q[3]);
    EntryKept(n, k, t, q[3]);
    forall f | f in own
      ensures Reached(k, g, own, f)
    {
      assert TableOk(n, bits, own, f);
      ReachedElsewhere(n, k, bits, g, own, t, q[3], f);
    }
    var more, l := made[h := q], r + 1;
    forall p | Page(p)
      ensures PageCopied(m, top, k, g, more, l, p)
    {
      CopyMapsPage(m, top, n, bits, g, own, made, r, l, q, t, h, w, k, p);
    }
  }

  lemma CopyMapsPage(m: seq<Word>, top: nat, n: seq<Word>, bits: seq<bool>, g: nat, own: Owners, made: Pages,
                     r: nat, l: nat, q: seq<nat>, t: nat, h: nat, w: Word, k: seq<Word>, p: seq<nat>)
    requires Copying(m, top, n, bits, g, own, made, r)
    requires Page(q) && Source(m, top, q) && r == Rank(q) && l == r + 1
    requires t in own && own[t] == q[..3]
    requires h !in own && h !in made && SameBlock(m, SourceFrame(m, top, q), n, h)
    requires LinksTo(w, h) && w.rw && w.user
    requires Key(t, q[3]) < |n| && k == n[Key(t, q[3]) := w] && Kept(n, k, {t})
    requires Page(p)
    ensures PageCopied(m, top, k, g, made[h := q], l, p)
  {
    assert Reached(n, g, own, t) && PageCopied(m, top, n, g, made, r, p);
    LeafWalk(n, k, bits, g, own, t, q);
    if p == q {
      assert q[..4 - 1] == q[..3];
      KeptBlock(m, SourceFrame(m, top, q), n, k, {t}, h);
    } else {
      PathElsewhere(n, k, bits, g, own, t, q[3], p);
      if Source(m, top, p) && Rank(p) < l {
        if Rank(p) == r { RankUnique(p, q); }
        KeptBlock(m, SourceFrame(m, top, p), n, k, {t}, WalkTo(n, g, p).value);
      }
    }
  }

  /** The self-reference in slot 511 is out of the copy's way. */
  lemma CopySelf(m: seq<Word>, top: nat, n: seq<Word>, bits: seq<bool>, g: nat, own: Owners, made: Pages, r: nat,
                 v: Word, k: seq<Word>)
    requires Copying(m, top, n, bits, g, own, made, r)
    requires LinksTo(v, g) && Key(g, SELF) < |n| && k == n[Key(g, SELF) := v]
    ensures Copying(m, top, k, bits, g, own, made, r)
    ensures Step(k, Some(g), SELF) == Some(g)
  {
    assert TableOk(n, bits, own, g) && !Plain(own[g] + [SELF]);
    EntryKept(n, k, g, SELF);
    forall f | f in own
      ensures TableOk(k, bits, own, f) && Reached(k, g, own, f)
    {
      assert TableOk(n, bits, own, f);
      ReachedElsewhere(n, k, bits, g, own, g, SELF, f);
    }
    forall f, i: nat | f in own && i < ENTRIES
      ensures EdgeOk(k, own, f, i)
    {
      assert EdgeOk(n, own, f, i);
      if f != g || i != SELF { StepElsewhere(n, k, g, SELF, f, i); }
    }
    forall p | Page(p)
      ensures PageCopied(m, top, k, g, made, r, p)
    {
      assert PageCopied(m, top, n, g, made, r, p);
      PathElsewhere(n, k, bits, g, own, g, SELF, p);
      if Source(m, top, p) && Rank(p) < r {
        KeptBlock(m, SourceFrame(m, top, p), n, k, {g}, WalkTo(n, g, p).value);
      }
    }
  }

  /** Entry 3 of the copy's second table is out of the way of the pages outside the
      fourth gigabyte. */
  lemma CopyShares(m: seq<Word>, top: nat, n: seq<Word>, bits: seq<bool>, g: nat, own: Owners, made: Pages, r: nat,
                   d: nat, w: Word, k: seq<Word>)
    requires Copying(m, top, n, bits, g, own, made, r)
    requires d in own && own[d] == [0] && d != g && Key(d, 3) < |n| && k == n[Key(d, 3) := w]
    ensures forall p {:trigger PageCopied(m, top, k, g, made, r, p)} ::
      Page(p) && !(p[0] == 0 && p[1] == 3) ==>
        PageCopied(m, top, k, g, made, r, p) && (Source(m, top, p) && Rank(p) < r ==> ForUser(k, g, p))
    ensures WalkTo(k, g, own[d]) == Some(d) && d * ENTRIES + ENTRIES <= |k|
    ensures Step(n, Some(g), SELF) == Some(g) ==> Step(k, Some(g), SELF) == Some(g)
  {
    assert TableOk(n, bits, own, d) && Reached(n, g, own, d);
    EntryKept(n, k, d, 3);
    WriteElsewhere(n, k, bits, g, own, d, 3, own[d]);
    StepElsewhere(n, k, d, 3, g, SELF);
    forall p | Page(p) && !(p[0] == 0 && p[1] == 3)
      ensures PageCopied(m, top, k, g, made, r, p) && (Source(m, top, p) && Rank(p) < r ==> ForUser(k, g, p))
    {
      assert PageCopied(m, top, n, g, made, r, p);
      PathElsewhere(n, k, bits, g, own, d, 3, p);
      if Source(m, top, p) && Rank(p) < r {
        KeptBlock(m, SourceFrame(m, top, p), n, k, {d}, WalkTo(n, g, p).value);
        CopyForUser(m, top, n, bits, g, own, made, r, p);
        ForUserElsewhere(n, k, bits, g, own, d, 3, p);
      }
    }
  }

  /** The kernel's gigabyte, in any memory n: as long as entry 3 of both second
      tables agrees, the two spaces translate every page of it alike, whatever
      changes below that entry. */
  lemma KernelShared(n: seq<Word>, g: nat, top: nat, first: seq<nat>, d: nat, e: nat, p: seq<nat>)
    requires Page(p) && p[..1] == first && p[1] == 3
    requires WalkTo(n, g, first) == Some(d) && WalkTo(n, top, first) == Some(e)
    requires d * ENTRIES + ENTRIES <= |n| && e * ENTRIES + ENTRIES <= |n|
    requires n[Key(d, 3)] == n[Key(e, 3)]
    ensures WalkTo(n, g, p) == WalkTo(n, top, p)
  {
    var q, t := p[..2], p[..3];
    assert q[..1] == first && t[..2] == q && p[..4 - 1] == t;
    assert WalkTo(n, g, q) == WalkTo(n, top, q);
    assert WalkTo(n, g, t) == WalkTo(n, top, t);
  }
}

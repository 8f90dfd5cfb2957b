/**
  The tables of one address space as a tree: every table frame is reached along one
  path only, so that a write to an entry changes the walks through it and no other.
 */
module Tables {
  import opened Basics
  import opened Paging

  /** The path along which each table frame is reached. */
  type Owners = map<nat, seq<nat>>

  /** A path that stays out of the self-reference in slot 511 of the top table. */
  ghost predicate Plain(path: seq<nat>) {
    Indices(path) && (path != [] ==> path[0] != SELF)
  }

  function Key(f: nat, i: nat): nat { f * ENTRIES + i }

  /** Entry i of table f, if present, leads to a table whose owner path extends
      f's by i. */
  ghost predicate EdgeOk(m: seq<Word>, own: Owners, f: nat, i: nat)
    requires f in own && i < ENTRIES
  {
    f * ENTRIES + ENTRIES <= |m| && |own[f]| < 3 && Plain(own[f] + [i]) && m[Key(f, i)].present ==>
      && Step(m, Some(f), i).Some?
      && var g := Step(m, Some(f), i).value;
         g in own && own[g] == own[f] + [i]
  }

  ghost predicate TableOk(m: seq<Word>, bits: seq<bool>, own: Owners, f: nat)
    requires f in own
  {
    && |own[f]| <= 3 && Plain(own[f])
    && f * ENTRIES + ENTRIES <= |m| && f < MAX_FRAMES
    && f < |bits| && bits[f]
  }

  /** The tables in own form a tree below top. */
  ghost predicate Rooted(m: seq<Word>, bits: seq<bool>, top: nat, own: Owners) {
    && top in own && own[top] == []
    && (forall f :: f in own ==> TableOk(m, bits, own, f))
    && (forall f, i: nat :: f in own && i < ENTRIES ==> EdgeOk(m, own, f, i))
  }

  ghost predicate Tree(m: seq<Word>, bits: seq<bool>, top: nat, own: Owners) {
    Rooted(m, bits, top, own) && SelfMapped(m, top, top)
  }

  /** What a walk reaches is the table its path owns. */
  lemma {:induction false} WalkOwner(m: seq<Word>, bits: seq<bool>, top: nat, own: Owners, path: seq<nat>)
    requires Rooted(m, bits, top, own)
    requires |path| <= 3 && Plain(path) && WalkTo(m, top, path).Some?
    ensures var f := WalkTo(m, top, path).value; f in own && own[f] == path
    decreases |path|
  {
    if path != [] {
      var front := path[..|path| - 1];
      WalkOwner(m, bits, top, own, front);
      var f := WalkTo(m, top, front).value;
      assert EdgeOk(m, own, f, path[|path| - 1]);
      assert front + [path[|path| - 1]] == path;
    }
  }

  lemma StepElsewhere(m: seq<Word>, n: seq<Word>, f: nat, i: nat, t: nat, j: nat)
    requires |m| == |n| && (forall k :: 0 <= k < |m| && k != Key(f, i) ==> n[k] == m[k])
    requires t != f || j != i
    requires i < ENTRIES
    ensures Step(n, Some(t), j) == Step(m, Some(t), j)
    ensures t * ENTRIES + ENTRIES <= |m| && j < ENTRIES ==> n[Key(t, j)] == m[Key(t, j)]
  {
    if j < ENTRIES && t * ENTRIES + ENTRIES <= |m| {
      assert Key(t, j) != Key(f, i);
    }
  }

  lemma FrontPrefix(p: seq<nat>, path: seq<nat>)
    requires path != []
    ensures p <= path[..|path| - 1] ==> p <= path
  {
  }

  /** A write to entry i of table f changes no walk except those whose path starts
      with f's path followed by i. */
  lemma {:induction false} WriteElsewhere(m: seq<Word>, n: seq<Word>, bits: seq<bool>, top: nat, own: Owners,
                                          f: nat, i: nat, path: seq<nat>)
    requires Rooted(m, bits, top, own)
    requires |m| == |n| && (forall k :: 0 <= k < |m| && k != Key(f, i) ==> n[k] == m[k])
    requires f in own && i < ENTRIES
    requires |path| <= 4 && Plain(path)
    requires !(own[f] + [i] <= path)
    ensures WalkTo(n, top, path) == WalkTo(m, top, path)
    decreases |path|
  {
    if path != [] {
      var front := path[..|path| - 1];
      var j := path[|path| - 1];
      FrontPrefix(own[f] + [i], path);
      WriteElsewhere(m, n, bits, top, own, f, i, front);
      if WalkTo(m, top, front).Some? {
        var t := WalkTo(m, top, front).value;
        WalkOwner(m, bits, top, own, front);
        assert own[t] + [j] == path;
        StepElsewhere(m, n, f, i, t, j);
      }
    }
  }

  lemma StepBesides(m: seq<Word>, n: seq<Word>, f: nat, i: nat, g: nat, j: nat, t: nat, l: nat)
    requires |m| == |n| && (forall k :: 0 <= k < |m| && k != Key(f, i) && k != Key(g, j) ==> n[k] == m[k])
    requires (t != f || l != i) && (t != g || l != j) && i < ENTRIES && j < ENTRIES
    ensures Step(n, Some(t), l) == Step(m, Some(t), l)
  {
    if l < ENTRIES && t * ENTRIES + ENTRIES <= |m| {
      assert Key(t, l) != Key(f, i) && Key(t, l) != Key(g, j);
    }
  }

  lemma OtherEntry(own: Owners, f: nat, i: nat, t: nat, l: nat, path: seq<nat>)
    requires f in own && t in own && own[t] + [l] == path && !(own[f] + [i] <= path)
    ensures t != f || l != i
  {
  }

  /** Two entries written at once. */
  lemma {:induction false} WritesElsewhere(m: seq<Word>, n: seq<Word>, bits: seq<bool>, top: nat, own: Owners,
                                           f: nat, i: nat, g: nat, j: nat, path: seq<nat>)
    requires Rooted(m, bits, top, own)
    requires |m| == |n| && (forall k :: 0 <= k < |m| && k != Key(f, i) && k != Key(g, j) ==> n[k] == m[k])
    requires f in own && i < ENTRIES && g in own && j < ENTRIES
    requires |path| <= 4 && Plain(path)
    requires !(own[f] + [i] <= path) && !(own[g] + [j] <= path)
    ensures WalkTo(n, top, path) == WalkTo(m, top, path)
    decreases |path|
  {
    if path != [] {
      var front, l := path[..|path| - 1], path[|path| - 1];
      FrontPrefix(own[f] + [i], path);
      FrontPrefix(own[g] + [j], path);
      WritesElsewhere(m, n, bits, top, own, f, i, g, j, front);
      if WalkTo(m, top, front).Some? {
        var t := WalkTo(m, top, front).value;
        WalkOwner(m, bits, top, own, front);
        assert own[t] + [l] == path;
        OtherEntry(own, f, i, t, l, path);
        OtherEntry(own, g, j, t, l, path);
        StepBesides(m, n, f, i, g, j, t, l);
      }
    }
  }

  ghost predicate Present(m: seq<Word>, top: nat, path: seq<nat>)
    requires |path| == 4
  {
    Leaf(m, top, path).Some? && Leaf(m, top, path).value.present
  }

  /** A path leads to the same frame in m and n, by the same last-level entry, and no
      entry has become present. */
  ghost predicate SamePath(m: seq<Word>, n: seq<Word>, top: nat, path: seq<nat>)
    requires |path| == 4
  {
    && WalkTo(n, top, path) == WalkTo(m, top, path)
    && (WalkTo(m, top, path).Some? || Present(n, top, path) ==> Leaf(n, top, path) == Leaf(m, top, path))
  }

  lemma PathElsewhere(m: seq<Word>, n: seq<Word>, bits: seq<bool>, top: nat, own: Owners,
                      f: nat, i: nat, path: seq<nat>)
    requires Rooted(m, bits, top, own)
    requires |m| == |n| && (forall k :: 0 <= k < |m| && k != Key(f, i) ==> n[k] == m[k])
    requires f in own && i < ENTRIES
    requires |path| == 4 && Plain(path)
    requires !(own[f] + [i] <= path)
    ensures SamePath(m, n, top, path) && Leaf(n, top, path) == Leaf(m, top, path)
  {
    WriteElsewhere(m, n, bits, top, own, f, i, path);
    assert path[..3] + [path[3]] == path;
    WriteElsewhere(m, n, bits, top, own, f, i, path[..3]);
    if WalkTo(m, top, path[..3]).Some? {
      var t := WalkTo(m, top, path[..3]).value;
      WalkOwner(m, bits, top, own, path[..3]);
      assert TableOk(m, bits, own, t);
      StepElsewhere(m, n, f, i, t, path[3]);
    }
  }

  /** A table of zeros leads nowhere. */
  ghost predicate Blank(m: seq<Word>, f: nat) {
    f * ENTRIES + ENTRIES <= |m| && forall i :: 0 <= i < ENTRIES ==> m[Key(f, i)] == ZERO
  }

  lemma BlankStep(m: seq<Word>, f: nat, i: nat)
    requires Blank(m, f)
    ensures Step(m, Some(f), i) == None
  {
    if i < ENTRIES {
      assert m[Key(f, i)] == ZERO;
    }
  }

  lemma {:induction false} NoneBeyond(m: seq<Word>, root: nat, path: seq<nat>, k: nat)
    requires k <= |path| && WalkTo(m, root, path[..k]) == None
    ensures WalkTo(m, root, path) == None
    decreases |path|
  {
    if k < |path| {
      assert path[..|path| - 1][..k] == path[..k];
      NoneBeyond(m, root, path[..|path| - 1], k);
    } else {
      assert path[..k] == path;
    }
  }

  /** The entry that was absent now leads to a blank table g. */
  ghost predicate LinksBlank(m: seq<Word>, n: seq<Word>, own: Owners, f: nat, i: nat, g: nat) {
    && f in own && |own[f]| < 3 && i < ENTRIES && Plain(own[f] + [i])
    && |m| == |n| && (forall k :: 0 <= k < |m| && k != Key(f, i) ==> n[k] == m[k])
    && Step(m, Some(f), i) == None && Step(n, Some(f), i) == Some(g)
    && g !in own && Blank(m, g)
  }

  lemma BlankStays(m: seq<Word>, n: seq<Word>, own: Owners, f: nat, i: nat, g: nat)
    requires LinksBlank(m, n, own, f, i, g)
    ensures Blank(n, g)
  {
    assert f != g;
    forall j | 0 <= j < ENTRIES
      ensures n[Key(g, j)] == ZERO
    {
      assert m[Key(g, j)] == ZERO;
      assert Key(g, j) != Key(f, i);
    }
  }

  /** Linking a blank table in keeps the tree. */
  lemma LinkKeepsRooted(m: seq<Word>, n: seq<Word>, bits: seq<bool>, after: seq<bool>, top: nat, own: Owners,
                        f: nat, i: nat, g: nat)
    requires Rooted(m, bits, top, own)
    requires LinksBlank(m, n, own, f, i, g)
    requires g < MAX_FRAMES && g < |bits| && after == bits[g := true]
    ensures Rooted(n, after, top, own[g := own[f] + [i]])
  {
    var out := own[g := own[f] + [i]];
    BlankStays(m, n, own, f, i, g);
    forall t | t in out
      ensures TableOk(n, after, out, t)
    {
      if t != g { assert TableOk(m, bits, own, t); }
    }
    forall t, j: nat | t in out && j < ENTRIES
      ensures EdgeOk(n, out, t, j)
    {
      if t == g {
        assert n[Key(g, j)] == ZERO;
      } else if t != f || j != i {
        StepElsewhere(m, n, f, i, t, j);
        assert EdgeOk(m, own, t, j);
      }
    }
  }

  lemma LinkKeepsTree(m: seq<Word>, n: seq<Word>, bits: seq<bool>, after: seq<bool>, top: nat, own: Owners,
                      f: nat, i: nat, g: nat)
    requires Tree(m, bits, top, own)
    requires LinksBlank(m, n, own, f, i, g)
    requires g < MAX_FRAMES && g < |bits| && after == bits[g := true]
    ensures Tree(n, after, top, own[g := own[f] + [i]])
  {
    LinkKeepsRooted(m, n, bits, after, top, own, f, i, g);
    assert own[f] == [] ==> i != SELF by { assert (own[f] + [i])[0] == if own[f] == [] then i else own[f][0]; }
    assert f == top ==> i != SELF;
    StepElsewhere(m, n, f, i, top, SELF);
  }

  /** Linking a blank table in where no table was changes no walk but the one to it. */
  lemma LinkKeepsTables(m: seq<Word>, n: seq<Word>, bits: seq<bool>, top: nat, own: Owners,
                        f: nat, i: nat, g: nat, q: seq<nat>)
    requires Rooted(m, bits, top, own)
    requires LinksBlank(m, n, own, f, i, g)
    requires |q| <= 4 && Plain(q) && q != own[f] + [i] && WalkTo(m, top, own[f]) == Some(f)
    ensures WalkTo(n, top, q) == WalkTo(m, top, q)
  {
    var p := own[f] + [i];
    if p <= q {
      var k := |p|;
      assert q[..k] == p && p[..k - 1] == own[f];
      NoneBeyond(m, top, q, k);
      assert !(p <= own[f]);
      WriteElsewhere(m, n, bits, top, own, f, i, own[f]);
      assert WalkTo(n, top, q[..k]) == Some(g);
      BlankStays(m, n, own, f, i, g);
      BlankStep(n, g, q[k]);
      assert q[..k + 1][..k] == q[..k];
      NoneBeyond(n, top, q, k + 1);
    } else {
      WriteElsewhere(m, n, bits, top, own, f, i, q);
    }
  }

  lemma LinkedNotPresent(m: seq<Word>, n: seq<Word>, bits: seq<bool>, top: nat, own: Owners,
                         f: nat, i: nat, g: nat, path: seq<nat>)
    requires Rooted(m, bits, top, own)
    requires LinksBlank(m, n, own, f, i, g)
    requires |path| == 4 && Plain(path) && WalkTo(m, top, own[f]) == Some(f) && own[f] + [i] <= path
    ensures !Present(n, top, path)
  {
    var p := own[f] + [i];
    assert p[..|p| - 1] == own[f] && path[..3][..|p|] == p;
    if |p| == 3 {
      assert path[..3] == p;
      WriteElsewhere(m, n, bits, top, own, f, i, own[f]);
      BlankStays(m, n, own, f, i, g);
      assert n[Key(g, path[3])] == ZERO;
    } else {
      LinkKeepsTables(m, n, bits, top, own, f, i, g, path[..3]);
      NoneBeyond(m, top, path[..3], |p|);
    }
  }

  /** Linking a blank table in where no table was changes no translation. */
  lemma LinkKeepsWalks(m: seq<Word>, n: seq<Word>, bits: seq<bool>, top: nat, own: Owners,
                       f: nat, i: nat, g: nat, path: seq<nat>)
    requires Rooted(m, bits, top, own)
    requires LinksBlank(m, n, own, f, i, g)
    requires |path| == 4 && Plain(path) && WalkTo(m, top, own[f]) == Some(f)
    ensures SamePath(m, n, top, path)
  {
    var p := own[f] + [i];
    if p <= path {
      LinkKeepsTables(m, n, bits, top, own, f, i, g, path);
      assert path[..|p|] == p && p[..|p| - 1] == own[f];
      NoneBeyond(m, top, path, |p|);
      LinkedNotPresent(m, n, bits, top, own, f, i, g, path);
    } else {
      PathElsewhere(m, n, bits, top, own, f, i, path);
    }
  }

  /** The walk along s from table g does not use entry i of table f. */
  ghost predicate Avoids(n: seq<Word>, g: nat, s: seq<nat>, f: nat, i: nat) {
    forall l {:trigger WalkTo(n, g, s[..l])} :: 0 <= l < |s| ==> WalkTo(n, g, s[..l]) != Some(f) || s[l] != i
  }

  /** Below table g a walk in m is as in n, which differs in entry i of table f alone,
      as long as it does not use that entry. */
  lemma {:induction false} WalkBelow(m: seq<Word>, n: seq<Word>, f: nat, i: nat, g: nat, s: seq<nat>)
    requires |m| == |n| && (forall k :: 0 <= k < |m| && k != Key(f, i) ==> n[k] == m[k])
    requires i < ENTRIES && Avoids(m, g, s, f, i)
    ensures WalkTo(n, g, s) == WalkTo(m, g, s)
    decreases |s|
  {
    if s != [] {
      var front := s[..|s| - 1];
      forall l | 0 <= l < |front|
        ensures WalkTo(m, g, front[..l]) != Some(f) || front[l] != i
      {
        assert front[..l] == s[..l] && front[l] == s[l];
      }
      WalkBelow(m, n, f, i, g, front);
      assert s[..|s| - 1] == front;
      if WalkTo(m, g, front).Some? {
        StepElsewhere(m, n, f, i, WalkTo(m, g, front).value, s[|s| - 1]);
      }
    }
  }

  lemma {:induction false} WalkThrough(n: seq<Word>, root: nat, q: seq<nat>, s: seq<nat>, g: nat)
    requires WalkTo(n, root, q) == Some(g)
    ensures WalkTo(n, root, q + s) == WalkTo(n, g, s)
    decreases |s|
  {
    if s == [] {
      assert q + s == q;
    } else {
      WalkThrough(n, root, q, s[..|s| - 1], g);
      assert (q + s)[..|q + s| - 1] == q + s[..|s| - 1];
    }
  }

  /** A walk that uses the entry, which in n leads to g, leads back to g. */
  lemma {:induction false} BackTo(m: seq<Word>, n: seq<Word>, f: nat, i: nat, g: nat, s: seq<nat>) returns (p: seq<nat>)
    requires |m| == |n| && (forall k :: 0 <= k < |m| && k != Key(f, i) ==> n[k] == m[k])
    requires i < ENTRIES && Step(n, Some(f), i) == Some(g) && !Avoids(m, g, s, f, i)
    ensures p != [] && WalkTo(n, g, p) == Some(g)
    decreases |s|
  {
    var front := s[..|s| - 1];
    assert forall l :: 0 <= l < |front| ==> front[..l] == s[..l];
    if Avoids(m, g, front, f, i) {
      WalkBelow(m, n, f, i, g, front);
      p := s;
    } else {
      p := BackTo(m, n, f, i, g, front);
    }
  }

  /** So there are walks of every length. */
  lemma {:induction false} RoundAndRound(n: seq<Word>, g: nat, p: seq<nat>, length: nat) returns (s: seq<nat>)
    requires p != [] && WalkTo(n, g, p) == Some(g)
    ensures |s| == length && WalkTo(n, g, s).Some?
    decreases length
  {
    if length <= |p| {
      s := p[..length];
      if WalkTo(n, g, s) == None { NoneBeyond(n, g, p, length); }
    } else {
      var rest := RoundAndRound(n, g, p, length - |p|);
      s := p + rest;
      WalkThrough(n, g, p, rest, g);
    }
  }

  /** No walk leads from table g to anything at the given distance. */
  ghost predicate Leafless(n: seq<Word>, g: nat, length: nat) {
    forall s :: |s| == length ==> WalkTo(n, g, s) == None
  }

  /** Nor does any use entry i of table f. */
  ghost predicate Barren(m: seq<Word>, g: nat, length: nat, f: nat, i: nat) {
    forall s :: |s| == length ==> WalkTo(m, g, s) == None && Avoids(m, g, s, f, i)
  }

  lemma LeaflessBelow(n: seq<Word>, top: nat, q: seq<nat>, g: nat, length: nat)
    requires WalkTo(n, top, q) == Some(g)
    ensures Leafless(n, g, length) <==> forall s :: |s| == length ==> WalkTo(n, top, q + s) == None
  {
    forall s | |s| == length
      ensures WalkTo(n, top, q + s) == WalkTo(n, g, s)
    {
      WalkThrough(n, top, q, s, g);
    }
  }

  lemma LinkedLeafless(m: seq<Word>, n: seq<Word>, f: nat, i: nat, g: nat, length: nat)
    requires |m| == |n| && (forall k :: 0 <= k < |m| && k != Key(f, i) ==> n[k] == m[k])
    requires i < ENTRIES && Step(n, Some(f), i) == Some(g)
    ensures Leafless(n, g, length) <==> Barren(m, g, length, f, i)
  {
    forall s | |s| == length && Avoids(m, g, s, f, i)
      ensures WalkTo(n, g, s) == WalkTo(m, g, s)
    {
      WalkBelow(m, n, f, i, g, s);
    }
    if s :| |s| == length && !Avoids(m, g, s, f, i) {
      var p := BackTo(m, n, f, i, g, s);
      var t := RoundAndRound(n, g, p, length);
      assert WalkTo(n, g, t).Some?;
    }
  }

  /** A table whose frame was not blank brings what lies below it: linking it in at the
      end of path q, at any of the three levels, maps no page below q exactly if no
      walk of the remaining length leads anywhere from the frame, nor to the entry
      that links it. */
  lemma StaleTableIff(m: seq<Word>, n: seq<Word>, bits: seq<bool>, top: nat, own: Owners, f: nat, i: nat, g: nat,
                      q: seq<nat>)
    requires Rooted(m, bits, top, own)
    requires f in own && |own[f]| <= 2 && i < ENTRIES && q == own[f] + [i] && Plain(q)
    requires WalkTo(m, top, own[f]) == Some(f)
    requires |m| == |n| && (forall k :: 0 <= k < |m| && k != Key(f, i) ==> n[k] == m[k])
    requires Step(n, Some(f), i) == Some(g)
    ensures (forall s :: |s| == 4 - |q| ==> WalkTo(n, top, q + s) == None) <==> Barren(m, g, 4 - |q|, f, i)
  {
    WriteElsewhere(m, n, bits, top, own, f, i, own[f]);
    assert q[..|q| - 1] == own[f] && WalkTo(n, top, q) == Some(g);
    LeaflessBelow(n, top, q, g, 4 - |q|);
    LinkedLeafless(m, n, f, i, g, 4 - |q|);
  }

  /** Writing a last-level entry keeps the tree. */
  lemma LeafKeepsRooted(m: seq<Word>, n: seq<Word>, bits: seq<bool>, top: nat, own: Owners, f: nat, i: nat)
    requires Rooted(m, bits, top, own)
    requires f in own && |own[f]| == 3 && i < ENTRIES
    requires |m| == |n| && (forall k :: 0 <= k < |m| && k != Key(f, i) ==> n[k] == m[k])
    ensures Rooted(n, bits, top, own)
  {
    forall t | t in own
      ensures TableOk(n, bits, own, t)
    {
      assert TableOk(m, bits, own, t);
    }
    forall t, j: nat | t in own && j < ENTRIES
      ensures EdgeOk(n, own, t, j)
    {
      if t != f || j != i {
        StepElsewhere(m, n, f, i, t, j);
        assert EdgeOk(m, own, t, j);
      }
    }
  }

  lemma LeafKeepsTree(m: seq<Word>, n: seq<Word>, bits: seq<bool>, top: nat, own: Owners, f: nat, i: nat)
    requires Tree(m, bits, top, own)
    requires f in own && |own[f]| == 3 && i < ENTRIES
    requires |m| == |n| && (forall k :: 0 <= k < |m| && k != Key(f, i) ==> n[k] == m[k])
    ensures Tree(n, bits, top, own)
  {
    LeafKeepsRooted(m, n, bits, top, own, f, i);
    StepElsewhere(m, n, f, i, top, SELF);
  }

  /** The table of last-level entries that a path's first three indices lead to. */
  lemma LeafOwner(m: seq<Word>, bits: seq<bool>, top: nat, own: Owners, f: nat, path: seq<nat>)
    requires Rooted(m, bits, top, own)
    requires |path| == 4 && Plain(path)
    requires WalkTo(m, top, path[..3]) == Some(f)
    ensures f in own && own[f] == path[..3] && own[f] + [path[3]] == path
    ensures Key(f, path[3]) < |m| && f * ENTRIES + ENTRIES <= |m|
  {
    WalkOwner(m, bits, top, own, path[..3]);
    assert TableOk(m, bits, own, f);
  }

  /** What writing entry path[3] of that table does to path's own walk. */
  lemma LeafWalk(m: seq<Word>, n: seq<Word>, bits: seq<bool>, top: nat, own: Owners, f: nat, path: seq<nat>)
    requires Rooted(m, bits, top, own)
    requires |path| == 4 && Plain(path)
    requires WalkTo(m, top, path[..3]) == Some(f)
    requires |m| == |n| && (forall k :: 0 <= k < |m| && k != Key(f, path[3]) ==> n[k] == m[k])
    ensures f in own && own[f] == path[..3] && own[f] + [path[3]] == path
    ensures Key(f, path[3]) < |m| && f * ENTRIES + ENTRIES <= |m|
    ensures WalkTo(n, top, path[..3]) == Some(f)
    ensures Leaf(n, top, path) == Some(n[Key(f, path[3])])
  {
    LeafOwner(m, bits, top, own, f, path);
    TableStays(m, n, bits, top, own, f, path[..3], path[3]);
    LeafAt(n, top, f, path);
  }

  /** Writing an entry of a table does not move the table. */
  lemma TableStays(m: seq<Word>, n: seq<Word>, bits: seq<bool>, top: nat, own: Owners, f: nat, front: seq<nat>, i: nat)
    requires Rooted(m, bits, top, own)
    requires |front| == 3 && Plain(front) && f in own && own[f] == front && i < ENTRIES
    requires WalkTo(m, top, front) == Some(f)
    requires |m| == |n| && (forall k :: 0 <= k < |m| && k != Key(f, i) ==> n[k] == m[k])
    ensures WalkTo(n, top, front) == Some(f)
  {
    WriteElsewhere(m, n, bits, top, own, f, i, front);
  }

  lemma LeafAt(n: seq<Word>, top: nat, f: nat, path: seq<nat>)
    requires |path| == 4 && path[3] < ENTRIES && WalkTo(n, top, path[..3]) == Some(f)
    requires f * ENTRIES + ENTRIES <= |n|
    ensures Leaf(n, top, path) == Some(n[Key(f, path[3])])
  {
  }

  // ----- rights along a walk ------------------------------------------------------------

  /** The entry that the walk along q reads last. */
  ghost function EntryAt(m: seq<Word>, top: nat, q: seq<nat>): Option<Word>
    requires q != []
  {
    match WalkTo(m, top, q[..|q| - 1])
    case None => None
    case Some(f) => if q[|q| - 1] < ENTRIES && f * ENTRIES + ENTRIES <= |m| then Some(m[Key(f, q[|q| - 1])]) else None
  }

  /** The entry allows writing, and use in user mode as asked. */
  ghost predicate Grants(m: seq<Word>, top: nat, q: seq<nat>, user: bool)
    requires q != []
  {
    EntryAt(m, top, q).Some? && EntryAt(m, top, q).value.rw && EntryAt(m, top, q).value.user == user
  }

  /** The processor lets a program read and write the page: all four entries on the walk
      allow it. */
  ghost predicate ForUser(m: seq<Word>, top: nat, path: seq<nat>)
    requires |path| == 4
  {
    forall l: nat {:trigger path[..l]} :: 1 <= l <= 4 ==> Grants(m, top, path[..l], true)
  }

  lemma EntryLeads(m: seq<Word>, n: seq<Word>, top: nat, q: seq<nat>)
    requires q != [] && |m| == |n|
    ensures WalkTo(m, top, q).Some? ==> EntryAt(m, top, q).Some? && LinksTo(EntryAt(m, top, q).value, WalkTo(m, top, q).value)
    ensures EntryAt(n, top, q) == EntryAt(m, top, q) ==> WalkTo(n, top, q) == WalkTo(m, top, q)
  {
  }

  /** A table that is there keeps its entry, bit by bit; the entry of one that is new has
      the rights asked for. */
  ghost predicate RightsAt(m: seq<Word>, n: seq<Word>, top: nat, q: seq<nat>, user: bool)
    requires q != []
  {
    if WalkTo(m, top, q).Some? then EntryAt(n, top, q) == EntryAt(m, top, q)
    else WalkTo(n, top, q).Some? ==> Grants(n, top, q, user)
  }

  ghost predicate NewRights(m: seq<Word>, n: seq<Word>, top: nat, user: bool) {
    |m| == |n| && forall q {:trigger RightsAt(m, n, top, q, user)} :: 1 <= |q| <= 3 && Plain(q) ==> RightsAt(m, n, top, q, user)
  }

  lemma SameRights(m: seq<Word>, top: nat, user: bool)
    ensures NewRights(m, m, top, user)
  {
  }

  lemma RightsThen(m: seq<Word>, n: seq<Word>, k: seq<Word>, top: nat, user: bool)
    requires NewRights(m, n, top, user) && NewRights(n, k, top, user)
    ensures NewRights(m, k, top, user)
  {
    forall q | 1 <= |q| <= 3 && Plain(q)
      ensures RightsAt(m, k, top, q, user)
    {
      assert RightsAt(m, n, top, q, user) && RightsAt(n, k, top, q, user);
      EntryLeads(m, n, top, q);
      EntryLeads(n, k, top, q);
    }
  }

  /** A write to entry i of table f leaves the entry that another path reads last, if the
      path's table stays where it is. */
  lemma EntryElsewhere(m: seq<Word>, n: seq<Word>, bits: seq<bool>, top: nat, own: Owners, f: nat, i: nat, q: seq<nat>)
    requires Rooted(m, bits, top, own) && f in own && i < ENTRIES
    requires |m| == |n| && (forall k :: 0 <= k < |m| && k != Key(f, i) ==> n[k] == m[k])
    requires 1 <= |q| <= 4 && Plain(q) && !(own[f] + [i] <= q)
    ensures EntryAt(n, top, q) == EntryAt(m, top, q)
  {
    var front := q[..|q| - 1];
    FrontPrefix(own[f] + [i], q);
    WriteElsewhere(m, n, bits, top, own, f, i, front);
    if WalkTo(m, top, front).Some? {
      var t := WalkTo(m, top, front).value;
      WalkOwner(m, bits, top, own, front);
      assert own[t] + [q[|q| - 1]] == q;
      OtherEntry(own, f, i, t, q[|q| - 1], q);
      StepElsewhere(m, n, f, i, t, q[|q| - 1]);
    }
  }

  /** Linking a table in at the end of a path gives that table the rights of its entry, and
      leaves the others theirs. */
  lemma LinkRights(m: seq<Word>, n: seq<Word>, bits: seq<bool>, top: nat, own: Owners, f: nat, i: nat, g: nat, user: bool)
    requires Rooted(m, bits, top, own) && LinksBlank(m, n, own, f, i, g) && WalkTo(m, top, own[f]) == Some(f)
    requires Key(f, i) < |n| && n[Key(f, i)].rw && n[Key(f, i)].user == user
    ensures NewRights(m, n, top, user)
  {
    var p := own[f] + [i];
    forall q | 1 <= |q| <= 3 && Plain(q)
      ensures RightsAt(m, n, top, q, user)
    {
      if q == p {
        LinkedEntry(m, n, bits, top, own, f, i);
        assert p[..|p| - 1] == own[f];
      } else {
        LinkKeepsTables(m, n, bits, top, own, f, i, g, q);
        if WalkTo(m, top, q).Some? {
          if p <= q { LinkedAbove(m, top, own, f, i, q); }
          EntryElsewhere(m, n, bits, top, own, f, i, q);
        }
      }
    }
  }

  lemma LinkedEntry(m: seq<Word>, n: seq<Word>, bits: seq<bool>, top: nat, own: Owners, f: nat, i: nat)
    requires Rooted(m, bits, top, own) && f in own && |own[f]| < 3 && i < ENTRIES && WalkTo(m, top, own[f]) == Some(f)
    requires |m| == |n| && (forall k :: 0 <= k < |m| && k != Key(f, i) ==> n[k] == m[k])
    ensures EntryAt(n, top, own[f] + [i]) == Some(n[Key(f, i)])
  {
    var p := own[f] + [i];
    assert p[..|p| - 1] == own[f] && TableOk(m, bits, own, f);
    WriteElsewhere(m, n, bits, top, own, f, i, own[f]);
  }

  lemma LinkedAbove(m: seq<Word>, top: nat, own: Owners, f: nat, i: nat, q: seq<nat>)
    requires f in own && WalkTo(m, top, own[f]) == Some(f) && Step(m, Some(f), i) == None && own[f] + [i] <= q
    ensures WalkTo(m, top, q) == None
  {
    var p := own[f] + [i];
    assert p[..|p| - 1] == own[f] && q[..|p|] == p;
    NoneBeyond(m, top, q, |p|);
  }

  /** A last-level entry is on no walk to a table. */
  lemma LeafRights(m: seq<Word>, n: seq<Word>, bits: seq<bool>, top: nat, own: Owners, f: nat, i: nat, user: bool)
    requires Rooted(m, bits, top, own) && f in own && |own[f]| == 3 && i < ENTRIES
    requires |m| == |n| && (forall k :: 0 <= k < |m| && k != Key(f, i) ==> n[k] == m[k])
    ensures NewRights(m, n, top, user)
  {
    forall q | 1 <= |q| <= 3 && Plain(q)
      ensures RightsAt(m, n, top, q, user)
    {
      EntryElsewhere(m, n, bits, top, own, f, i, q);
      EntryLeads(m, n, top, q);
    }
  }

  // ----- frames that are written -------------------------------------------------------

  ghost predicate SameFrame(m: seq<Word>, n: seq<Word>, f: nat)
    requires |m| == |n|
  {
    forall k :: f * ENTRIES <= k < f * ENTRIES + ENTRIES && k < |m| ==> n[k] == m[k]
  }

  /** Only frames in used differ between m and n. */
  ghost predicate Kept(m: seq<Word>, n: seq<Word>, used: set<nat>) {
    |m| == |n| && forall f: nat :: f !in used ==> SameFrame(m, n, f)
  }

  lemma KeptStep(m: seq<Word>, n: seq<Word>, used: set<nat>, f: nat, i: nat)
    requires Kept(m, n, used) && f !in used
    ensures Step(n, Some(f), i) == Step(m, Some(f), i)
    ensures i < ENTRIES && f * ENTRIES + ENTRIES <= |m| ==> n[Key(f, i)] == m[Key(f, i)]
  {
    assert SameFrame(m, n, f);
  }

  /** One entry written: only its frame differs. */
  lemma EntryKept(m: seq<Word>, n: seq<Word>, f: nat, i: nat)
    requires i < ENTRIES && Key(f, i) < |m|
    requires |m| == |n| && forall k :: 0 <= k < |m| && k != Key(f, i) ==> n[k] == m[k]
    ensures Kept(m, n, {f})
  {
    forall g: nat | g !in {f}
      ensures SameFrame(m, n, g)
    {
      forall k | g * ENTRIES <= k < g * ENTRIES + ENTRIES && k < |m|
        ensures n[k] == m[k]
      {
        assert k != Key(f, i);
      }
    }
  }

  lemma KeptThen(m: seq<Word>, n: seq<Word>, k: seq<Word>, used: set<nat>, more: set<nat>)
    requires Kept(m, n, used) && Kept(n, k, more)
    ensures Kept(m, k, used + more)
  {
    forall f: nat | f !in used + more
      ensures SameFrame(m, k, f)
    {
      assert SameFrame(m, n, f) && SameFrame(n, k, f);
    }
  }

  /** Writes to more and more frames, the later ones including the earlier. */
  lemma KeptGrowing(m: seq<Word>, n: seq<Word>, k: seq<Word>, used: set<nat>, more: set<nat>)
    requires Kept(m, n, used) && Kept(n, k, more) && used <= more
    ensures Kept(m, k, more)
  {
    KeptThen(m, n, k, used, more);
    assert used + more == more;
  }

  // ----- pages by their indices ------------------------------------------------------

  ghost predicate Page(path: seq<nat>) {
    |path| == 4 && Plain(path)
  }

  /** The place of a page in the order in which loops over the three lower indices
      visit them. */
  ghost function Rank(path: seq<nat>): nat
    requires |path| == 4
  {
    path[1] * 0x4_0000 + path[2] * 512 + path[3]
  }

  /** Below one top entry, pages differ in rank. */
  lemma RankUnique(p: seq<nat>, q: seq<nat>)
    requires Page(p) && Page(q) && p[0] == q[0] && Rank(p) == Rank(q)
    ensures p == q
  {
    assert p[1] == q[1] && p[2] == q[2] && p[3] == q[3];
  }

  ghost predicate SameTable(m: seq<Word>, n: seq<Word>, top: nat, path: seq<nat>) {
    WalkTo(n, top, path) == WalkTo(m, top, path)
  }

  lemma PageOf(table: seq<nat>, y: nat)
    requires |table| == 3 && Plain(table) && y < ENTRIES
    ensures Page(table + [y]) && (table + [y])[..3] == table
    ensures (table + [y])[0] == table[0] && (table + [y])[1] == table[1]
    ensures Rank(table + [y]) == table[1] * 0x4_0000 + table[2] * 512 + y
  {
  }

  /** One more index below the first. */
  lemma Under(path: seq<nat>, i: nat)
    requires 1 <= |path| && Plain(path) && i < ENTRIES
    ensures Plain(path + [i]) && (path + [i])[..|path|] == path
    ensures (path + [i])[0] == path[0] && (path + [i])[|path|] == i
  {
  }
}

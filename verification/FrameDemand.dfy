/**
  Which frames single allocation hands out next, and what a run of new pages asks of
  them: a frame for each page and a zeroed one for each table that is missing.
 */
module FrameDemand {
  import opened Basics
  import opened Bitmap
  import opened Paging
  import opened Tables

  /** Pages outside the part of the space that slot 511 takes. */
  const PAGES: nat := SELF * 0x800_0000

  /** Single allocation searches the full words of the bitmap. */
  function Reach(max: nat): (n: nat)
    ensures n <= max
  {
    max / 64 * 64
  }

  /** The frame that it hands out next: the least free one. */
  ghost function NextFree(bits: seq<bool>, max: nat): nat
    requires max <= |bits|
  {
    FirstClear(bits, 0, Reach(max))
  }

  ghost predicate Exhausted(bits: seq<bool>, max: nat)
    requires max <= |bits|
  {
    NextFree(bits, max) == Reach(max)
  }

  lemma NextFreeFacts(bits: seq<bool>, max: nat)
    requires max <= |bits|
    ensures AllSet(bits, 0, NextFree(bits, max))
    ensures !Exhausted(bits, max) ==> NextFree(bits, max) < max && !bits[NextFree(bits, max)]
    ensures |bits| > 0 && bits[0] && !Exhausted(bits, max) ==> NextFree(bits, max) > 0
    ensures Exhausted(bits, max) <==> AllSet(bits, 0, Reach(max))
  {
    FirstClearFacts(bits, 0, Reach(max));
  }

  lemma NextFreeIs(bits: seq<bool>, max: nat, g: nat)
    requires max <= |bits| && g < Reach(max) && !bits[g] && AllSet(bits, 0, g)
    ensures NextFree(bits, max) == g && !Exhausted(bits, max)
  {
    NextFreeFacts(bits, max);
  }

  /** The bitmap after the next k frames have been taken. */
  ghost function Taken(bits: seq<bool>, max: nat, k: nat): (after: seq<bool>)
    requires max <= |bits|
    ensures |after| == |bits|
    decreases k
  {
    if k == 0 || Exhausted(bits, max) then bits else Taken(bits[NextFree(bits, max) := true], max, k - 1)
  }

  lemma {:induction false} TakenThen(bits: seq<bool>, max: nat, j: nat, k: nat)
    requires max <= |bits|
    ensures Taken(Taken(bits, max, j), max, k) == Taken(bits, max, j + k)
    decreases j
  {
    if j > 0 && !Exhausted(bits, max) {
      TakenThen(bits[NextFree(bits, max) := true], max, j - 1, k);
    }
  }

  lemma {:induction false} TakenAdds(bits: seq<bool>, max: nat, k: nat)
    requires max <= |bits|
    ensures forall f :: 0 <= f < |bits| && bits[f] ==> Taken(bits, max, k)[f]
    decreases k
  {
    if k > 0 && !Exhausted(bits, max) {
      TakenAdds(bits[NextFree(bits, max) := true], max, k - 1);
    }
  }

  /** The next k frames are there, and zeroed. */
  ghost predicate Provides(m: seq<Word>, bits: seq<bool>, max: nat, k: nat)
    requires max <= |bits|
    decreases k
  {
    k > 0 ==>
      && !Exhausted(bits, max) && Blank(m, NextFree(bits, max))
      && Provides(m, bits[NextFree(bits, max) := true], max, k - 1)
  }

  lemma {:induction false} ProvidesThen(m: seq<Word>, bits: seq<bool>, max: nat, j: nat, k: nat)
    requires max <= |bits| && Provides(m, bits, max, j + k)
    ensures Provides(m, bits, max, j) && Provides(m, Taken(bits, max, j), max, k)
    decreases j
  {
    if j > 0 {
      ProvidesThen(m, bits[NextFree(bits, max) := true], max, j - 1, k);
    }
  }

  /** No free frame differs between m and n. */
  ghost predicate FreeKept(m: seq<Word>, n: seq<Word>, bits: seq<bool>) {
    |m| == |n| && forall f: nat :: f < |bits| && !bits[f] ==> SameFrame(m, n, f)
  }

  lemma {:induction false} ProvidesKept(m: seq<Word>, n: seq<Word>, bits: seq<bool>, max: nat, k: nat)
    requires max <= |bits| && FreeKept(m, n, bits) && Provides(m, bits, max, k)
    ensures Provides(n, bits, max, k)
    decreases k
  {
    if k > 0 {
      NextFreeFacts(bits, max);
      var g := NextFree(bits, max);
      BlankKept(m, n, g);
      assert FreeKept(m, n, bits[g := true]);
      ProvidesKept(m, n, bits[g := true], max, k - 1);
    }
  }

  lemma BlankKept(m: seq<Word>, n: seq<Word>, g: nat)
    requires |m| == |n| && SameFrame(m, n, g) && Blank(m, g)
    ensures Blank(n, g)
  {
    forall i | 0 <= i < ENTRIES
      ensures n[Key(g, i)] == ZERO
    {
      assert m[Key(g, i)] == ZERO;
    }
  }

  // ----- the tables above a page ---------------------------------------------------------

  ghost function Missing(m: seq<Word>, top: nat, q: seq<nat>): nat {
    if WalkTo(m, top, q).Some? then 0 else 1
  }

  /** How many of the three tables above a page's entry are missing. */
  ghost function Lacks(m: seq<Word>, top: nat, path: seq<nat>): nat
    requires |path| == 4
  {
    Missing(m, top, path[..1]) + Missing(m, top, path[..2]) + Missing(m, top, path[..3])
  }

  /** The table at path q lies above one of n pages from first on. */
  ghost predicate Above(first: nat, n: nat, q: seq<nat>) {
    exists p: nat :: first <= p < first + n && OnPath(p, q)
  }

  ghost predicate OnPath(page: nat, q: seq<nat>) {
    1 <= |q| <= 3 && q == PathOf(page)[..|q|]
  }

  /** From m to n the tables above n pages from first on have come to be there, and no
      other table has come or gone. */
  ghost predicate TablesAfter(m: seq<Word>, n: seq<Word>, top: nat, first: nat, i: nat) {
    forall q {:trigger TableAfter(m, n, top, first, i, q)} ::
      |q| <= 3 && Plain(q) ==> TableAfter(m, n, top, first, i, q)
  }

  ghost predicate TableAfter(m: seq<Word>, n: seq<Word>, top: nat, first: nat, i: nat, q: seq<nat>) {
    if Above(first, i, q) then WalkTo(n, top, q).Some? else SameTable(m, n, top, q)
  }

  lemma TablesStart(m: seq<Word>, top: nat, first: nat)
    ensures TablesAfter(m, m, top, first, 0)
  {
  }

  lemma TablesNext(m: seq<Word>, n: seq<Word>, k: seq<Word>, top: nat, first: nat, i: nat)
    requires TablesAfter(m, n, top, first, i) && TablesAfter(n, k, top, first + i, 1)
    ensures TablesAfter(m, k, top, first, i + 1)
  {
    var j := i + 1;
    forall q | |q| <= 3 && Plain(q)
      ensures TableAfter(m, k, top, first, j, q)
    {
      assert TableAfter(m, n, top, first, i, q) && TableAfter(n, k, top, first + i, 1, q);
      AboveNext(first, i, q);
    }
  }

  lemma AboveNext(first: nat, i: nat, q: seq<nat>)
    ensures Above(first, i + 1, q) <==> Above(first, i, q) || OnPath(first + i, q)
    ensures Above(first + i, 1, q) <==> OnPath(first + i, q)
  {
    if Above(first, i, q) {
      var p: nat :| first <= p < first + i && OnPath(p, q);
      assert first <= p < first + (i + 1);
    }
    if OnPath(first + i, q) {
      assert first <= first + i < first + (i + 1);
    }
  }

  // ----- what a run of pages asks for ------------------------------------------------------

  /** The table at the first l indices of a page is missing in m, and no page of the
      run before it has needed it. */
  ghost function Asks(m: seq<Word>, top: nat, first: nat, page: nat, l: nat): nat
    requires first <= page && 1 <= l <= 3
  {
    var q := PathOf(page)[..l];
    if WalkTo(m, top, q) == None && !Above(first, page - first, q) then 1 else 0
  }

  /** How many tables the page adds to those that the run from first on has needed. */
  ghost function Demand(m: seq<Word>, top: nat, first: nat, page: nat): nat
    requires first <= page
  {
    Asks(m, top, first, page, 1) + Asks(m, top, first, page, 2) + Asks(m, top, first, page, 3)
  }

  /** Page by page, the frames cover the run of n pages from page on, each of which takes
      one itself or none: whenever a table is missing, the next frame is there and
      zeroed. Only for a page, not for a table, may the frames have run out. */
  ghost predicate CanMap(m: seq<Word>, bits: seq<bool>, max: nat, top: nat, first: nat, page: nat, n: nat, each: nat)
    requires max <= |bits| && first <= page
    decreases n
  {
    n > 0 && !(each > 0 && Exhausted(bits, max)) ==>
      var d := Demand(m, top, first, page);
      var mid := Taken(bits, max, each);
      Provides(m, mid, max, d) && CanMap(m, Taken(mid, max, d), max, top, first, page + 1, n - 1, each)
  }

  /** How many of the n pages get a frame. */
  ghost function Served(m: seq<Word>, bits: seq<bool>, max: nat, top: nat, first: nat, page: nat, n: nat): (k: nat)
    requires max <= |bits| && first <= page
    ensures k <= n
    decreases n
  {
    if n == 0 || Exhausted(bits, max) then 0
    else 1 + Served(m, Taken(Taken(bits, max, 1), max, Demand(m, top, first, page)), max, top, first, page + 1, n - 1)
  }

  lemma LevelOf(page: nat, l: nat)
    requires page < PAGES && 1 <= l <= 3
    ensures Plain(PathOf(page)[..l]) && |PathOf(page)[..l]| == l
  {
    Recompose(page);
    assert page / 0x800_0000 < SELF;
  }

  /** What the page asks of the run is what is missing when its turn comes. */
  lemma DemandIs(m: seq<Word>, n: seq<Word>, top: nat, first: nat, i: nat)
    requires TablesAfter(m, n, top, first, i) && first + i < PAGES
    ensures Lacks(n, top, PathOf(first + i)) == Demand(m, top, first, first + i)
  {
    var page := first + i;
    forall l | 1 <= l <= 3
      ensures Missing(n, top, PathOf(page)[..l]) == Asks(m, top, first, page, l)
    {
      LevelOf(page, l);
      assert TableAfter(m, n, top, first, i, PathOf(page)[..l]);
    }
  }

  // ----- enough frames ---------------------------------------------------------------------

  /** How many frames single allocation can still hand out. */
  ghost function Available(bits: seq<bool>, max: nat): int
    requires max <= |bits|
  {
    Reach(max) - CountSet(bits, Reach(max))
  }

  lemma NoneAvailable(bits: seq<bool>, max: nat)
    requires max <= |bits|
    ensures Exhausted(bits, max) <==> Available(bits, max) == 0
    ensures Available(bits, max) >= 0
  {
    CountBounds(bits, Reach(max));
    NextFreeFacts(bits, max);
  }

  ghost predicate FreeZeroed(m: seq<Word>, bits: seq<bool>, max: nat)
    requires max <= |bits|
  {
    forall g: nat :: g < max && !bits[g] ==> Blank(m, g)
  }

  lemma {:induction false} TakenCount(m: seq<Word>, bits: seq<bool>, max: nat, k: nat)
    requires max <= |bits| && k <= Available(bits, max)
    ensures Available(Taken(bits, max, k), max) == Available(bits, max) - k
    ensures FreeZeroed(m, bits, max) ==> FreeZeroed(m, Taken(bits, max, k), max) && Provides(m, bits, max, k)
    decreases k
  {
    if k > 0 {
      NoneAvailable(bits, max);
      NextFreeFacts(bits, max);
      var g := NextFree(bits, max);
      CountAfter(bits, g, true, Reach(max));
      TakenCount(m, bits[g := true], max, k - 1);
    }
  }

  /** The tables that n pages from page on are short of. */
  ghost function TotalDemand(m: seq<Word>, top: nat, first: nat, page: nat, n: nat): nat
    requires first <= page
    decreases n
  {
    if n == 0 then 0 else Demand(m, top, first, page) + TotalDemand(m, top, first, page + 1, n - 1)
  }

  /** With zeroed frames for the pages and for the missing tables every page is served. */
  lemma {:induction false} EnoughFrames(m: seq<Word>, bits: seq<bool>, max: nat, top: nat, first: nat, page: nat, n: nat)
    requires max <= |bits| && first <= page && FreeZeroed(m, bits, max)
    requires Available(bits, max) >= n + TotalDemand(m, top, first, page, n)
    ensures CanMap(m, bits, max, top, first, page, n, 1) && Served(m, bits, max, top, first, page, n) == n
    decreases n
  {
    if n > 0 {
      var d := Demand(m, top, first, page);
      NoneAvailable(bits, max);
      TakenCount(m, bits, max, 1);
      TakenCount(m, Taken(bits, max, 1), max, d);
      EnoughFrames(m, Taken(Taken(bits, max, 1), max, d), max, top, first, page + 1, n - 1);
    }
  }

  lemma PresentBelow(m: seq<Word>, top: nat, page: nat)
    requires WalkTo(m, top, PathOf(page)[..3]).Some?
    ensures forall l :: 1 <= l <= 3 ==> WalkTo(m, top, PathOf(page)[..l]).Some?
  {
    forall l | 1 <= l <= 3
      ensures WalkTo(m, top, PathOf(page)[..l]).Some?
    {
      assert PathOf(page)[..3][..l] == PathOf(page)[..l];
      if WalkTo(m, top, PathOf(page)[..l]) == None { NoneBeyond(m, top, PathOf(page)[..3], l); }
    }
  }

  /** A run of pages whose tables are there asks for no zeroed frame, however many are
      left. */
  lemma {:induction false} TablesThere(m: seq<Word>, bits: seq<bool>, max: nat, top: nat, first: nat, page: nat, n: nat,
                                       each: nat)
    requires max <= |bits| && first <= page
    requires forall p: nat :: page <= p < page + n ==> WalkTo(m, top, PathOf(p)[..3]).Some?
    ensures CanMap(m, bits, max, top, first, page, n, each)
    decreases n
  {
    if n > 0 {
      PresentBelow(m, top, page);
      TablesThere(m, Taken(bits, max, each), max, top, first, page + 1, n - 1, each);
    }
  }

  /** A page is short of three tables at most. */
  lemma {:induction false} AtMostThree(m: seq<Word>, top: nat, first: nat, page: nat, n: nat)
    requires first <= page
    ensures TotalDemand(m, top, first, page, n) <= 3 * n
    decreases n
  {
    if n > 0 {
      AtMostThree(m, top, first, page + 1, n - 1);
    }
  }
}

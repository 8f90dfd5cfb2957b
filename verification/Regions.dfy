/**
  The heap as a sequence of regions, and how boundary tags in memory represent it.
  Regions lie back to back from the heap's start to its end; each begins with a
  header and ends with a footer that names the header.
 */
module Regions {
  import opened Basics
  import opened Ram

  const OVERHEAD: nat := HEADER_SIZE + FOOTER_SIZE

  datatype Region = Region(pos: nat, size: nat, hole: bool) {
    function End(): nat { pos + size }
  }

  /** Region i ends where the next one begins. */
  ghost predicate Joins(rs: seq<Region>, i: int)
    requires 0 <= i < |rs| - 1
  {
    rs[i].End() == rs[i + 1].pos
  }

  /** Region i and the next one are not both holes. */
  ghost predicate Apart(rs: seq<Region>, i: int)
    requires 0 <= i < |rs| - 1
  {
    !(rs[i].hole && rs[i + 1].hole)
  }

  /** rs covers [lo, hi) exactly, without gaps or overlaps, and every region has
      room for its two tags. */
  ghost predicate Tiles(rs: seq<Region>, lo: nat, hi: nat) {
    && |rs| > 0
    && rs[0].pos == lo
    && rs[|rs| - 1].End() == hi
    && (forall i :: 0 <= i < |rs| ==> rs[i].size >= OVERHEAD)
    && (forall i :: 0 <= i < |rs| - 1 ==> Joins(rs, i))
  }

  /** No two neighbouring regions are both holes. */
  ghost predicate Coalesced(rs: seq<Region>) {
    forall i :: 0 <= i < |rs| - 1 ==> Apart(rs, i)
  }

  /** p is the header of a hole among regions i to j. */
  ghost predicate HoleAmong(rs: seq<Region>, i: int, j: int, p: nat) {
    exists k :: 0 <= i <= k < j <= |rs| && rs[k].hole && rs[k].pos == p
  }

  /** The headers of the holes. */
  ghost function Holes(rs: seq<Region>): set<nat> {
    set k | 0 <= k < |rs| && rs[k].hole :: rs[k].pos
  }

  /** The tags of r: its header, and its footer if it has to have one. */
  ghost predicate Tagged(m: seq<byte>, r: Region, footer: bool) {
    && HeaderAt(m, r.pos, r.size, r.hole)
    && (footer ==> FooterAt(m, r.End() - FOOTER_SIZE, r.pos))
  }

  /** Only a hole that ends the heap may lack a footer: create_heap writes none
      for its first hole. */
  ghost predicate NeedsFooter(rs: seq<Region>, i: nat)
    requires i < |rs|
  {
    i + 1 < |rs| || !rs[i].hole
  }

  ghost predicate TaggedAt(m: seq<byte>, rs: seq<Region>, i: nat)
    requires i < |rs|
  {
    Tagged(m, rs[i], NeedsFooter(rs, i))
  }

  ghost predicate Represents(m: seq<byte>, rs: seq<Region>) {
    forall i :: 0 <= i < |rs| ==> TaggedAt(m, rs, i)
  }

  // ----- order of regions --------------------------------------------------

  lemma {:induction false} RegionsAscend(rs: seq<Region>, lo: nat, hi: nat, i: nat, j: nat)
    requires Tiles(rs, lo, hi)
    requires i < j < |rs|
    ensures rs[i].End() <= rs[j].pos
    ensures j == i + 1 ==> rs[i].End() == rs[j].pos
    decreases j
  {
    assert Joins(rs, j - 1);
    if i + 1 < j {
      RegionsAscend(rs, lo, hi, i, j - 1);
    }
  }

  lemma RegionBounds(rs: seq<Region>, lo: nat, hi: nat, i: nat)
    requires Tiles(rs, lo, hi)
    requires i < |rs|
    ensures lo <= rs[i].pos && rs[i].End() <= hi
  {
    if 0 < i { RegionsAscend(rs, lo, hi, 0, i); }
    if i + 1 < |rs| { RegionsAscend(rs, lo, hi, i, |rs| - 1); }
  }

  /** Two different regions share no byte, and both lie inside the heap. */
  lemma RegionsDisjoint(rs: seq<Region>, lo: nat, hi: nat, i: nat, j: nat)
    requires Tiles(rs, lo, hi)
    requires i < |rs| && j < |rs| && i != j
    ensures rs[i].End() <= rs[j].pos || rs[j].End() <= rs[i].pos
    ensures lo <= rs[i].pos && rs[i].End() <= hi
  {
    RegionBounds(rs, lo, hi, i);
    if i < j {
      RegionsAscend(rs, lo, hi, i, j);
    } else {
      RegionsAscend(rs, lo, hi, j, i);
    }
  }

  // ----- the walk over header sizes ----------------------------------------

  /** Following header sizes through memory from p; None if the walk meets a size
      too small for a region or steps over hi. */
  ghost function WalkHeaders(m: seq<byte>, p: nat, hi: nat): Option<seq<Region>>
    decreases hi - p
  {
    if p >= hi then
      if p == hi then Some([]) else None
    else
      var size := Load(m, p + 8, 8);
      if size < OVERHEAD || p + HEADER_SIZE > |m| then None
      else
        match WalkHeaders(m, p + size, hi)
        case None => None
        case Some(rest) => Some([Region(p, size, m[p + 4] != 0)] + rest)
  }

  /** The walk from the start lands exactly on the end, and what it reads on the
      way is the whole region sequence: memory alone determines it. */
  lemma WalkReadsRegions(m: seq<byte>, rs: seq<Region>, lo: nat, hi: nat)
    requires Tiles(rs, lo, hi)
    requires Represents(m, rs)
    ensures WalkHeaders(m, lo, hi) == Some(rs)
  {
    WalkReadsSuffix(m, rs, lo, hi, 0);
    assert rs[0..] == rs;
  }

  lemma WalkStep(m: seq<byte>, r: Region, hi: nat)
    requires r.size >= OVERHEAD && r.pos < hi
    requires HeaderAt(m, r.pos, r.size, r.hole)
    ensures WalkHeaders(m, r.pos, hi) ==
      match WalkHeaders(m, r.End(), hi)
      case None => None
      case Some(rest) => Some([r] + rest)
  {
  }

  lemma {:induction false} WalkReadsSuffix(m: seq<byte>, rs: seq<Region>, lo: nat, hi: nat, i: nat)
    requires Tiles(rs, lo, hi)
    requires Represents(m, rs)
    requires i <= |rs|
    ensures WalkHeaders(m, PosOf(rs, i, hi), hi) == Some(rs[i..])
    decreases |rs| - i
  {
    if i < |rs| {
      assert TaggedAt(m, rs, i);
      WalkReadsSuffix(m, rs, lo, hi, i + 1);
      RegionBounds(rs, lo, hi, i);
      WalkStep(m, rs[i], hi);
      assert i + 1 < |rs| ==> Joins(rs, i);
      assert PosOf(rs, i + 1, hi) == rs[i].End();
      assert rs[i..] == [rs[i]] + rs[i + 1..];
    } else {
      assert rs[i..] == [];
    }
  }

  // ----- replacing a run of regions ------------------------------------------

  ghost function Splice(rs: seq<Region>, i: nat, j: nat, mid: seq<Region>): seq<Region>
    requires i <= j <= |rs|
  {
    rs[..i] + mid + rs[j..]
  }

  /** Where region i begins, or the heap's end when there is no region i. */
  ghost function PosOf(rs: seq<Region>, i: nat, hi: nat): nat {
    if i < |rs| then rs[i].pos else hi
  }

  lemma SpliceTiles(rs: seq<Region>, i: nat, j: nat, mid: seq<Region>, lo: nat, hi: nat, e: nat)
    requires Tiles(rs, lo, hi)
    requires i <= j <= |rs|
    requires Tiles(mid, PosOf(rs, i, hi), e)
    requires j < |rs| ==> e == rs[j].pos
    ensures Tiles(Splice(rs, i, j, mid), lo, if j < |rs| then hi else e)
  {
    var out := Splice(rs, i, j, mid);
    forall k | 0 <= k < |out| - 1
      ensures Joins(out, k)
    {
      if k + 1 < i {
        assert Joins(rs, k);
      } else if k + 1 == i {
        assert out[k + 1] == mid[0];
        assert i < |rs| ==> Joins(rs, k);
      } else if k + 1 < i + |mid| {
        assert Joins(mid, k - i);
      } else if k + 1 == i + |mid| {
        assert out[k] == mid[|mid| - 1];
      } else {
        assert out[k] == rs[k - i - |mid| + j];
        assert Joins(rs, k - i - |mid| + j);
      }
    }
    assert out[0] == if i == 0 then mid[0] else rs[0];
    assert out[|out| - 1] == if j == |rs| then mid[|mid| - 1] else rs[|rs| - 1];
  }

  lemma TaggedFrame(m: seq<byte>, r: seq<byte>, reg: Region, footer: bool, a: int, b: int)
    requires reg.size >= OVERHEAD
    requires SameOutside(m, r, a, b)
    requires reg.End() <= a || b <= reg.pos
    ensures Tagged(r, reg, footer) == Tagged(m, reg, footer)
  {
    TagFrame(m, r, reg.pos, a, b);
    TagFrame(m, r, reg.End() - FOOTER_SIZE, a, b);
  }

  /** Writes that stay inside the replaced run leave the other regions' tags. */
  lemma SpliceRepresents(m: seq<byte>, r: seq<byte>, rs: seq<Region>, i: nat, j: nat, mid: seq<Region>,
                         lo: nat, hi: nat, a: nat, b: nat)
    requires Tiles(rs, lo, hi)
    requires Represents(m, rs)
    requires i <= j <= |rs| && mid != []
    requires i == |rs| ==> !rs[i - 1].hole
    requires SameOutside(m, r, a, b)
    requires PosOf(rs, i, hi) <= a
    requires j < |rs| ==> b <= rs[j].pos
    requires forall k :: 0 <= k < |mid| ==> Tagged(r, mid[k], k + 1 < |mid| || j < |rs| || !mid[k].hole)
    ensures Represents(r, Splice(rs, i, j, mid))
  {
    var out := Splice(rs, i, j, mid);
    forall k | 0 <= k < |out|
      ensures TaggedAt(r, out, k)
    {
      if k < i {
        if i < |rs| { RegionsAscend(rs, lo, hi, k, i); } else { RegionBounds(rs, lo, hi, k); }
        assert TaggedAt(m, rs, k);
        TaggedFrame(m, r, rs[k], NeedsFooter(rs, k), a, b);
      } else if k < i + |mid| {
        assert out[k] == mid[k - i];
      } else {
        var d := k - i - |mid| + j;
        assert out[k] == rs[d];
        if j < d { RegionsAscend(rs, lo, hi, j, d); }
        assert TaggedAt(m, rs, d);
        TaggedFrame(m, r, rs[d], NeedsFooter(rs, d), a, b);
      }
    }
  }

  lemma SpliceHoles(rs: seq<Region>, i: nat, j: nat, mid: seq<Region>, lo: nat, hi: nat, p: nat)
    requires Tiles(rs, lo, hi)
    requires i <= j <= |rs|
    ensures p in Holes(Splice(rs, i, j, mid)) <==>
      (p in Holes(rs) && !HoleAmong(rs, i, j, p)) || HoleAmong(mid, 0, |mid|, p)
  {
    var out := Splice(rs, i, j, mid);
    if k :| 0 <= k < |rs| && rs[k].hole && rs[k].pos == p {
      assert k < i ==> out[k] == rs[k];
      assert j <= k ==> out[k - j + i + |mid|] == rs[k];
      if HoleAmong(rs, i, j, p) && !(i <= k < j) {
        var t :| i <= t < j && rs[t].hole && rs[t].pos == p;
        RegionsDisjoint(rs, lo, hi, k, t);
      }
    }
    if k :| 0 <= k < |mid| && mid[k].hole && mid[k].pos == p {
      assert out[k + i] == mid[k];
    }
    if k :| 0 <= k < |out| && out[k].hole && out[k].pos == p {
      if i <= k < i + |mid| {
        assert mid[k - i] == out[k];
      } else {
        var d := if k < i then k else k - i - |mid| + j;
        assert out[k] == rs[d];
        if HoleAmong(rs, i, j, p) {
          var t :| i <= t < j && rs[t].hole && rs[t].pos == p;
          RegionsDisjoint(rs, lo, hi, d, t);
        }
      }
    }
  }
}

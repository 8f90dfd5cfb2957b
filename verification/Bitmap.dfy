/**
  A bitmap as a sequence of bits: zones of clear bits, counts of set bits, and
  the marking and unmarking of ranges.
 */
module Bitmap {

  /** Bits lo to hi are all clear. */
  ghost predicate Clear(bits: seq<bool>, lo: nat, hi: nat) {
    hi <= |bits| && forall f :: lo <= f < hi ==> !bits[f]
  }

  ghost predicate AllSet(bits: seq<bool>, lo: nat, hi: nat) {
    hi <= |bits| && forall f :: lo <= f < hi ==> bits[f]
  }

  /** A zone of the given size starts at s. */
  ghost predicate ZoneAt(bits: seq<bool>, s: nat, size: nat) {
    Clear(bits, s, s + size)
  }

  /** No zone of the given size starts below limit. */
  ghost predicate NoZoneBelow(bits: seq<bool>, limit: nat, size: nat) {
    forall s :: 0 <= s < limit ==> !ZoneAt(bits, s, size)
  }

  /** A set bit less than size bits beyond p rules out every start from p up to it:
      jumping past it skips no zone. */
  lemma JumpSkipsNothing(bits: seq<bool>, p: nat, q: nat, size: nat)
    requires NoZoneBelow(bits, p, size)
    requires p <= q < p + size && q < |bits| && bits[q]
    ensures NoZoneBelow(bits, q + 1, size)
  {
    forall s | 0 <= s < q + 1
      ensures !ZoneAt(bits, s, size)
    {
      assert p <= s ==> s <= q < s + size;
    }
  }

  lemma SetBitsNoZone(bits: seq<bool>, n: nat, size: nat)
    requires size > 0
    ensures AllSet(bits, 0, n) ==> NoZoneBelow(bits, n, size)
  {
    if AllSet(bits, 0, n) {
      forall s | 0 <= s < n
        ensures !ZoneAt(bits, s, size)
      {
        assert bits[s];
      }
    }
  }

  /** How many of the first n bits are set. */
  function CountSet(bits: seq<bool>, n: nat): nat
    requires n <= |bits|
  {
    if n == 0 then 0 else CountSet(bits, n - 1) + (if bits[n - 1] then 1 else 0)
  }

  lemma {:induction false} CountAfter(bits: seq<bool>, f: nat, v: bool, n: nat)
    requires f < |bits| && n <= |bits|
    ensures CountSet(bits[f := v], n) ==
      CountSet(bits, n) + (if f < n then (if v then 1 else 0) - (if bits[f] then 1 else 0) else 0)
    decreases n
  {
    if n > 0 {
      CountAfter(bits, f, v, n - 1);
    }
  }

  lemma {:induction false} CountBounds(bits: seq<bool>, n: nat)
    requires n <= |bits|
    ensures CountSet(bits, n) <= n
    ensures CountSet(bits, n) == n <==> AllSet(bits, 0, n)
  {
    if n > 0 {
      CountBounds(bits, n - 1);
      if AllSet(bits, 0, n) { assert bits[n - 1] && AllSet(bits, 0, n - 1); }
      if CountSet(bits, n) == n { assert AllSet(bits, 0, n - 1); }
    }
  }

  lemma {:induction false} CountPositive(bits: seq<bool>, n: nat)
    requires 0 < n <= |bits| && bits[0]
    ensures CountSet(bits, n) > 0
  {
    if n > 1 {
      CountPositive(bits, n - 1);
    }
  }

  lemma {:induction false} CountSplit(bits: seq<bool>, n: nat, k: nat)
    requires n + k <= |bits|
    requires Clear(bits, n, n + k) || AllSet(bits, n, n + k)
    ensures CountSet(bits, n + k) == CountSet(bits, n) + (if AllSet(bits, n, n + k) then k else 0)
    decreases k
  {
    if k > 0 {
      assert bits[n + k - 1] == AllSet(bits, n, n + k);
      CountSplit(bits, n, k - 1);
      if k > 1 { assert bits[n] == AllSet(bits, n, n + k); }
    }
  }

  /** The bits with lo to hi set to v. */
  function Filled(bits: seq<bool>, lo: nat, hi: nat, v: bool): (r: seq<bool>)
    requires lo <= hi <= |bits|
    ensures |r| == |bits|
    ensures forall f :: 0 <= f < |bits| ==> r[f] == if lo <= f < hi then v else bits[f]
  {
    seq(|bits|, f requires 0 <= f < |bits| => if lo <= f < hi then v else bits[f])
  }

  lemma FilledStep(bits: seq<bool>, lo: nat, hi: nat, v: bool)
    requires lo <= hi < |bits|
    ensures Filled(bits, lo, hi + 1, v) == Filled(bits, lo, hi, v)[hi := v]
  {
  }

  /** Filling a zone that held only the opposite value changes the count by its
      size. */
  lemma {:induction false} CountFilled(bits: seq<bool>, lo: nat, hi: nat, v: bool, n: nat)
    requires lo <= hi <= n <= |bits|
    requires forall f :: lo <= f < hi ==> bits[f] == !v
    ensures CountSet(Filled(bits, lo, hi, v), n) == CountSet(bits, n) + (if v then hi - lo else lo - hi)
    decreases hi - lo
  {
    if lo == hi {
      assert Filled(bits, lo, hi, v) == bits;
    } else {
      FilledStep(bits, lo, hi - 1, v);
      CountFilled(bits, lo, hi - 1, v, n);
      CountAfter(Filled(bits, lo, hi - 1, v), hi - 1, v, n);
    }
  }

  lemma {:induction false} CountMonotone(bits: seq<bool>, k: nat, n: nat)
    requires k <= n <= |bits|
    ensures CountSet(bits, k) <= CountSet(bits, n) <= CountSet(bits, k) + (n - k)
    decreases n
  {
    if k < n {
      CountMonotone(bits, k, n - 1);
    }
  }

  lemma ClearBelow(bits: seq<bool>, lo: nat, hi: nat, n: nat)
    requires lo < hi && Clear(bits, lo, hi)
    requires AllSet(bits, n, |bits|)
    ensures hi <= n
  {
    assert !bits[hi - 1];
  }

  /** With fewer than size clear bits below n there is no zone of that size, as
      long as the bits from n on are set. */
  lemma TooFewFree(bits: seq<bool>, n: nat, size: nat)
    requires n < |bits| && AllSet(bits, n, |bits|)
    requires n - CountSet(bits, n) < size
    ensures NoZoneBelow(bits, n, size)
  {
    CountBounds(bits, n);
    forall s | 0 <= s < n
      ensures !ZoneAt(bits, s, size)
    {
      if ZoneAt(bits, s, size) {
        ClearBelow(bits, s, s + size, n);
        CountSplit(bits, s, size);
        CountMonotone(bits, s + size, n);
        CountBounds(bits, s);
      }
    }
  }

  /** Allocating a free zone and freeing it restores the bitmap. */
  lemma AllocFreeRestores(bits: seq<bool>, lo: nat, hi: nat)
    requires lo <= hi <= |bits| && Clear(bits, lo, hi)
    ensures Filled(Filled(bits, lo, hi, true), lo, hi, false) == bits
  {
  }

  /** The first clear bit from lo on, or lo + n if the next n bits are set. */
  ghost function FirstClear(bits: seq<bool>, lo: nat, n: nat): (f: nat)
    requires lo + n <= |bits|
    ensures lo <= f <= lo + n
    decreases n
  {
    if n == 0 || !bits[lo] then lo else FirstClear(bits, lo + 1, n - 1)
  }

  lemma {:induction false} FirstClearFacts(bits: seq<bool>, lo: nat, n: nat)
    requires lo + n <= |bits|
    ensures AllSet(bits, lo, FirstClear(bits, lo, n))
    ensures FirstClear(bits, lo, n) < lo + n ==> !bits[FirstClear(bits, lo, n)]
    decreases n
  {
    if n > 0 && bits[lo] {
      FirstClearFacts(bits, lo + 1, n - 1);
    }
  }

  // ----- allocations that are outstanding ------------------------------------------

  datatype Zone = Zone(start: nat, size: nat)

  predicate Apart(a: Zone, b: Zone) {
    a.start + a.size <= b.start || b.start + b.size <= a.start
  }

  /** The zones handed out are marked and share no frame. */
  ghost predicate Outstanding(bits: seq<bool>, zones: seq<Zone>) {
    && (forall i :: 0 <= i < |zones| ==> zones[i].size > 0 && AllSet(bits, zones[i].start, zones[i].start + zones[i].size))
    && (forall i, j :: 0 <= i < j < |zones| ==> Apart(zones[i], zones[j]))
  }

  /** A zone found free is apart from every outstanding one, so handing it out
      keeps them all apart. */
  lemma GrabKeepsApart(bits: seq<bool>, zones: seq<Zone>, z: Zone)
    requires Outstanding(bits, zones)
    requires z.size > 0 && z.start + z.size <= |bits| && Clear(bits, z.start, z.start + z.size)
    ensures Outstanding(Filled(bits, z.start, z.start + z.size, true), zones + [z])
  {
    forall i | 0 <= i < |zones|
      ensures Apart(zones[i], z)
    {
      var a := zones[i];
      var f := if a.start <= z.start then z.start else a.start;
      assert f < a.start + a.size ==> bits[f];
    }
  }

  /** Giving one zone back leaves the others marked. */
  lemma DropKeepsOthers(bits: seq<bool>, zones: seq<Zone>, k: nat)
    requires Outstanding(bits, zones) && k < |zones|
    ensures var z := zones[k];
      Outstanding(Filled(bits, z.start, z.start + z.size, false), zones[..k] + zones[k + 1..])
  {
    var z := zones[k];
    var rest := zones[..k] + zones[k + 1..];
    forall i | 0 <= i < |rest|
      ensures Apart(rest[i], z) && rest[i] in zones
    {
      assert rest[i] == zones[if i < k then i else i + 1];
    }
    assert forall i, j :: 0 <= i < j < |rest| ==> Apart(rest[i], rest[j]);
  }
}

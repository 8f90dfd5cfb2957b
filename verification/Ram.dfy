/**
  Byte-addressed memory, as the kernel heap sees it: little-endian integers of a
  given width at any address, and the heap's header and footer tags.
 */
module Ram {

  type byte = x: int | 0 <= x < 256

  const U64: nat := 0x1_0000_0000_0000_0000

  const HEAP_MAGIC: nat := 0xDEADBABA

  // sizeof(header_t) and sizeof(footer_t): magic at 0, is_hole at 4, size or
  // header pointer at 8.
  const HEADER_SIZE: nat := 16
  const FOOTER_SIZE: nat := 16

  function Pow256(n: nat): (p: nat)
    ensures p > 0
  {
    if n == 0 then 1 else 256 * Pow256(n - 1)
  }

  function ToBytes(v: nat, n: nat): (bs: seq<byte>)
    ensures |bs| == n
  {
    if n == 0 then [] else [v % 256] + ToBytes(v / 256, n - 1)
  }

  function FromBytes(bs: seq<byte>): nat
  {
    if bs == [] then 0 else bs[0] + 256 * FromBytes(bs[1..])
  }

  lemma {:induction false} BytesRoundTrip(v: nat, n: nat)
    requires v < Pow256(n)
    ensures FromBytes(ToBytes(v, n)) == v
  {
    if n > 0 {
      BytesRoundTrip(v / 256, n - 1);
    }
  }

  /** The byte at offset k counts 256 to the k. */
  lemma {:induction false} ByteWeighs(bs: seq<byte>, k: nat, x: byte)
    requires k < |bs|
    ensures FromBytes(bs[k := x]) == FromBytes(bs) + Pow256(k) * (x - bs[k])
  {
    if k == 0 {
      assert bs[k := x][1..] == bs[1..];
    } else {
      var rest, p, d := bs[1..], Pow256(k - 1), x - bs[k];
      ByteWeighs(rest, k - 1, x);
      assert bs[k := x][1..] == rest[k - 1 := x];
      assert 256 * (p * d) == (256 * p) * d;
    }
  }

  lemma {:induction false} FromBytesBound(bs: seq<byte>)
    ensures FromBytes(bs) < Pow256(|bs|)
  {
    if bs != [] {
      FromBytesBound(bs[1..]);
    }
  }

  /** The integer of width n stored at address a; 0 outside memory. */
  function Load(m: seq<byte>, a: int, n: nat): nat
  {
    if 0 <= a && a + n <= |m| then FromBytes(m[a..a + n]) else 0
  }

  lemma LoadBound(m: seq<byte>, a: nat)
    ensures Load(m, a, 8) < U64
  {
    if a + 8 <= |m| { FromBytesBound(m[a..a + 8]); }
    assert Pow256(4) == 0x1_0000_0000 && Pow256(8) == U64;
  }

  function Write(m: seq<byte>, a: nat, bs: seq<byte>): (r: seq<byte>)
    requires a + |bs| <= |m|
    ensures |r| == |m|
  {
    m[..a] + bs + m[a + |bs|..]
  }

  lemma SingleByte(m: seq<byte>, a: nat)
    requires a < |m|
    ensures Load(m, a, 1) == m[a]
  {
    assert m[a..a + 1] == [m[a]];
    assert FromBytes([m[a]]) == m[a] + 256 * FromBytes([m[a]][1..]);
  }

  /** m and r hold the same bytes everywhere outside [lo, hi). */
  ghost predicate SameOutside(m: seq<byte>, r: seq<byte>, lo: int, hi: int)
  {
    |m| == |r| && forall k :: 0 <= k < |m| && !(lo <= k < hi) ==> r[k] == m[k]
  }

  lemma LoadFrame(m: seq<byte>, r: seq<byte>, a: int, n: nat, lo: int, hi: int)
    requires SameOutside(m, r, lo, hi)
    requires a + n <= lo || hi <= a
    ensures Load(r, a, n) == Load(m, a, n)
  {
    if 0 <= a && a + n <= |m| {
      assert m[a..a + n] == r[a..a + n];
    }
  }

  /** A header tag at p: magic, hole flag and region size. */
  ghost predicate HeaderAt(m: seq<byte>, p: int, size: nat, hole: bool)
  {
    && 0 <= p && p + HEADER_SIZE <= |m|
    && Load(m, p, 4) == HEAP_MAGIC
    && m[p + 4] == (if hole then 1 else 0)
    && Load(m, p + 8, 8) == size
  }

  /** A footer tag at q, pointing at the header h. */
  ghost predicate FooterAt(m: seq<byte>, q: int, h: nat)
  {
    && 0 <= q && q + FOOTER_SIZE <= |m|
    && Load(m, q, 4) == HEAP_MAGIC
    && Load(m, q + 8, 8) == h
  }

  lemma TagFrame(m: seq<byte>, r: seq<byte>, p: int, lo: int, hi: int)
    requires SameOutside(m, r, lo, hi)
    requires p + 16 <= lo || hi <= p
    ensures forall s, h :: HeaderAt(r, p, s, h) == HeaderAt(m, p, s, h)
    ensures forall h :: FooterAt(r, p, h) == FooterAt(m, p, h)
  {
    LoadFrame(m, r, p, 4, lo, hi);
    LoadFrame(m, r, p + 8, 8, lo, hi);
  }

  class Memory {
    const bytes: array<byte>

    constructor (size: nat)
      ensures bytes.Length == size && fresh(bytes)
    {
      bytes := new byte[size](_ => 0);
    }

    ghost function Image(): (m: seq<byte>)
      reads bytes
      ensures |m| == bytes.Length
    {
      bytes[..]
    }

    method Fetch(a: nat, n: nat) returns (v: nat)
      requires a + n <= bytes.Length
      ensures v == Load(Image(), a, n)
    {
      v := FromBytes(bytes[a..a + n]);
      assert bytes[..][a..a + n] == bytes[a..a + n];
    }

    method FetchByte(a: nat) returns (v: byte)
      requires a < bytes.Length
      ensures v == Image()[a]
    {
      v := bytes[a];
    }

    method Store(a: nat, n: nat, v: nat)
      requires a + n <= bytes.Length
      requires v < Pow256(n)
      modifies bytes
      ensures Image() == Write(old(Image()), a, ToBytes(v, n))
      ensures SameOutside(old(Image()), Image(), a, a + n)
      ensures Load(Image(), a, n) == v
    {
      var bs := ToBytes(v, n);
      for i := 0 to n
        invariant forall k :: 0 <= k < i ==> bytes[a + k] == bs[k]
        invariant forall k :: 0 <= k < bytes.Length && !(a <= k < a + i) ==> bytes[k] == old(bytes[k])
      {
        bytes[a + i] := bs[i];
      }
      assert bytes[..][a..a + n] == bs;
      BytesRoundTrip(v, n);
    }

    /** Writes header->magic, header->is_hole and header->size. */
    method StoreHeader(p: nat, size: nat, hole: bool)
      requires p + HEADER_SIZE <= bytes.Length
      requires size < U64
      modifies bytes
      ensures HeaderAt(Image(), p, size, hole)
      ensures SameOutside(old(Image()), Image(), p, p + HEADER_SIZE)
    {
      Store(p, 4, HEAP_MAGIC);
      ghost var m := Image();
      Store(p + 4, 1, if hole then 1 else 0);
      LoadFrame(m, Image(), p, 4, p + 4, p + 5);
      SingleByte(Image(), p + 4);
      m := Image();
      Store(p + 8, 8, size);
      LoadFrame(m, Image(), p, 4, p + 8, p + 16);
    }

    /** Writes footer->magic and footer->header. */
    method StoreFooter(q: nat, h: nat)
      requires q + FOOTER_SIZE <= bytes.Length
      requires h < U64
      modifies bytes
      ensures FooterAt(Image(), q, h)
      ensures SameOutside(old(Image()), Image(), q, q + FOOTER_SIZE)
    {
      Store(q, 4, HEAP_MAGIC);
      ghost var m := Image();
      Store(q + 8, 8, h);
      LoadFrame(m, Image(), q, 4, q + 8, q + 16);
    }

    /** Writes header->is_hole = 1 alone. */
    method MarkHole(p: nat, ghost size: nat)
      requires HeaderAt(Image(), p, size, false)
      modifies bytes
      ensures HeaderAt(Image(), p, size, true)
      ensures SameOutside(old(Image()), Image(), p, p + HEADER_SIZE)
    {
      ghost var m := Image();
      Store(p + 4, 1, 1);
      LoadFrame(m, Image(), p, 4, p + 4, p + 5);
      LoadFrame(m, Image(), p + 8, 8, p + 4, p + 5);
      SingleByte(Image(), p + 4);
    }

    /** Writes header->size alone. */
    method Resize(p: nat, ghost size: nat, ghost hole: bool, v: nat)
      requires HeaderAt(Image(), p, size, hole)
      requires v < U64
      modifies bytes
      ensures HeaderAt(Image(), p, v, hole)
      ensures SameOutside(old(Image()), Image(), p, p + HEADER_SIZE)
    {
      ghost var m := Image();
      Store(p + 8, 8, v);
      LoadFrame(m, Image(), p, 4, p + 8, p + 16);
    }

    /** Writes footer->header alone. */
    method Redirect(q: nat, ghost h: nat, v: nat)
      requires FooterAt(Image(), q, h)
      requires v < U64
      modifies bytes
      ensures FooterAt(Image(), q, v)
      ensures SameOutside(old(Image()), Image(), q, q + FOOTER_SIZE)
    {
      ghost var m := Image();
      Store(q + 8, 8, v);
      LoadFrame(m, Image(), q, 4, q + 8, q + 16);
    }
  }
}

/**
  Printing numbers: digits produced lowest first into a buffer of 32 characters, then
  reversed. Reading the result back gives the number.
 */
module Numerals {

  const TBUF: nat := 32
  const UINT_LIMIT: nat := 0x1_0000_0000_0000_0000
  const INT_MIN: int := -0x8000_0000_0000_0000
  const END: char := '\0'

  const BCHARS: string := "0123456789ABCDEF"

  /** The digits of i, highest first; none for 0. */
  function Digits(i: nat, base: nat): (d: seq<nat>)
    requires 2 <= base
    ensures i == 0 <==> d == []
    ensures forall k :: 0 <= k < |d| ==> d[k] < base
    decreases i
  {
    if i == 0 then [] else Digits(i / base, base) + [i % base]
  }

  function Glyphs(d: seq<nat>): (s: string)
    requires forall k :: 0 <= k < |d| ==> d[k] < 16
    ensures |s| == |d| && forall k :: 0 <= k < |d| ==> s[k] == BCHARS[d[k]]
  {
    seq(|d|, k requires 0 <= k < |d| => BCHARS[d[k]])
  }

  /** What itoa prints. */
  function Numeral(i: nat, base: nat): string
    requires 2 <= base
  {
    if i == 0 || base > 16 then "0" else Glyphs(Digits(i, base))
  }

  function DigitValue(c: char): nat {
    if '0' <= c <= '9' then c as int - '0' as int
    else if 'A' <= c <= 'F' then c as int - 'A' as int + 10
    else 0
  }

  /** Reading a numeral, in the usual way. */
  function Parse(s: string, base: nat): nat {
    if s == "" then 0 else Parse(s[..|s| - 1], base) * base + DigitValue(s[|s| - 1])
  }

  // ----- quotients and products ------------------------------------------------------

  lemma DivideBelow(i: nat, b: nat, p: nat)
    requires b > 0
    ensures i / b < p <==> i < b * p
  {
    var q, r := i / b, i % b;
    assert i == q * b + r;
    if q < p {
      assert (q + 1) * b <= p * b;
    } else {
      assert p * b <= q * b;
    }
  }

  lemma ProductGrows(a: nat, b: nat, x: nat, y: nat)
    requires a <= b && x <= y
    ensures a * x <= b * y
  {
    assert b * y == a * x + a * (y - x) + (b - a) * y;
  }

  lemma Shrinks(i: nat, base: nat)
    requires 2 <= base && i != 0
    ensures 0 <= i / base < i && 0 <= i % base < base
  {
    DivideBelow(i, base, i);
    ProductGrows(2, base, i, i);
  }

  lemma Recombine(i: nat, base: nat)
    requires base > 0
    ensures i == i / base * base + i % base && i % base < base
    ensures i / base == 0 ==> i % base == i
  {
  }

  // ----- reading back ----------------------------------------------------------------

  lemma GlyphValue(d: nat)
    requires d < 16
    ensures DigitValue(BCHARS[d]) == d
  {
  }

  /** One more digit read. */
  lemma ReadOne(d: seq<nat>, r: nat, base: nat)
    requires (forall k :: 0 <= k < |d| ==> d[k] < 16) && r < 16
    ensures Parse(Glyphs(d + [r]), base) == Parse(Glyphs(d), base) * base + r
  {
    var s := Glyphs(d + [r]);
    GlyphValue(r);
    assert s[..|s| - 1] == Glyphs(d);
  }

  lemma {:induction false} DigitsRead(i: nat, base: nat)
    requires 2 <= base <= 16
    ensures Parse(Glyphs(Digits(i, base)), base) == i
    ensures i != 0 ==> Digits(i, base)[0] != 0
    decreases i
  {
    if i != 0 {
      Shrinks(i, base);
      DigitsRead(i / base, base);
      ReadOne(Digits(i / base, base), i % base, base);
      Recombine(i, base);
      FirstDigit(Digits(i / base, base), i % base, i);
    }
  }

  lemma FirstDigit(d: seq<nat>, r: nat, i: nat)
    requires d == [] ==> r == i
    requires i != 0 && (d != [] ==> d[0] != 0)
    ensures (d + [r])[0] != 0
  {
  }

  /** Every number reads back, and only 0 starts with a zero. */
  lemma NumeralRoundTrip(i: nat, base: nat)
    requires 2 <= base <= 16
    ensures Parse(Numeral(i, base), base) == i
    ensures Numeral(i, base) != "" && (Numeral(i, base)[0] == '0' <==> i == 0)
  {
    DigitsRead(i, base);
    if i != 0 {
      GlyphValue(Digits(i, base)[0]);
    } else {
      assert "0"[..0] == "" && Parse("", base) == 0;
    }
  }

  function Pow(base: nat, n: nat): nat {
    if n == 0 then 1 else base * Pow(base, n - 1)
  }

  /** i has at most n digits exactly if it is below base to the n. */
  lemma {:induction false} DigitsFitIff(i: nat, base: nat, n: nat)
    requires 2 <= base
    ensures |Digits(i, base)| <= n <==> i < Pow(base, n)
    decreases n
  {
    if n > 0 && i > 0 {
      DigitsFitIff(i / base, base, n - 1);
      DivideBelow(i, base, Pow(base, n - 1));
    } else {
      PowPositive(base, n);
    }
  }

  lemma {:induction false} PowPositive(base: nat, n: nat)
    requires base > 0
    ensures Pow(base, n) > 0
  {
    if n > 0 {
      PowPositive(base, n - 1);
      assert base * Pow(base, n - 1) >= Pow(base, n - 1);
    }
  }

  lemma {:induction false} PowGrows(a: nat, b: nat, n: nat)
    requires 0 < a <= b
    ensures Pow(a, n) <= Pow(b, n)
  {
    if n > 0 {
      PowGrows(a, b, n - 1);
      ProductGrows(a, b, Pow(a, n - 1), Pow(b, n - 1));
    }
  }

  lemma {:induction false} PowSum(base: nat, m: nat, n: nat)
    ensures Pow(base, m + n) == Pow(base, m) * Pow(base, n)
    decreases m
  {
    if m > 0 {
      PowSum(base, m - 1, n);
      assert base * (Pow(base, m - 1) * Pow(base, n)) == base * Pow(base, m - 1) * Pow(base, n);
    }
  }

  lemma FourTo32()
    ensures Pow(4, 32) == UINT_LIMIT
  {
    assert Pow(4, 4) == 256;
    PowSum(4, 4, 4);
    PowSum(4, 8, 8);
    PowSum(4, 16, 16);
  }

  lemma ThreeTo32()
    ensures Pow(3, 32) < UINT_LIMIT - 1
  {
    assert Pow(3, 4) == 81;
    PowSum(3, 4, 4);
    PowSum(3, 8, 8);
    PowSum(3, 16, 16);
  }

  /** The 32 characters of tbuf hold every 64-bit number exactly from base 4 on. */
  lemma TbufSufficesIff(base: nat)
    requires 2 <= base <= 16
    ensures (forall i: nat :: i < UINT_LIMIT ==> |Digits(i, base)| <= TBUF) <==> base >= 4
  {
    if base >= 4 {
      FourTo32();
      PowGrows(4, base, TBUF);
      forall i: nat | i < UINT_LIMIT
        ensures |Digits(i, base)| <= TBUF
      {
        DigitsFitIff(i, base, TBUF);
      }
    } else {
      ThreeTo32();
      PowGrows(base, 3, TBUF);
      DigitsFitIff(UINT_LIMIT - 1, base, TBUF);
    }
  }

  // ----- the buffers -----------------------------------------------------------------

  /** The text at a place of the buffer is s and a terminator. */
  ghost predicate TextAt(b: seq<char>, at: nat, s: string) {
    at + |s| < |b| && b[at..at + |s|] == s && b[at + |s|] == END
  }

  ghost predicate SameBefore(a: seq<char>, b: seq<char>, at: nat) {
    |a| == |b| && at <= |a| && a[..at] == b[..at]
  }

  lemma LastDigit(i: nat, base: nat, d: seq<nat>, top: nat)
    requires 2 <= base && i != 0 && top + |Digits(i, base)| == |d| && Digits(i, base) == d[..|d| - top]
    ensures top < |d| && Digits(i / base, base) == d[..|d| - top - 1] && d[|d| - 1 - top] == i % base
  {
    var e := Digits(i, base);
    assert e[..|e| - 1] == Digits(i / base, base);
    assert e[|e| - 1] == i % base;
  }

  /** A sign in front of a text. */
  lemma SignedText(was: seq<char>, mid: seq<char>, now: seq<char>, at: nat, s: string)
    requires SameBefore(mid, now, at + 1) && TextAt(now, at + 1, s)
    requires at < |was| == |mid| && mid == was[at := '-']
    ensures TextAt(now, at, "-" + s) && SameBefore(was, now, at)
  {
    assert now[..at + 1][at] == mid[..at + 1][at];
    assert now[..at + 1][..at] == mid[..at + 1][..at];
    assert now[at..at + 1 + |s|] == [now[at]] + now[at + 1..at + 1 + |s|];
  }

  class Printer {
    const tbuf: array<char>

    constructor ()
      ensures tbuf.Length == TBUF && fresh(tbuf)
    {
      tbuf := new char[TBUF](_ => END);
    }

    /** The first loop of itoa: the digits go into tbuf, lowest first. */
    method Produce(n: nat, base: nat) returns (top: nat)
      requires tbuf.Length == TBUF && 2 <= base <= 16 && |Digits(n, base)| <= TBUF
      modifies tbuf
      ensures top == |Digits(n, base)|
      ensures forall k :: 0 <= k < top ==> tbuf[k] == BCHARS[Digits(n, base)[top - 1 - k]]
    {
      ghost var d := Digits(n, base);
      var i: nat := n;
      top := 0;
      while i != 0
        invariant top <= |d| && top + |Digits(i, base)| == |d|
        invariant Digits(i, base) == d[..|d| - top]
        invariant forall k :: 0 <= k < top ==> tbuf[k] == BCHARS[d[|d| - 1 - k]]
        decreases i
      {
        Shrinks(i, base);
        LastDigit(i, base, d, top);
        tbuf[top] := BCHARS[i % base];
        top := top + 1;
        i := i / base;
      }
    }

    /** itoa, with the buffer given by an array and a place in it. Bases 2 and 3 are
        only for numbers of at most 32 digits. */
    method Itoa(i: nat, base: nat, buf: array<char>, at: nat)
      requires tbuf.Length == TBUF && buf != tbuf && 2 <= base
      requires base <= 16 ==> |Digits(i, base)| <= TBUF
      requires at + |Numeral(i, base)| < buf.Length
      modifies buf, tbuf
      ensures TextAt(buf[..], at, Numeral(i, base)) && SameBefore(old(buf[..]), buf[..], at)
    {
      if i == 0 || base > 16 {
        buf[at] := '0';
        buf[at + 1] := END;
        return;
      }
      var top := Produce(i, base);
      Reverse(top, buf, at, Numeral(i, base));
    }

    /** The second loop of itoa: tbuf backwards into the buffer. */
    method Reverse(top: nat, buf: array<char>, at: nat, ghost text: string)
      requires buf != tbuf && top == |text| <= tbuf.Length && at + top < buf.Length
      requires forall k :: 0 <= k < top ==> tbuf[k] == text[top - 1 - k]
      modifies buf
      ensures TextAt(buf[..], at, text) && SameBefore(old(buf[..]), buf[..], at)
    {
      var pos := top - 1;
      for opos := 0 to top
        invariant pos == top - 1 - opos
        invariant forall k :: 0 <= k < opos ==> buf[at + k] == text[k]
        invariant buf[..at] == old(buf[..at])
      {
        buf[at + opos] := tbuf[pos];
        pos := pos - 1;
      }
      buf[at + top] := END;
    }

    /** itoa_s: a minus sign and the numeral of -i for negative i, where the negation
        wraps around at the smallest number. Bases above 16 leave the buffer alone. */
    method ItoaSigned(i: int, base: nat, buf: array<char>, at: nat)
      requires tbuf.Length == TBUF && buf != tbuf && 2 <= base
      requires INT_MIN <= i < -INT_MIN
      requires base <= 16 ==> |Digits(Magnitude(i), base)| <= TBUF && at + |Signed(i, base)| < buf.Length
      modifies buf, tbuf
      ensures base > 16 ==> buf[..] == old(buf[..])
      ensures base <= 16 ==> TextAt(buf[..], at, Signed(i, base)) && SameBefore(old(buf[..]), buf[..], at)
    {
      if base > 16 {
        return;
      }
      if i < 0 {
        buf[at] := '-';
        var negated := if i == INT_MIN then i else -i;
        var magnitude := if negated < 0 then negated + UINT_LIMIT else negated;
        ghost var mid := buf[..];
        Itoa(magnitude, base, buf, at + 1);
        SignedText(old(buf[..]), mid, buf[..], at, Numeral(magnitude, base));
      } else {
        Itoa(i, base, buf, at);
      }
    }

    /** uitoa_s */
    method ItoaUnsigned(i: nat, base: nat, buf: array<char>, at: nat)
      requires tbuf.Length == TBUF && buf != tbuf && 2 <= base
      requires base <= 16 ==> |Digits(i, base)| <= TBUF && at + |Numeral(i, base)| < buf.Length
      modifies buf, tbuf
      ensures base > 16 ==> buf[..] == old(buf[..])
      ensures base <= 16 ==> TextAt(buf[..], at, Numeral(i, base)) && SameBefore(old(buf[..]), buf[..], at)
    {
      if base > 16 {
        return;
      }
      Itoa(i, base, buf, at);
    }
  }

  function Magnitude(i: int): nat { if i < 0 then -i else i }

  /** What itoa_s prints. */
  function Signed(i: int, base: nat): string
    requires 2 <= base
  {
    if i < 0 then "-" + Numeral(-i, base) else Numeral(i, base)
  }

  function ParseSigned(s: string, base: nat): int {
    if s != "" && s[0] == '-' then 0 - Parse(s[1..], base) else Parse(s, base)
  }

  /** Signed numbers read back too. */
  lemma SignedRoundTrip(i: int, base: nat)
    requires 2 <= base <= 16
    ensures ParseSigned(Signed(i, base), base) == i
  {
    NumeralRoundTrip(Magnitude(i), base);
    if i < 0 {
      assert Signed(i, base)[1..] == Numeral(-i, base);
    } else {
      NoSign(i, base);
    }
  }

  lemma NoSign(i: nat, base: nat)
    requires 2 <= base <= 16
    ensures Numeral(i, base) != "" ==> Numeral(i, base)[0] != '-'
  {
    if i != 0 {
      var d := Digits(i, base);
      assert Numeral(i, base)[0] == BCHARS[d[0]];
      NoGlyphIsSign(d[0]);
    }
  }

  lemma NoGlyphIsSign(d: nat)
    requires d < 16
    ensures BCHARS[d] != '-'
  {
  }
}

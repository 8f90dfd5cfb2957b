/**
  Four-level page tables in physical memory: the hardware walk, the window that a
  self-referencing top table opens onto every table entry, and what a write to one
  entry changes.
 */
module Paging {
  import opened Basics

  const ENTRIES: nat := 512
  const MAX_FRAMES: nat := 0x100_0000_0000     // 40 bits of frame number
  const PAGE: nat := 4096

  // ----- entries -----------------------------------------------------------------

  type Frame = x: nat | x < MAX_FRAMES
  type Low = x: nat | x < 512
  type High = x: nat | x < 4096

  /** A 64-bit word by the fields of a table entry: bits 0, 1 and 2, bits 3 to 11,
      the frame (directory_pointer, directory, table) in bits 12 to 51, and the rest. */
  datatype Word = Word(present: bool, rw: bool, user: bool, low: Low, frame: Frame, high: High)

  const ZERO: Word := Word(false, false, false, 0, 0, 0)

  function Bit(b: bool): nat { if b then 1 else 0 }

  /** The word as a number. */
  function Hex(w: Word): (n: nat)
    ensures n < 0x1_0000_0000_0000_0000
  {
    ((((w.high * MAX_FRAMES + w.frame) * 512 + w.low) * 2 + Bit(w.user)) * 2 + Bit(w.rw)) * 2 + Bit(w.present)
  }

  function Fields(n: nat): Word
    requires n < 0x1_0000_0000_0000_0000
  {
    Word(n % 2 == 1, n / 2 % 2 == 1, n / 4 % 2 == 1, n / 8 % 512, n / PAGE % MAX_FRAMES, n / (PAGE * MAX_FRAMES))
  }

  /** The fields partition the 64 bits: every number has exactly one reading. */
  lemma FieldsPartition(w: Word, n: nat)
    requires n < 0x1_0000_0000_0000_0000
    ensures Hex(w) == n <==> Fields(n) == w
  {
    FieldsOfHex(w);
    HexOfFields(n);
  }

  lemma FieldsOfHex(w: Word)
    ensures Fields(Hex(w)) == w
  {
    var upper := w.high * MAX_FRAMES + w.frame;
    var lower := upper * 512 + w.low;
    FlagsOfHex(lower, w.user, w.rw, w.present);
    DigitOut(upper, w.low);
    FrameOut(w.high, w.frame);
    UpperOfNumber(Hex(w));
  }

  /** The last digit of a number to base 512, and one of 40 bits. */
  lemma DigitOut(q: nat, r: nat)
    requires r < ENTRIES
    ensures (q * ENTRIES + r) / ENTRIES == q && (q * ENTRIES + r) % ENTRIES == r
  {
  }

  lemma FrameOut(q: nat, r: nat)
    requires r < MAX_FRAMES
    ensures (q * MAX_FRAMES + r) / MAX_FRAMES == q && (q * MAX_FRAMES + r) % MAX_FRAMES == r
  {
  }

  lemma FlagsOfHex(x: nat, user: bool, rw: bool, present: bool)
    ensures var n := ((x * 2 + Bit(user)) * 2 + Bit(rw)) * 2 + Bit(present);
      n / 8 == x && n / 4 % 2 == Bit(user) && n / 2 % 2 == Bit(rw) && n % 2 == Bit(present)
  {
    var n := ((x * 2 + Bit(user)) * 2 + Bit(rw)) * 2 + Bit(present);
    assert n / 2 == (x * 2 + Bit(user)) * 2 + Bit(rw);
    assert n / 4 == n / 2 / 2 && n / 8 == n / 4 / 2;
  }

  lemma UpperOfNumber(n: nat)
    ensures n / PAGE == n / 8 / 512 && n / (PAGE * MAX_FRAMES) == n / PAGE / MAX_FRAMES
  {
  }

  lemma FlagsOfNumber(n: nat)
    ensures n == ((n / 8 * 2 + n / 4 % 2) * 2 + n / 2 % 2) * 2 + n % 2
  {
    assert n / 4 == n / 2 / 2 && n / 8 == n / 4 / 2;
  }

  lemma HexOfFields(n: nat)
    requires n < 0x1_0000_0000_0000_0000
    ensures Hex(Fields(n)) == n
  {
    UpperOfNumber(n);
    FlagsOfNumber(n);
    assert n / PAGE == n / PAGE / MAX_FRAMES * MAX_FRAMES + n / PAGE % MAX_FRAMES;
    assert n / 8 == n / 8 / 512 * 512 + n / 8 % 512;
  }

  const LOW_FRAMES: nat := 0x1000_0000           // their bytes are numbered in 40 bits

  /** frame * 0x1000, as the compiler evaluates it: a product with a field of 40 bits has
      40 bits. */
  function FrameAddress(frame: nat): nat {
    frame * PAGE % MAX_FRAMES
  }

  /** So frames from 1 TB up are confused with lower ones. */
  lemma FrameAddressIff(frame: Frame)
    ensures FrameAddress(frame) % PAGE == 0
    ensures FrameAddress(frame) / PAGE == frame <==> frame < LOW_FRAMES
    ensures frame < LOW_FRAMES ==> FrameAddress(frame) == frame * PAGE
  {
    var q, r := frame / LOW_FRAMES, frame % LOW_FRAMES;
    assert frame * PAGE == q * MAX_FRAMES + r * PAGE;
    FrameOut(q, r * PAGE);
  }

  /** Entry w is present and points at the frame. */
  predicate LinksTo(w: Word, frame: nat) {
    w.present && w.frame == frame
  }

  /** Entry w after its present and rw bits are set, its user bit is written, and
      its frame field is replaced; the other bits stay. */
  function Linked(w: Word, frame: Frame, user: bool): Word {
    w.(present := true, rw := true, user := user, frame := frame)
  }

  /** The number the processor reads: bits 0 and 1 set, bit 2 for user mode, the frame from
      bit 12 on, and the rest as it was. */
  lemma LinkedNumber(w: Word, frame: Frame, user: bool)
    ensures Hex(Linked(w, frame, user)) == w.high * 0x10_0000_0000_0000 + frame * 4096 + w.low * 8 + (if user then 7 else 3)
  {
  }

  // ----- the walk ----------------------------------------------------------------

  /** One level of the walk: entry i of the table in frame t, if there is one. */
  function Step(m: seq<Word>, t: Option<nat>, i: nat): (r: Option<nat>)
    ensures r.Some? ==> r.value * ENTRIES + ENTRIES <= |m| && r.value < MAX_FRAMES
  {
    match t
    case None => None
    case Some(f) =>
      if i < ENTRIES && f * ENTRIES + ENTRIES <= |m| then
        var w := m[f * ENTRIES + i];
        if w.present && w.frame * ENTRIES + ENTRIES <= |m| then Some(w.frame) else None
      else None
  }

  /** The frame reached from the table in frame root along a path of indices. */
  function WalkTo(m: seq<Word>, root: nat, path: seq<nat>): Option<nat>
    decreases |path|
  {
    if path == [] then Some(root)
    else Step(m, WalkTo(m, root, path[..|path| - 1]), path[|path| - 1])
  }

  /** The four indices of a page number of 36 bits, the pml4 index first. */
  function PathOf(page: nat): (p: seq<nat>)
    ensures |p| == 4 && forall i :: 0 <= i < 4 ==> p[i] < ENTRIES
  {
    [page / 0x800_0000 % ENTRIES, page / 0x4_0000 % ENTRIES, page / ENTRIES % ENTRIES, page % ENTRIES]
  }

  /** The frame that page number page of the address space at root maps to. */
  function Translate(m: seq<Word>, root: nat, page: nat): Option<nat> {
    WalkTo(m, root, PathOf(page))
  }

  /** The last-level entry of a path of four indices, if there is a table for it. */
  function Leaf(m: seq<Word>, root: nat, path: seq<nat>): Option<Word>
    requires |path| == 4
  {
    match WalkTo(m, root, path[..3])
    case None => None
    case Some(f) =>
      if path[3] < ENTRIES && f * ENTRIES + ENTRIES <= |m| then Some(m[f * ENTRIES + path[3]]) else None
  }

  /** Where in physical memory, counted in words, the processor finds the word at
      a 64-bit virtual address; bits 48 to 63 repeat bit 47. */
  function Resolve(m: seq<Word>, root: nat, va: nat): (r: Option<nat>)
  {
    match Translate(m, root, va / PAGE % 0x10_0000_0000)
    case None => None
    case Some(f) => Some(f * ENTRIES + va % PAGE / 8)
  }

  lemma PathDigits(a: nat, b: nat, c: nat, d: nat)
    requires a < ENTRIES && b < ENTRIES && c < ENTRIES && d < ENTRIES
    ensures PathOf(((a * ENTRIES + b) * ENTRIES + c) * ENTRIES + d) == [a, b, c, d]
    ensures ((a * ENTRIES + b) * ENTRIES + c) * ENTRIES + d < 0x10_0000_0000
  {
    var x := a * ENTRIES + b;
    var y := x * ENTRIES + c;
    DigitOut(y, d);
    DigitOut(x, c);
    DigitOut(a, b);
    DividedTwice(y * ENTRIES + d);
  }

  lemma DividedTwice(v: nat)
    ensures v / 0x4_0000 == v / ENTRIES / ENTRIES && v / 0x800_0000 == v / ENTRIES / ENTRIES / ENTRIES
  {
  }

  lemma PathUnique(v: nat, w: nat)
    requires v < 0x10_0000_0000 && w < 0x10_0000_0000
    requires PathOf(v) == PathOf(w)
    ensures v == w
  {
    Recompose(v);
    Recompose(w);
    assert forall i :: 0 <= i < 4 ==> PathOf(v)[i] == PathOf(w)[i];
  }

  lemma Recompose(v: nat)
    requires v < 0x10_0000_0000
    ensures var p := PathOf(v); v == ((p[0] * ENTRIES + p[1]) * ENTRIES + p[2]) * ENTRIES + p[3]
  {
    var q := v / ENTRIES;
    var r := q / ENTRIES;
    assert v / 0x4_0000 == r;
    assert v / 0x800_0000 == r / ENTRIES;
    assert r / ENTRIES < ENTRIES;
  }

  // ----- the window ----------------------------------------------------------------

  const SELF: nat := 511

  const PML4_WINDOW: nat := 0xFFFF_FFFF_FFFF_F000
  const PDP_WINDOW: nat := 0xFFFF_FFFF_FFE0_0000
  const PD_WINDOW: nat := 0xFFFF_FFFF_C000_0000
  const PT_WINDOW: nat := 0xFFFF_FF80_0000_0000

  /** The address at which the window shows the entry that follows a path: the
      element of _current_pml4, _current_pdp, _current_pd or _current_pt whose index
      is the path read as a number. */
  function WindowAddress(path: seq<nat>): nat
    requires 1 <= |path| <= 4
  {
    if |path| == 1 then PML4_WINDOW + 8 * path[0]
    else if |path| == 2 then PDP_WINDOW + 8 * (path[0] * ENTRIES + path[1])
    else if |path| == 3 then PD_WINDOW + 8 * ((path[0] * ENTRIES + path[1]) * ENTRIES + path[2])
    else PT_WINDOW + 8 * (((path[0] * ENTRIES + path[1]) * ENTRIES + path[2]) * ENTRIES + path[3])
  }

  ghost predicate Indices(path: seq<nat>) {
    forall i :: 0 <= i < |path| ==> path[i] < ENTRIES
  }

  /** Slot 511 of root points to top, and so does slot 511 of top itself. */
  ghost predicate SelfMapped(m: seq<Word>, root: nat, top: nat) {
    Step(m, Some(root), SELF) == Some(top) && Step(m, Some(top), SELF) == Some(top)
  }

  lemma {:induction false} SelfPrefix(m: seq<Word>, root: nat, top: nat, path: seq<nat>)
    requires Step(m, Some(root), SELF) == Some(top)
    ensures WalkTo(m, root, [SELF] + path) == WalkTo(m, top, path)
    decreases |path|
  {
    if path == [] {
      assert WalkTo(m, root, []) == Some(root);
      assert [SELF][..0] == [];
      assert [SELF] + path == [SELF];
    } else {
      SelfPrefix(m, root, top, path[..|path| - 1]);
      var p := [SELF] + path;
      assert p[..|p| - 1] == [SELF] + path[..|path| - 1];
    }
  }

  /** Decoding the window address of a path: its upper indices are as many 511s as
      the path is short of four, then all of the path but its last index, which is
      the offset. */
  lemma WindowDecodes(path: seq<nat>)
    requires 1 <= |path| <= 4 && Indices(path)
    ensures var va := WindowAddress(path);
      && va < 0x1_0000_0000_0000_0000
      && va % PAGE / 8 == path[|path| - 1]
      && PathOf(va / PAGE % 0x10_0000_0000) == seq(5 - |path|, _ => SELF) + path[..|path| - 1]
  {
    var n := |path|;
    var a := if n == 4 then path[0] else SELF;
    var b := if n == 4 then path[1] else if n == 3 then path[0] else SELF;
    var c := if n == 4 then path[2] else if n == 3 then path[1] else if n == 2 then path[0] else SELF;
    var last := path[n - 1];
    var number := ((SELF * ENTRIES + a) * ENTRIES + b) * ENTRIES + c;
    PathDigits(SELF, a, b, c);
    WindowParts(number, last);
    assert WindowAddress(path) == (WINDOW_PAGES + number) * PAGE + 8 * last;
    assert seq(5 - n, _ => SELF) + path[..n - 1] == [SELF, a, b, c];
  }

  const WINDOW_PAGES: nat := 0xF_FFF0_0000_0000     // bits 48 to 63 set, counted in pages

  lemma WindowParts(number: nat, last: nat)
    requires number < 0x10_0000_0000 && last < ENTRIES
    ensures var va := (WINDOW_PAGES + number) * PAGE + 8 * last;
      && va < 0x1_0000_0000_0000_0000
      && va % PAGE / 8 == last && va / PAGE % 0x10_0000_0000 == number
  {
    var va := (WINDOW_PAGES + number) * PAGE + 8 * last;
    assert va / PAGE == WINDOW_PAGES + number && va % PAGE == 8 * last;
  }

  /** Through a self-mapped root, the window address of a path is exactly the entry
      that top's own walk reads after the path's other indices; both exist or
      neither does. */
  lemma WindowShowsEntry(m: seq<Word>, root: nat, top: nat, path: seq<nat>)
    requires SelfMapped(m, root, top)
    requires 1 <= |path| <= 4 && Indices(path)
    ensures Resolve(m, root, WindowAddress(path)) ==
      match WalkTo(m, top, path[..|path| - 1])
      case None => None
      case Some(t) => Some(t * ENTRIES + path[|path| - 1])
  {
    var front := path[..|path| - 1];
    WindowDecodes(path);
    SelfPrefixes(m, root, top, 5 - |path|, front);
  }

  lemma {:induction false} SelfPrefixes(m: seq<Word>, root: nat, top: nat, n: nat, path: seq<nat>)
    requires SelfMapped(m, root, top) && n > 0
    ensures WalkTo(m, root, seq(n, _ => SELF) + path) == WalkTo(m, top, path)
    decreases n
  {
    var rest := seq(n - 1, _ => SELF) + path;
    assert seq(n, _ => SELF) + path == [SELF] + rest;
    SelfPrefix(m, root, top, rest);
    if n > 1 {
      SelfPrefixes(m, top, top, n - 1, path);
    } else {
      assert rest == path;
    }
  }
}

/**
  The array of pointers, ordered by a comparison, that indexes the heap's holes.
  The comparison reads the headers the pointers point at, so each call receives
  it as it stands at that moment.
 */
module OrderedArray {
  import opened Basics

  type LessThan = (nat, nat) -> bool

  const COUNTS: nat := 0x1_0000_0000_0000_0000     // what the count can tell apart

  /** Where insertion stops looking: the first entry that is not less than x. */
  function Position(xs: seq<nat>, x: nat, less: LessThan): (k: nat)
    ensures k <= |xs|
    ensures forall j :: 0 <= j < k ==> less(xs[j], x)
    ensures k < |xs| ==> !less(xs[k], x)
  {
    if xs == [] || !less(xs[0], x) then 0 else 1 + Position(xs[1..], x, less)
  }

  lemma PositionUnique(xs: seq<nat>, x: nat, less: LessThan, k: nat)
    requires k <= |xs|
    requires forall j :: 0 <= j < k ==> less(xs[j], x)
    requires k < |xs| ==> !less(xs[k], x)
    ensures k == Position(xs, x, less)
  {
  }

  function Inserted(xs: seq<nat>, x: nat, less: LessThan): seq<nat> {
    var k := Position(xs, x, less);
    xs[..k] + [x] + xs[k..]
  }

  function Removed(xs: seq<nat>, i: nat): seq<nat>
    requires i < |xs|
  {
    xs[..i] + xs[i + 1..]
  }

  ghost predicate SortedBy(xs: seq<nat>, key: nat -> nat) {
    forall i, j :: 0 <= i < j < |xs| ==> key(xs[i]) <= key(xs[j])
  }

  function ByKey(key: nat -> nat): LessThan {
    (a: nat, b: nat) => key(a) < key(b)
  }

  lemma InsertedKeepsEntries(xs: seq<nat>, x: nat, less: LessThan)
    ensures multiset(Inserted(xs, x, less)) == multiset(xs) + multiset{x}
  {
    var k := Position(xs, x, less);
    assert xs == xs[..k] + xs[k..];
  }

  lemma RemovedKeepsEntries(xs: seq<nat>, i: nat)
    requires i < |xs|
    ensures multiset(Removed(xs, i)) == multiset(xs) - multiset{xs[i]}
  {
    assert xs == xs[..i] + [xs[i]] + xs[i + 1..];
  }

  lemma PlacedMembers(xs: seq<nat>, x: nat, k: nat)
    requires Distinct(xs) && x !in xs && k <= |xs|
    ensures var ys := xs[..k] + [x] + xs[k..];
      Distinct(ys) && forall p :: p in ys <==> p == x || p in xs
  {
    var ys := xs[..k] + [x] + xs[k..];
    assert ys[k] == x;
    assert forall j :: 0 <= j < |xs| ==> xs[j] == ys[if j < k then j else j + 1];
  }

  lemma InsertedMembers(xs: seq<nat>, x: nat, less: LessThan)
    requires Distinct(xs) && x !in xs
    ensures Distinct(Inserted(xs, x, less))
    ensures forall p :: p in Inserted(xs, x, less) <==> p == x || p in xs
  {
    PlacedMembers(xs, x, Position(xs, x, less));
  }

  lemma RemovedMembers(xs: seq<nat>, i: nat)
    requires i < |xs| && Distinct(xs)
    ensures Distinct(Removed(xs, i))
    ensures forall p :: p in Removed(xs, i) <==> p in xs && p != xs[i]
  {
    var ys := Removed(xs, i);
    assert forall j :: 0 <= j < |xs| && j != i ==> xs[j] == ys[if j < i then j else j - 1];
  }

  /** xs without x. */
  ghost function SeqWithout(xs: seq<nat>, x: nat): (ys: seq<nat>)
    ensures forall p :: p in ys <==> p in xs && p != x
  {
    if xs == [] then []
    else if xs[|xs| - 1] == x then SeqWithout(xs[..|xs| - 1], x)
    else SeqWithout(xs[..|xs| - 1], x) + [xs[|xs| - 1]]
  }

  lemma {:induction false} WithoutAbsent(xs: seq<nat>, x: nat)
    requires x !in xs
    ensures SeqWithout(xs, x) == xs
  {
    if xs != [] {
      WithoutAbsent(xs[..|xs| - 1], x);
    }
  }

  lemma {:induction false} WithoutRemoved(xs: seq<nat>, i: nat)
    requires i < |xs| && Distinct(xs)
    ensures SeqWithout(xs, xs[i]) == Removed(xs, i)
  {
    var front := xs[..|xs| - 1];
    if i == |xs| - 1 {
      WithoutAbsent(front, xs[i]);
      assert Removed(xs, i) == front;
    } else {
      WithoutRemoved(front, i);
      assert Removed(xs, i) == Removed(front, i) + [xs[|xs| - 1]];
    }
  }

  lemma {:induction false} WithoutKeepsOrder(xs: seq<nat>, x: nat, key: nat -> nat)
    requires SortedBy(xs, key)
    ensures SortedBy(SeqWithout(xs, x), key)
  {
    if xs != [] {
      var front := xs[..|xs| - 1];
      WithoutKeepsOrder(front, x, key);
      var ys := SeqWithout(front, x);
      forall i | 0 <= i < |ys|
        ensures key(ys[i]) <= key(xs[|xs| - 1])
      {
        assert ys[i] in front;
      }
    }
  }

  lemma InsertedKeepsOrder(xs: seq<nat>, x: nat, key: nat -> nat)
    requires SortedBy(xs, key)
    ensures SortedBy(Inserted(xs, x, ByKey(key)), key)
  {
    var less: LessThan := ByKey(key);
    var k := Position(xs, x, less);
    var ys := Inserted(xs, x, less);
    forall i, j | 0 <= i < j < |ys|
      ensures key(ys[i]) <= key(ys[j])
    {
      if i == k {
        assert key(x) <= key(xs[k]) <= key(xs[j - 1]);
      } else if j == k {
        assert less(xs[i], x);
      }
    }
  }

  lemma RemovedKeepsOrder(xs: seq<nat>, i: nat, key: nat -> nat)
    requires i < |xs|
    requires SortedBy(xs, key)
    ensures SortedBy(Removed(xs, i), key)
  {
  }

  lemma SameKeysSameOrder(xs: seq<nat>, key: nat -> nat, other: nat -> nat)
    requires SortedBy(xs, key)
    requires forall p :: p in xs ==> other(p) == key(p)
    ensures SortedBy(xs, other)
  {
    forall i, j | 0 <= i < j < |xs|
      ensures other(xs[i]) <= other(xs[j])
    {
      assert xs[i] in xs && xs[j] in xs;
    }
  }

  /** An entry whose key grows in place stays in order exactly when its right
      neighbour is not smaller than the new key. */
  lemma GrownInPlaceKeepsOrderIff(xs: seq<nat>, q: nat, key: nat -> nat, grown: nat -> nat)
    requires q < |xs|
    requires SortedBy(xs, key)
    requires forall j :: 0 <= j < |xs| && j != q ==> grown(xs[j]) == key(xs[j])
    requires key(xs[q]) <= grown(xs[q])
    ensures SortedBy(xs, grown) <==> (q + 1 < |xs| ==> grown(xs[q]) <= key(xs[q + 1]))
  {
    if q + 1 < |xs| && grown(xs[q]) <= key(xs[q + 1]) {
      forall i, j | 0 <= i < j < |xs|
        ensures grown(xs[i]) <= grown(xs[j])
      {
        if i == q {
          assert key(xs[q + 1]) <= key(xs[j]);
        } else {
          assert key(xs[i]) <= key(xs[j]);
        }
      }
    }
  }

  lemma ShiftedIs(ys: seq<nat>, xs: seq<nat>, k: nat, item: nat)
    requires k < |xs| && |ys| == |xs| + 1 && ys[k] == item
    requires forall j :: 0 <= j < k ==> ys[j] == xs[j]
    requires forall j :: k < j <= |xs| ==> ys[j] == xs[j - 1]
    ensures ys == xs[..k] + [item] + xs[k..]
  {
  }

  class Index {
    const slots: array<nat>
    var size: nat

    constructor (maxSize: nat)
      ensures Valid() && fresh(slots)
      ensures slots.Length == maxSize && Contents() == []
    {
      slots := new nat[maxSize](_ => 0);
      size := 0;
    }

    ghost predicate Valid()
      reads `size
    {
      size <= slots.Length
    }

    ghost function Contents(): seq<nat>
      requires Valid()
      reads `size, slots
    {
      slots[..size]
    }

    method Insert(item: nat, less: LessThan)
      requires Valid() && size < slots.Length
      modifies this`size, slots
      ensures Valid() && Contents() == Inserted(old(Contents()), item, less)
    {
      ghost var xs := Contents();
      var i := 0;
      while i < size && less(slots[i], item)
        invariant i <= size
        invariant forall j :: 0 <= j < i ==> less(xs[j], item)
      {
        i := i + 1;
      }
      PositionUnique(xs, item, less, i);
      if i == size {
        slots[size] := item;
        size := size + 1;
      } else {
        ShiftIn(i, item);
        size := size + 1;
      }
    }

    /** The second loop of the insertion: item goes to slot k, and every entry from
        there on moves up by one. */
    method ShiftIn(k: nat, item: nat)
      requires Valid() && k < size < slots.Length
      modifies slots
      ensures slots[..size + 1] == old(slots[..k]) + [item] + old(slots[k..size])
    {
      ghost var xs := slots[..size];
      var i := k;
      var tmp := slots[i];
      slots[i] := item;
      while i < size
        invariant k <= i <= size == |xs|
        invariant forall j :: 0 <= j < k ==> slots[j] == xs[j]
        invariant slots[k] == item
        invariant forall j :: k < j <= i ==> slots[j] == xs[j - 1]
        invariant forall j :: i < j < size ==> slots[j] == xs[j]
        invariant i < size ==> tmp == xs[i]
      {
        i := i + 1;
        var tmp2 := slots[i];
        slots[i] := tmp;
        tmp := tmp2;
      }
      ShiftedIs(slots[..size + 1], xs, k, item);
    }

    method Lookup(i: nat) returns (item: nat)
      requires Valid()
      ensures item == if i < size then Contents()[i] else 0
    {
      if i < size {
        item := slots[i];
      } else {
        item := 0;
      }
    }

    /** The shift reads one slot past the last entry, so that slot must exist. For the
        position behind the last entry nothing is shifted, and the count goes down
        all the same: the last entry is lost, and a count of 0 wraps around. */
    method Remove(i: nat)
      requires Valid() && i <= size < slots.Length
      modifies this`size, slots
      ensures i < old(size) ==> Valid() && Contents() == Removed(old(Contents()), i)
      ensures i == old(size) > 0 ==> Valid() && Contents() == old(Contents())[..old(size) - 1]
      ensures old(size) == 0 ==> size == COUNTS - 1
    {
      ghost var xs := Contents();
      var j := i;
      while j < size
        invariant i <= j <= size == |xs|
        invariant forall k :: 0 <= k < i ==> slots[k] == xs[k]
        invariant forall k :: i <= k < j && k + 1 < size ==> slots[k] == xs[k + 1]
        invariant forall k :: j <= k < size ==> slots[k] == xs[k]
      {
        slots[j] := slots[j + 1];
        j := j + 1;
      }
      size := if size == 0 then COUNTS - 1 else size - 1;
    }
  }
}

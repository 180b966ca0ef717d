/** The accessibility trait decoder: a 64-bit trait mask becomes the names
    of the traits whose bits are set, in bit order. Only bits 0 to 17 have
    names; every higher bit is ignored. */
module TraitDecoder {

  /** The trait names, indexed by bit position. */
  const Names: seq<string> := [
    "button", "link", "image", "selected", "playsSound", "keyboardKey",
    "staticText", "summaryElement", "notEnabled", "updatesFrequently",
    "searchField", "startsMediaSession", "adjustable", "allowsDirectInteraction",
    "causesPageTurn", "tabBar", "header", "toggle"]

  /** The number of named bits. */
  const Known: nat := 18

  /** Which named bits of the mask are set: entry `k` tests `1 << k`. */
  function Bits(mask: bv64): (r: seq<bool>)
    ensures |r| == Known
  {
    [mask & 0x1 != 0, mask & 0x2 != 0, mask & 0x4 != 0, mask & 0x8 != 0,
     mask & 0x10 != 0, mask & 0x20 != 0, mask & 0x40 != 0, mask & 0x80 != 0,
     mask & 0x100 != 0, mask & 0x200 != 0, mask & 0x400 != 0, mask & 0x800 != 0,
     mask & 0x1000 != 0, mask & 0x2000 != 0, mask & 0x4000 != 0, mask & 0x8000 != 0,
     mask & 0x1_0000 != 0, mask & 0x2_0000 != 0]
  }

  predicate Increasing(ps: seq<nat>) {
    forall i, j :: 0 <= i < j < |ps| ==> ps[i] < ps[j]
  }

  /** The named bits of the mask from `k` on, in ascending order. */
  function Positions(bits: seq<bool>, k: nat): (r: seq<nat>)
    requires k <= |bits|
    ensures Increasing(r)
    ensures forall i :: 0 <= i < |r| ==> k <= r[i] < |bits|
    ensures forall p: nat :: p in r <==> k <= p < |bits| && bits[p]
    decreases |bits| - k
  {
    if k == |bits| then []
    else
      var rest := Positions(bits, k + 1);
      if bits[k] then
        [k] + rest
      else rest
  }

  /** The names at the given bit positions, in the same order. */
  function NamesAt(ps: seq<nat>): (r: seq<string>)
    requires forall i :: 0 <= i < |ps| ==> ps[i] < Known
    ensures |r| == |ps|
    ensures forall i :: 0 <= i < |ps| ==> r[i] == Names[ps[i]]
  {
    if |ps| == 0 then [] else [Names[ps[0]]] + NamesAt(ps[1..])
  }

  /** `TraitDecoder.decode`: the name of every set named bit, in bit
      order. */
  function Decode(mask: bv64): seq<string> {
    NamesAt(Positions(Bits(mask), 0))
  }

  // ---------------------------------------------------------------------
  // Properties

  /** An increasing sequence is determined by which numbers it holds. */
  lemma {:induction false} IncreasingUnique(a: seq<nat>, b: seq<nat>)
    requires Increasing(a) && Increasing(b)
    requires forall x :: x in a <==> x in b
    ensures a == b
  {
    if |a| > 0 {
      assert a[0] in b;
    }
    if |b| > 0 {
      assert b[0] in a;
    }
    if |a| > 0 && |b| > 0 {
      assert a[0] == b[0];
      forall x
        ensures x in a[1..] <==> x in b[1..]
      {
        assert x in a[1..] <==> x in a && x != a[0];
        assert x in b[1..] <==> x in b && x != b[0];
      }
      IncreasingUnique(a[1..], b[1..]);
      assert a == [a[0]] + a[1..] && b == [b[0]] + b[1..];
    }
  }

  /** A name is in the result exactly when one of its bits is set. */
  lemma DecodeMembers(mask: bv64)
    ensures forall x :: x in Decode(mask) <==> exists p: nat :: p < Known && Bits(mask)[p] && Names[p] == x
  {
    var ps := Positions(Bits(mask), 0);
    var r := Decode(mask);
    forall x | x in r
      ensures exists p: nat :: p < Known && Bits(mask)[p] && Names[p] == x
    {
      var i :| 0 <= i < |r| && r[i] == x;
      assert ps[i] in ps;
    }
    forall p: nat | p < Known && Bits(mask)[p]
      ensures Names[p] in r
    {
      var i :| 0 <= i < |ps| && ps[i] == p;
      assert r[i] == Names[p];
    }
  }

  /** The numbers a list holds. */
  function Elems(ps: seq<nat>): (r: set<nat>)
    ensures forall x :: x in r <==> x in ps
  {
    if |ps| == 0 then {} else {ps[0]} + Elems(ps[1..])
  }

  /** An increasing list holds as many different numbers as it is long. */
  lemma {:induction false} IncreasingCount(ps: seq<nat>)
    requires Increasing(ps)
    ensures |Elems(ps)| == |ps|
  {
    if |ps| > 0 {
      assert ps[0] !in ps[1..];
      assert Increasing(ps[1..]);
      IncreasingCount(ps[1..]);
      assert Elems(ps) == {ps[0]} + Elems(ps[1..]);
    }
  }

  /** There are as many positions as set entries. */
  lemma PositionsCount(bits: seq<bool>)
    ensures |Positions(bits, 0)| == |set p: nat | p < |bits| && bits[p]|
  {
    var ps := Positions(bits, 0);
    IncreasingCount(ps);
    assert Elems(ps) == set p: nat | p < |bits| && bits[p];
  }

  /** One name per set named bit: the output is as long as the number of
      named bits the mask sets. */
  lemma DecodeCount(mask: bv64)
    ensures |Decode(mask)| == |set p: nat | p < Known && Bits(mask)[p]|
  {
    PositionsCount(Bits(mask));
  }

  /** Any increasing list of exactly the set positions is the list of
      positions. */
  lemma PositionsBy(bits: seq<bool>, ps: seq<nat>)
    requires Increasing(ps)
    requires forall p: nat :: p in ps <==> p < |bits| && bits[p]
    ensures Positions(bits, 0) == ps
  {
    IncreasingUnique(Positions(bits, 0), ps);
  }

  /** `1 << k` sets named bit `k` and no other. */
  lemma ShiftBits(k: nat)
    requires k < Known
    ensures var bits := Bits((1 as bv64) << k); forall p :: 0 <= p < Known ==> (bits[p] <==> p == k)
  {
    if k < 6 {
      if k == 0 {} else if k == 1 {} else if k == 2 {} else if k == 3 {} else if k == 4 {} else {}
    } else if k < 12 {
      if k == 6 {} else if k == 7 {} else if k == 8 {} else if k == 9 {} else if k == 10 {} else {}
    } else {
      if k == 12 {} else if k == 13 {} else if k == 14 {} else if k == 15 {} else if k == 16 {} else {}
    }
  }

  /** A single named bit decodes to exactly its name. */
  lemma SingleBit(k: nat)
    requires k < Known
    ensures Decode((1 as bv64) << k) == [Names[k]]
  {
    ShiftBits(k);
    PositionsBy(Bits((1 as bv64) << k), [k]);
  }

  /** The empty mask decodes to no traits. */
  lemma Zero()
    ensures Decode(0) == []
  {
    PositionsBy(Bits(0), []);
  }

  /** Bits 18 to 63 make no difference. */
  lemma HighBitsIgnored(mask: bv64)
    ensures Decode(mask) == Decode(mask & 0x3FFFF)
  {
    forall p: nat | p < Known
      ensures Bits(mask)[p] <==> Bits(mask & 0x3FFFF)[p]
    {
    }
    IncreasingUnique(Positions(Bits(mask), 0), Positions(Bits(mask & 0x3FFFF), 0));
  }

  /** A mask with only unnamed bits decodes to no traits. */
  lemma OnlyHighBits(mask: bv64)
    requires mask & 0x3FFFF == 0
    ensures Decode(mask) == []
  {
    forall p: nat | p < Known
      ensures !Bits(mask)[p]
    {
    }
    PositionsBy(Bits(mask), []);
  }

  function Upto(n: nat): (r: seq<nat>)
    ensures |r| == n
    ensures forall i :: 0 <= i < n ==> r[i] == i
  {
    if n == 0 then [] else Upto(n - 1) + [n - 1]
  }

  /** `Upto(n)` is increasing and holds exactly the numbers below `n`. */
  lemma UptoMembers(n: nat)
    ensures Increasing(Upto(n))
    ensures forall p: nat :: p in Upto(n) <==> p < n
  {
    var ps := Upto(n);
    forall p: nat | p < n
      ensures p in ps
    {
      assert ps[p] == p;
    }
  }

  /** The names at every position, in order, are the whole table. */
  lemma NamesAtUpto()
    ensures NamesAt(Upto(Known)) == Names
  {
    var r := NamesAt(Upto(Known));
    assert forall i :: 0 <= i < Known ==> r[i] == Names[i];
  }

  /** With the low eighteen bits all set, every named bit reads as set. */
  lemma AllBitsSet(mask: bv64)
    requires mask & 0x3FFFF == 0x3FFFF
    ensures forall p :: 0 <= p < Known ==> Bits(mask)[p]
  {
    assert Bits(mask) == [true, true, true, true, true, true, true, true, true, true, true, true, true, true, true, true, true, true];
  }

  /** All eighteen named bits set: every name, in table order. */
  lemma AllNamedBits(mask: bv64)
    requires mask & 0x3FFFF == 0x3FFFF
    ensures Decode(mask) == Names
  {
    UptoMembers(Known);
    AllBitsSet(mask);
    PositionsBy(Bits(mask), Upto(Known));
    NamesAtUpto();
  }

  /** `UInt64.max` decodes to all eighteen names. */
  lemma MaxMask()
    ensures Decode(0xFFFF_FFFF_FFFF_FFFF) == Names
  {
    AllNamedBits(0xFFFF_FFFF_FFFF_FFFF);
  }

  /** Button and selected (bits 0 and 3), whatever the unnamed bits. */
  lemma ButtonSelected(mask: bv64)
    requires mask & 0x3FFFF == 9
    ensures Decode(mask) == ["button", "selected"]
  {
    var bits := Bits(mask);
    assert bits == [true, false, false, true, false, false, false, false, false, false, false, false, false, false, false, false, false, false];
    PositionsBy(bits, [0, 3]);
  }

  /** The first and the last named bits (0 and 17). */
  lemma FirstAndLast(mask: bv64)
    requires mask & 0x3FFFF == 0x2_0001
    ensures Decode(mask) == ["button", "toggle"]
  {
    var bits := Bits(mask);
    assert bits == [true, false, false, false, false, false, false, false, false, false, false, false, false, false, false, false, false, true];
    PositionsBy(bits, [0, 17]);
  }
}

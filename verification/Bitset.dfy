/** The bitset of `common/bitset.h`: bits packed into bytes, changed in place. */
module Bitset {

  const CHAR_BIT: nat := 8

  function Mask(b: nat): bv8 {
    1 << (b % CHAR_BIT)
  }

  function Slot(b: nat): nat {
    b / CHAR_BIT
  }

  /** The number of bytes needed for nb bits. */
  function Slots(nb: nat): (n: nat)
    ensures forall b :: 0 <= b < nb ==> Slot(b) < n
    ensures n > 0 ==> (n - 1) * CHAR_BIT < nb
  {
    (nb + CHAR_BIT - 1) / CHAR_BIT
  }

  predicate Test(bits: seq<bv8>, b: nat)
    requires Slot(b) < |bits|
  {
    bits[Slot(b)] & Mask(b) != 0
  }

  function WithBit(bits: seq<bv8>, b: nat): seq<bv8>
    requires Slot(b) < |bits|
  {
    bits[Slot(b) := bits[Slot(b)] | Mask(b)]
  }

  function WithoutBit(bits: seq<bv8>, b: nat): seq<bv8>
    requires Slot(b) < |bits|
  {
    bits[Slot(b) := bits[Slot(b)] & !Mask(b)]
  }

  lemma MaskIsOneBit(b: nat)
    ensures Mask(b) == [1, 2, 4, 8, 16, 32, 64, 128][b % CHAR_BIT]
  {
    var i := b % CHAR_BIT;
    assert i == 0 || i == 1 || i == 2 || i == 3 || i == 4 || i == 5 || i == 6 || i == 7;
  }

  /** Setting or clearing bit b changes the answer for b and for no other bit. */
  lemma SetThenTest(bits: seq<bv8>, b: nat, c: nat)
    requires Slot(b) < |bits| && Slot(c) < |bits|
    ensures Test(WithBit(bits, b), c) <==> c == b || Test(bits, c)
  {
    MaskIsOneBit(b);
    MaskIsOneBit(c);
    assert b == CHAR_BIT * Slot(b) + b % CHAR_BIT;
    assert c == CHAR_BIT * Slot(c) + c % CHAR_BIT;
  }

  lemma ClearThenTest(bits: seq<bv8>, b: nat, c: nat)
    requires Slot(b) < |bits| && Slot(c) < |bits|
    ensures Test(WithoutBit(bits, b), c) <==> c != b && Test(bits, c)
  {
    MaskIsOneBit(b);
    MaskIsOneBit(c);
    assert b == CHAR_BIT * Slot(b) + b % CHAR_BIT;
    assert c == CHAR_BIT * Slot(c) + c % CHAR_BIT;
  }

  /** The set that a bitset of nb bits stands for. */
  function Members(bits: seq<bv8>, nb: nat): (r: set<nat>)
    requires |bits| == Slots(nb)
    ensures forall b :: b in r <==> 0 <= b < nb && Test(bits, b)
  {
    set b: nat | b < nb && Test(bits, b)
  }

  lemma SetAddsMember(bits: seq<bv8>, nb: nat, b: nat)
    requires |bits| == Slots(nb) && b < nb
    ensures Members(WithBit(bits, b), nb) == Members(bits, nb) + {b}
  {
    forall c | 0 <= c < nb
      ensures Test(WithBit(bits, b), c) <==> c == b || Test(bits, c)
    {
      SetThenTest(bits, b, c);
    }
  }

  lemma ClearRemovesMember(bits: seq<bv8>, nb: nat, b: nat)
    requires |bits| == Slots(nb) && b < nb
    ensures Members(WithoutBit(bits, b), nb) == Members(bits, nb) - {b}
  {
    forall c | 0 <= c < nb
      ensures Test(WithoutBit(bits, b), c) <==> c != b && Test(bits, c)
    {
      ClearThenTest(bits, b, c);
    }
  }

  method Init(a: array<bv8>, ghost nb: nat)
    requires a.Length == Slots(nb)
    modifies a
    ensures Members(a[..], nb) == {}
  {
    for i := 0 to a.Length
      invariant forall j :: 0 <= j < i ==> a[j] == 0
    {
      a[i] := 0;
    }
  }

  method Set(a: array<bv8>, ghost nb: nat, b: nat)
    requires a.Length == Slots(nb) && b < nb
    modifies a
    ensures Members(a[..], nb) == Members(old(a[..]), nb) + {b}
  {
    SetAddsMember(a[..], nb, b);
    a[Slot(b)] := a[Slot(b)] | Mask(b);
    assert a[..] == WithBit(old(a[..]), b);
  }

  method Clear(a: array<bv8>, ghost nb: nat, b: nat)
    requires a.Length == Slots(nb) && b < nb
    modifies a
    ensures Members(a[..], nb) == Members(old(a[..]), nb) - {b}
  {
    ClearRemovesMember(a[..], nb, b);
    a[Slot(b)] := a[Slot(b)] & !Mask(b);
    assert a[..] == WithoutBit(old(a[..]), b);
  }

  method IsSet(a: array<bv8>, ghost nb: nat, b: nat) returns (r: bool)
    requires a.Length == Slots(nb) && b < nb
    ensures r <==> b in Members(a[..], nb)
  {
    r := a[Slot(b)] & Mask(b) != 0;
  }
}

/** Allocation bitmaps, one bit for each unit, as bytes: what setting and clearing a bit does. */
module Bitmap {
  import opened Numbers

  function Mask(b: nat): Octet
    requires b < 8
  {
    if b == 0 then 1 else if b == 1 then 2 else if b == 2 then 4 else if b == 3 then 8
    else if b == 4 then 16 else if b == 5 then 32 else if b == 6 then 64 else 128
  }

  /** Unit `b` of the byte is taken. */
  predicate Bit(x: Octet, b: nat)
    requires b < 8
  {
    x & Mask(b) != 0
  }

  predicate Taken(m: seq<Octet>, u: nat)
    requires u < 8 * |m|
  {
    Bit(m[u / 8], u % 8)
  }

  function SetBit(m: seq<Octet>, u: nat): seq<Octet>
    requires u < 8 * |m|
  {
    m[u / 8 := m[u / 8] | Mask(u % 8)]
  }

  function ClearBit(m: seq<Octet>, u: nat): seq<Octet>
    requires u < 8 * |m|
  {
    m[u / 8 := m[u / 8] & (0xFF ^ Mask(u % 8))]
  }

  lemma ByteSet(x: Octet, b: nat, c: nat)
    requires b < 8 && c < 8
    ensures Bit(x | Mask(b), c) <==> b == c || Bit(x, c)
  {
  }

  lemma ByteClear(x: Octet, b: nat, c: nat)
    requires b < 8 && c < 8
    ensures Bit(x & (0xFF ^ Mask(b)), c) <==> b != c && Bit(x, c)
  {
  }

  lemma FullByte(x: Octet)
    ensures x == 0xFF <==> forall b: nat :: b < 8 ==> Bit(x, b)
  {
    if forall b: nat :: b < 8 ==> Bit(x, b) {
      assert Bit(x, 0) && Bit(x, 1) && Bit(x, 2) && Bit(x, 3) && Bit(x, 4) && Bit(x, 5) && Bit(x, 6) && Bit(x, 7);
    }
  }

  lemma ByteRestored(x: Octet, b: nat)
    requires b < 8
    ensures !Bit(x, b) ==> (x | Mask(b)) & (0xFF ^ Mask(b)) == x
    ensures Bit(x, b) ==> (x & (0xFF ^ Mask(b))) | Mask(b) == x
  {
  }

  /** Setting a bit takes exactly that unit. */
  lemma SetTakes(m: seq<Octet>, u: nat, v: nat)
    requires u < 8 * |m| && v < 8 * |m|
    ensures Taken(SetBit(m, u), v) <==> v == u || Taken(m, v)
  {
    hide Bit, Mask;
    ByteSet(m[u / 8], u % 8, v % 8);
  }

  /** Clearing a bit gives back exactly that unit. */
  lemma ClearFrees(m: seq<Octet>, u: nat, v: nat)
    requires u < 8 * |m| && v < 8 * |m|
    ensures Taken(ClearBit(m, u), v) <==> v != u && Taken(m, v)
  {
    hide Bit, Mask;
    ByteClear(m[u / 8], u % 8, v % 8);
  }

  /** Allocation and release of a unit undo each other, byte for byte. */
  lemma SetThenClear(m: seq<Octet>, u: nat)
    requires u < 8 * |m| && !Taken(m, u)
    ensures ClearBit(SetBit(m, u), u) == m
  {
    ByteRestored(m[u / 8], u % 8);
    hide Bit, Mask;
    var i, x := u / 8, m[u / 8];
    assert m[i := x | Mask(u % 8)][i := x] == m;
  }

  lemma ClearThenSet(m: seq<Octet>, u: nat)
    requires u < 8 * |m| && Taken(m, u)
    ensures SetBit(ClearBit(m, u), u) == m
  {
    ByteRestored(m[u / 8], u % 8);
    hide Bit, Mask;
    var i, x := u / 8, m[u / 8];
    assert m[i := x & (0xFF ^ Mask(u % 8))][i := x] == m;
  }

  /** The first free unit from `u` on, or the size of the map in units. */
  function FirstFree(m: seq<Octet>, u: nat): (z: nat)
    requires u <= 8 * |m|
    ensures u <= z <= 8 * |m| && (forall v :: u <= v < z ==> Taken(m, v))
    ensures z < 8 * |m| ==> !Taken(m, z)
    decreases 8 * |m| - u
  {
    if u == 8 * |m| || !Taken(m, u) then u else FirstFree(m, u + 1)
  }

  /** A full byte is skipped as a whole. */
  lemma {:induction false} SkipFullByte(m: seq<Octet>, i: nat, b: nat)
    requires i < |m| && m[i] == 0xFF && b <= 8
    ensures FirstFree(m, 8 * i + b) == FirstFree(m, 8 * (i + 1))
    decreases 8 - b
  {
    if b < 8 {
      FullByte(m[i]);
      assert (8 * i + b) / 8 == i && (8 * i + b) % 8 == b;
      SkipFullByte(m, i, b + 1);
    }
  }

  /** The first clear bit of a byte that is not full, as the allocators look for it. */
  method FirstClear(bits: Octet) returns (b: nat)
    requires bits != 0xFF
    ensures b < 8 && !Bit(bits, b) && forall c: nat :: c < b ==> Bit(bits, c)
  {
    FullByte(bits);
    b := 0;
    while bits & Mask(b) != 0
      invariant b < 8 && forall c: nat :: c < b ==> Bit(bits, c)
      decreases 8 - b
    {
      b := b + 1;
    }
  }

  /** The first free unit lies at the first clear bit of the first byte that is not full. */
  lemma {:induction false} FirstFreeInByte(m: seq<Octet>, i: nat, b: nat, from: nat)
    requires i < |m| && from <= b < 8 && !Bit(m[i], b) && forall c: nat :: c < b ==> Bit(m[i], c)
    ensures FirstFree(m, 8 * i + from) == 8 * i + b
    decreases b - from
  {
    BitIndex(i, from);
    if from < b { FirstFreeInByte(m, i, b, from + 1); }
  }

  lemma BitIndex(i: nat, b: nat)
    requires b < 8
    ensures (8 * i + b) / 8 == i && (8 * i + b) % 8 == b
  {
  }

  /** Bits are counted from the lowest of a byte. */
  lemma LowestFirst(x: Octet, b: nat)
    requires b < 8
    ensures Bit(x, b) <==> (x >> b) & 1 == 1
  {
    if b == 0 {} else if b == 1 {} else if b == 2 {} else if b == 3 {} else if b == 4 {} else if b == 5 {}
    else if b == 6 {} else { assert b == 7; }
  }
}

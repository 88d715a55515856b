/** The zone map of the file system: `balloc` and `bfree` over the blocks of the bitmap. */
module ZoneMap {
  import opened Bitmap
  import opened Numbers

  /** The two panics of the code are outcomes, and so is a block that lies before or behind all that the map
      covers, for which the code takes some other block of the device for a piece of the map. */
  datatype FreeOutcome = Freed | BadBlock | NotAllocated | OutsideMap

  class ZoneMap {
    const zmap: array<Octet>            // the zone map blocks, one after the other
    const zmapBlocks: nat
    const firstDataZone: nat
    const nzones: nat

    ghost predicate Valid()
      reads this
    {
      && zmap.Length == zmapBlocks * BLOCK_SIZE
      && 2 <= firstDataZone < 0x1_0000 && zmapBlocks < 0x1_0000 && nzones < 0x1_0000   // 16 bits in the superblock
    }

    /** The block number that bit `z` of the map stands for; bit 0 is the block before the data zones. */
    function BlockOf(z: nat): nat
      requires 2 <= firstDataZone
    {
      firstDataZone - 1 + z
    }

    constructor (blocks: nat, firstDataZone: nat, nzones: nat)
      requires 2 <= firstDataZone < 0x1_0000 && blocks < 0x1_0000 && nzones < 0x1_0000
      ensures Valid() && zmapBlocks == blocks && this.firstDataZone == firstDataZone
          && this.nzones == nzones && fresh(zmap)
    {
      zmap := new Octet[blocks * BLOCK_SIZE](_ => 0);
      zmapBlocks := blocks;
      this.firstDataZone := firstDataZone;
      this.nzones := nzones;
    }

    /** `balloc`: take the first free zone; 0 when every zone is taken. */
    method Balloc() returns (r: nat)
      requires Valid()
      modifies zmap
      ensures var z := FirstFree(old(zmap[..]), 0);
        if z == 8 * zmap.Length then r == 0 && zmap[..] == old(zmap[..])
        else r == BlockOf(z) != 0 && zmap[..] == SetBit(old(zmap[..]), z)
    {
      hide Bit, Mask, SetBit, Taken;
      ghost var m := zmap[..];
      var blockNo := firstDataZone - 1;
      var zmapBlock := 0;
      while zmapBlock < zmapBlocks
        invariant zmapBlock <= zmapBlocks && zmap[..] == m
        invariant blockNo == BlockOf(8 * (zmapBlock * BLOCK_SIZE))
        invariant FirstFree(m, 0) == FirstFree(m, 8 * (zmapBlock * BLOCK_SIZE))
      {
        var z := 0;
        while z < BLOCK_SIZE
          invariant z <= BLOCK_SIZE && zmap[..] == m
          invariant blockNo == BlockOf(8 * (zmapBlock * BLOCK_SIZE + z))
          invariant FirstFree(m, 0) == FirstFree(m, 8 * (zmapBlock * BLOCK_SIZE + z))
        {
          var i := zmapBlock * BLOCK_SIZE + z;
          if zmap[i] != 0xFF {
            var b := TakeBit(i);
            return blockNo + b;
          } else {
            SkipFullByte(m, i, 0);
            blockNo := blockNo + 8;
          }
          z := z + 1;
        }
        zmapBlock := zmapBlock + 1;
      }
      return 0;
    }

    /** The first clear bit of a byte that is not full is set. */
    method TakeBit(i: nat) returns (b: nat)
      requires i < zmap.Length && zmap[i] != 0xFF
      modifies zmap
      ensures b < 8 && FirstFree(old(zmap[..]), 8 * i) == 8 * i + b && zmap[..] == SetBit(old(zmap[..]), 8 * i + b)
    {
      hide Bit, Mask;
      ghost var m := zmap[..];
      b := FirstClear(zmap[i]);
      FirstFreeInByte(m, i, b, 0);
      BitIndex(i, b);
      zmap[i] := zmap[i] | Mask(b);
    }

    /** `bfree`: give a zone back. */
    method Bfree(blockNo: nat) returns (r: FreeOutcome)
      requires Valid() && blockNo < UINT_MODULUS
      modifies zmap
      ensures var z := blockNo - (firstDataZone - 1);
        if blockNo < 1 || blockNo > nzones then r == BadBlock && zmap[..] == old(zmap[..])
        else if z < 0 || z >= 8 * zmap.Length then r == OutsideMap && zmap[..] == old(zmap[..])
        else if !Taken(old(zmap[..]), z) then r == NotAllocated && zmap[..] == old(zmap[..])
        else r == Freed && zmap[..] == ClearBit(old(zmap[..]), z)
    {
      hide Bit, Mask;
      if blockNo < 1 || blockNo > nzones {
        return BadBlock;
      }
      var zoneIndex := (blockNo - firstDataZone + 1) % UINT_MODULUS;
      if zoneIndex >= 8 * zmap.Length {
        return OutsideMap;
      }
      var i, bit := ByteOf(zoneIndex), zoneIndex % 8;
      if !Bit(zmap[i], bit) {
        return NotAllocated;
      }
      zmap[i] := zmap[i] & (0xFF ^ Mask(bit));
      return Freed;
    }
  }

  /** `bfree` of the zone `balloc` has just returned restores the map byte for byte, and `balloc`
      of a map in which every zone below `z` is taken returns the zone just freed. */
  lemma BallocBfreeInverse(m: seq<Octet>, z: nat)
    requires z < 8 * |m|
    ensures z == FirstFree(m, 0) ==> ClearBit(SetBit(m, z), z) == m
    ensures Taken(m, z) && (forall v: nat :: v < z ==> Taken(m, v)) ==>
              FirstFree(ClearBit(m, z), 0) == z && SetBit(ClearBit(m, z), z) == m
  {
    hide Bit, Mask, SetBit, ClearBit;
    if z == FirstFree(m, 0) { SetThenClear(m, z); }
    if Taken(m, z) && forall v: nat :: v < z ==> Taken(m, v) {
      ClearThenSet(m, z);
      ClearLength(m, z);
      var f := FirstFree(ClearBit(m, z), 0);
      ClearFrees(m, z, z);
      if f < z { ClearFrees(m, z, f); }
    }
  }

  lemma ClearLength(m: seq<Octet>, z: nat)
    requires z < 8 * |m|
    ensures |ClearBit(m, z)| == |m|
  {
  }

  /** Position in the concatenated map of the byte that block number and offset within the block name. */
  function ByteOf(z: nat): (i: nat)
    ensures i == z / 8
  {
    SplitIndex(z);
    z / (BLOCK_SIZE * 8) * BLOCK_SIZE + z % (BLOCK_SIZE * 8) / 8
  }

  /** Block, byte and bit of a zone index name its byte in the concatenated map. */
  lemma SplitIndex(z: nat)
    ensures z / (BLOCK_SIZE * 8) * BLOCK_SIZE + z % (BLOCK_SIZE * 8) / 8 == z / 8
  {
    var q, r := z / (BLOCK_SIZE * 8), z % (BLOCK_SIZE * 8);
    assert z == 8 * (q * BLOCK_SIZE) + r;
    assert r == 8 * (r / 8) + r % 8;
    assert z == 8 * (q * BLOCK_SIZE + r / 8) + r % 8;
  }
}

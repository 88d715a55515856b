/** How a file system comes to break: stale data in a zone that becomes an indirect block. */
module FsStale {
  import opened Numbers
  import opened FsSpec
  import opened FsData
  import opened FsTrunc
  import opened FsSteps

  /** `writei` of one byte to an empty file: its first zone is taken, the byte put there, the size recorded. */
  function WriteByteTo(fs: Fs, ino: nat, x: Byte): Fs
    requires Shaped(fs) && ino in fs.inodes
  {
    var (fs1, z) := Bmap(fs, ino, 0, true);
    SetSize(PutSegment(fs1, z, 0, [x]), ino, 1)
  }

  /** A byte that is not zero is written to the empty file `a`, which is then truncated; the next write to
      `b`, whose direct blocks are full, adopts the freed zone as its indirect block, and the byte is taken
      for a zone of `b`.  Until that write all is in order. */
  lemma StaleIndirect(fs: Fs, a: nat, b: nat, x: Byte)
    requires Inv(fs) && a in fs.inodes && b in fs.inodes && a != b && x != 0 && Free(fs) != []
    requires fs.inodes[a] == Empty() && fs.inodes[b].size == NDIRECT * BLOCK_SIZE && fs.inodes[b].indirect == 0
    ensures var fs2 := WriteByteTo(fs, a, x);
      && Inv(fs2) && a in fs2.inodes && File(fs2, a) == [x]
      && var fs3 := Truncated(fs2, a);
      Inv(fs3) && b in fs3.inodes && !Inv(Bmap(fs3, b, NDIRECT, true).0)
  {
    var h := Head(fs);
    var fs1 := Bmap(fs, a, 0, true).0;
    BmapDirect(fs, a, 0);
    var blk := Overlay(fs1.zones[h], 0, [x]);
    var fs2, fs3 := WriteByteTo(fs, a, x), Truncated(WriteByteTo(fs, a, x), a);
    assert fs2 == SetSize(PutBlock(fs1, h, blk), a, 1);
    ByteWritten(fs, fs1, a, x);
    TruncateKeeps(fs2, a);
    Returned(fs, fs2, fs3, a, h, blk);
    assert Fresh(fs3, h) && Head(fs3) == h;
    hide Owned, NoLeaks, Filled, Bmap, WriteByteTo;
    StaleAdopted(fs3, b, h, x);
  }

  lemma StaleAdopted(fs: Fs, b: nat, h: nat, x: Byte)
    requires Inv(fs) && b in fs.inodes && fs.inodes[b].indirect == 0 && Head(fs) == h && Fresh(fs, h) && x != 0
    requires fs.zones[h][0] == x
    ensures !Inv(Bmap(fs, b, NDIRECT, true).0)
  {
    assert !Zeroed(fs.zones[h]);
    IndirectNeedsZeros(fs, b, NDIRECT);
  }

  lemma ByteWritten(fs: Fs, fs1: Fs, a: nat, x: Byte)
    requires Inv(fs) && Inv(fs1) && a in fs.inodes && a in fs1.inodes && fs.inodes[a].size == 0 && Extends(fs, fs1)
    requires BlockOf(fs1, a, 0) != 0
    ensures var fs2 := PutSegment(fs1, BlockOf(fs1, a, 0), 0, [x]);
            a in fs2.inodes && Inv(SetSize(fs2, a, 1)) && File(SetSize(fs2, a, 1), a) == [x]
  {
    TurnNothing(fs, a, 0);
    hide Owned, NoLeaks, Filled, Turn, Extends;
    ReachedTurn(fs, fs, fs1, a, 0, [], [x]);
    assert [] + [x] == [x];
    hide Shaped, ZoneAt;
    ByteDone(fs, PutSegment(fs1, BlockOf(fs1, a, 0), 0, [x]), a, x);
  }

  lemma ByteDone(fs: Fs, fs2: Fs, a: nat, x: Byte)
    requires InLoop(fs, fs2, a, 0, [x]) && a in fs.inodes && fs.inodes[a].size == 0
    ensures a in fs2.inodes && Inv(SetSize(fs2, a, 1)) && File(SetSize(fs2, a, 1), a) == [x]
  {
    hide Shaped, Owned, NoLeaks, Filled, Turn;
    WriteDone(fs, fs2, SetSize(fs2, a, 1), a, 0, [x]);
    assert File(fs, a) == [];
    assert Overwrite([], 0, [x]) == [x];
  }

  /** Truncation gives the one zone back: all is as before but for what is left in it. */
  lemma Returned(fs: Fs, fs2: Fs, fs3: Fs, a: nat, h: nat, blk: Block)
    requires Inv(fs) && a in fs.inodes && fs.inodes[a] == Empty() && Fresh(fs, h) && |blk| == BLOCK_SIZE && h != 0
    requires fs2 == SetSize(PutBlock(SetDirect(fs, a, 0, h), h, blk), a, 1) && Shaped(fs2) && fs3 == Truncated(fs2, a)
    ensures fs3 == PutBlock(fs, h, blk)
  {
    assert fs2.inodes[a].direct == [h, 0, 0, 0, 0, 0, 0] && fs2.inodes[a].indirect == 0;
    assert ZoneAt(fs2, Direct(a, 0)) == h;
    assert forall i :: 0 <= i < NDIRECT && i != 0 ==> ZoneAt(fs2, Direct(a, i)) == 0;
    assert DirectZones(fs2, a, NDIRECT) == {h};
    assert EntryZones(fs2, a, NINDIRECT) == {};
    assert ZonesOf(fs2, a) == {h};
    assert fs.taken + {h} - {h} == fs.taken;
    assert fs2.inodes[a := Empty()] == fs.inodes;
  }

  /** Nine blocks, an empty file and one with its seven direct blocks full, one zone left. */
  function Small(): Fs {
    Fs(seq(9, _ => seq(BLOCK_SIZE, _ => 0)), {1, 2, 3, 4, 5, 6, 7}, 1,
       map[1 := Empty(), 2 := Inode([1, 2, 3, 4, 5, 6, 7], 0, NDIRECT * BLOCK_SIZE)])
  }

  /** Such a file system, and so the failure, exists. */
  lemma SmallBreaks()
    ensures Inv(Small()) && Free(Small()) != []
    ensures var fs3 := Truncated(WriteByteTo(Small(), 1, 1), 1);
            Shaped(fs3) && 2 in fs3.inodes && Inv(fs3) && !Inv(Bmap(fs3, 2, NDIRECT, true).0)
  {
    SmallInv();
    StaleIndirect(Small(), 1, 2, 1);
  }

  lemma SmallInv()
    ensures Inv(Small()) && Free(Small()) != []
  {
    var fs := Small();
    assert Shaped(fs);
    forall p | ValidPos(fs, p)
      ensures ZoneAt(fs, p) == if p.ino == 2 && p.Direct? then p.i + 1 else 0
    {
    }
    forall z | z in fs.taken && fs.first <= z
      ensures HasOwner(fs, z)
    {
      assert ZoneAt(fs, Direct(2, z - 1)) == z;
    }
    forall j | j in fs.inodes
      ensures FileFilled(fs, j)
    {
      forall b: nat | b < MAX_BLOCKS && b * BLOCK_SIZE < fs.inodes[j].size
        ensures BlockOf(fs, j, b) != 0
      {
        assert j == 2 && b < NDIRECT;
      }
    }
    assert 8 !in fs.taken;
  }

  // ------------------------------------------------------------------ the full device

  /** With too few zones left the segment of a write goes over block 0 of the device; every file reads as
      before, until the size is recorded and the file has a hole. */
  lemma DeviceFull(fs: Fs, ino: nat, b: nat, off: nat, seg: seq<Byte>, size: nat)
    requires Inv(fs) && ino in fs.inodes && b < MAX_BLOCKS && Clean(fs, ino, b) && !Enough(fs, ino, b)
    requires off + |seg| <= BLOCK_SIZE && b * BLOCK_SIZE < size
    ensures var (fs1, z) := Bmap(fs, ino, b, true);
      && z == 0 && PutSegment(fs1, z, off, seg).zones[0] == Overlay(fs.zones[0], off, seg)
      && var fs2 := PutSegment(fs1, z, off, seg);
      && Inv(fs2) && fs2.inodes.Keys == fs.inodes.Keys
      && (forall j :: j in fs.inodes ==> File(fs2, j) == File(fs, j))
      && !Inv(SetSize(fs2, ino, size))
  {
    BmapReachesExactly(fs, ino, b);
    BmapKeepsExactly(fs, ino, b);
    BmapLeaves(fs, ino, b);
    var fs1 := Bmap(fs, ino, b, true).0;
    hide Bmap, Owned, NoLeaks, Filled;
    forall j | j in fs.inodes
      ensures File(fs1, j) == File(fs, j)
    {
      ExtendsFile(fs, fs1, j);
    }
    BootBlock(fs1, Overlay(fs1.zones[0], off, seg));
    assert fs1.inodes.Keys == fs.inodes.Keys && BlockOf(PutSegment(fs1, 0, off, seg), ino, b) == 0;
    hide File, ZoneAt;
    HoleBreaks(PutSegment(fs1, 0, off, seg), ino, b, size);
  }

  /** A zone that no write has reached: block 0 is as it was, and the block asked for is still missing. */
  lemma BmapLeaves(fs: Fs, ino: nat, b: nat)
    requires Inv(fs) && ino in fs.inodes && b < MAX_BLOCKS && Clean(fs, ino, b) && !Enough(fs, ino, b)
    ensures var fs1 := Bmap(fs, ino, b, true).0;
      Shaped(fs1) && ino in fs1.inodes && fs1.zones[0] == fs.zones[0] && BlockOf(fs1, ino, b) == 0
  {
    if Adopts(fs, ino, b) { FsSpec.Adopted(fs, ino); }
  }

  /** Block 0 holds no file. */
  lemma BootBlock(fs: Fs, blk: Block)
    requires Inv(fs) && |blk| == BLOCK_SIZE
    ensures var fs' := PutBlock(fs, 0, blk);
      && Inv(fs') && fs'.inodes == fs.inodes
      && (forall p :: ValidPos(fs, p) ==> ZoneAt(fs', p) == ZoneAt(fs, p))
      && forall j :: j in fs.inodes ==> File(fs', j) == File(fs, j)
  {
    var fs' := PutBlock(fs, 0, blk);
    assert Shaped(fs') && forall p :: ValidPos(fs, p) ==> ZoneAt(fs', p) == ZoneAt(fs, p);
    SameOwners(fs, fs');
    hide Owned, NoLeaks;
    forall j | j in fs'.inodes
      ensures FileFilled(fs', j)
    {
      assert FileFilled(fs, j);
      assert forall b: nat :: b < MAX_BLOCKS ==> BlockOf(fs', j, b) == BlockOf(fs, j, b);
    }
    assert Inv(fs');
    forall j | j in fs.inodes
      ensures File(fs', j) == File(fs, j)
    {
      BootFile(fs, fs', j);
    }
  }

  lemma BootFile(fs: Fs, fs': Fs, j: nat)
    requires Inv(fs) && Inv(fs') && j in fs.inodes && fs'.inodes == fs.inodes && |fs'.zones| == |fs.zones|
    requires forall z :: 0 < z < |fs.zones| ==> fs'.zones[z] == fs.zones[z]
    requires forall p :: ValidPos(fs, p) ==> ZoneAt(fs', p) == ZoneAt(fs, p)
    ensures File(fs', j) == File(fs, j)
  {
    var f, f' := File(fs, j), File(fs', j);
    assert FileFilled(fs, j);
    forall k | 0 <= k < |f|
      ensures f'[k] == f[k]
    {
      var b := k / BLOCK_SIZE;
      assert BlockOf(fs, j, b) != 0 && BlockOf(fs', j, b) == BlockOf(fs, j, b);
    }
  }

  lemma HoleBreaks(fs: Fs, ino: nat, b: nat, size: nat)
    requires Shaped(fs) && ino in fs.inodes && b < MAX_BLOCKS && BlockOf(fs, ino, b) == 0 && b * BLOCK_SIZE < size
    ensures !Inv(SetSize(fs, ino, size))
  {
    var fs' := SetSize(fs, ino, size);
    if Shaped(fs') {
      assert BlockOf(fs', ino, b) == 0;
      assert !FileFilled(fs', ino);
    }
  }

  /** One byte in the empty file fills such a device, and one byte for block 7 of the other file goes over
      block 0. */
  lemma SmallFills()
    ensures var fs := WriteByteTo(Small(), 1, 1);
      && Inv(fs) && 2 in fs.inodes && Free(fs) == []
      && var (fs1, z) := Bmap(fs, 2, NDIRECT, true);
      z == 0 && fs.zones[0][0] == 0 && PutSegment(fs1, z, 0, [1]).zones[0][0] == 1
  {
    SmallInv();
    StaleIndirect(Small(), 1, 2, 1);
    SmallTaken();
    var fs := WriteByteTo(Small(), 1, 1);
    DeviceFull(fs, 2, NDIRECT, 0, [1], NDIRECT * BLOCK_SIZE + 1);
  }

  lemma SmallTaken()
    ensures Shaped(Small()) && 1 in Small().inodes
    ensures var fs := WriteByteTo(Small(), 1, 1);
      && Shaped(fs) && 2 in fs.inodes && Free(fs) == [] && fs.zones[0] == Small().zones[0]
      && fs.inodes[2] == Small().inodes[2]
  {
    var fs := WriteByteTo(Small(), 1, 1);
    SmallFree();
    var fs1 := SetDirect(Small(), 1, 0, 8);
    assert fs == SetSize(PutSegment(fs1, 8, 0, [1]), 1, 1);
    assert fs.taken == {1, 2, 3, 4, 5, 6, 7, 8};
    NoneFree(fs.taken, 1, 9);
  }

  lemma SmallFree()
    ensures Shaped(Small()) && Head(Small()) == 8
  {
    assert 8 !in Small().taken;
    assert Head(Small()) != 0 && Head(Small()) !in Small().taken;
  }

  lemma {:induction false} NoneFree(taken: set<nat>, from: nat, n: nat)
    requires from <= n && forall z :: from <= z < n ==> z in taken
    ensures FreeFrom(taken, from, n) == []
    decreases n - from
  {
    if from < n { NoneFree(taken, from + 1, n); }
  }
}

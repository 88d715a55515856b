/** Truncation: which zones it gives back, and what it leaves alone. */
module FsTrunc {
  import opened Numbers
  import opened FsSpec
  import opened FsData

  /** The zones recorded in the first `n` direct places of a file. */
  function DirectZones(fs: Fs, ino: nat, n: nat): set<nat>
    requires Shaped(fs) && ino in fs.inodes && n <= NDIRECT
  {
    set i | 0 <= i < n && ZoneAt(fs, Direct(ino, i)) != 0 :: ZoneAt(fs, Direct(ino, i))
  }

  /** The zones recorded in the first `n` entries of the indirect zone. */
  function EntryZones(fs: Fs, ino: nat, n: nat): set<nat>
    requires Shaped(fs) && ino in fs.inodes && n <= NINDIRECT
  {
    set i | 0 <= i < n && ZoneAt(fs, Entry(ino, i)) != 0 :: ZoneAt(fs, Entry(ino, i))
  }

  /** Every zone a file owns. */
  function ZonesOf(fs: Fs, ino: nat): set<nat>
    requires Shaped(fs) && ino in fs.inodes
  {
    DirectZones(fs, ino, NDIRECT) + EntryZones(fs, ino, NINDIRECT)
    + (if fs.inodes[ino].indirect != 0 then {fs.inodes[ino].indirect} else {})
  }

  lemma ZonesOfAre(fs: Fs, ino: nat, z: nat)
    requires Shaped(fs) && ino in fs.inodes && z != 0
    ensures z in ZonesOf(fs, ino) <==> exists p :: ValidPos(fs, p) && p.ino == ino && ZoneAt(fs, p) == z
  {
    if z in DirectZones(fs, ino, NDIRECT) {
      var i :| 0 <= i < NDIRECT && ZoneAt(fs, Direct(ino, i)) == z;
    } else if z in EntryZones(fs, ino, NINDIRECT) {
      var i :| 0 <= i < NINDIRECT && ZoneAt(fs, Entry(ino, i)) == z;
    } else if z in ZonesOf(fs, ino) {
      assert ZoneAt(fs, Indirect(ino)) == z;
    }
  }

  function Empty(): Inode { Inode([0, 0, 0, 0, 0, 0, 0], 0, 0) }

  function Truncated(fs: Fs, ino: nat): Fs
    requires Shaped(fs) && ino in fs.inodes
  {
    fs.(inodes := fs.inodes[ino := Empty()], taken := fs.taken - ZonesOf(fs, ino))
  }

  /** A zone of another file is none of this one's. */
  lemma NotOurs(fs: Fs, ino: nat, p: Pos)
    requires Inv(fs) && ino in fs.inodes && ValidPos(fs, p) && p.ino != ino && ZoneAt(fs, p) != 0
    ensures ZoneAt(fs, p) !in ZonesOf(fs, ino)
  {
    ZonesOfAre(fs, ino, ZoneAt(fs, p));
  }

  lemma TruncatedZones(fs: Fs, ino: nat)
    requires Inv(fs) && ino in fs.inodes
    ensures Shaped(Truncated(fs, ino))
    ensures forall p :: ValidPos(fs, p) ==> ZoneAt(Truncated(fs, ino), p) == if p.ino == ino then 0 else ZoneAt(fs, p)
  {
  }

  lemma TruncatedOwned(fs: Fs, ino: nat)
    requires Inv(fs) && ino in fs.inodes
    ensures Shaped(Truncated(fs, ino)) && Owned(Truncated(fs, ino)) && NoLeaks(Truncated(fs, ino))
  {
    var fs' := Truncated(fs, ino);
    TruncatedZones(fs, ino);
    forall p | ValidPos(fs', p) && ZoneAt(fs', p) != 0
      ensures ZoneAt(fs', p) in fs'.taken && fs'.first <= ZoneAt(fs', p) < |fs'.zones|
    {
      OwnedZone(fs, p);
      NotOurs(fs, ino, p);
    }
    forall z | z in fs'.taken && fs'.first <= z
      ensures HasOwner(fs', z)
    {
      assert HasOwner(fs, z);
      var p :| ValidPos(fs, p) && ZoneAt(fs, p) == z;
      ZonesOfAre(fs, ino, z);
      assert ZoneAt(fs', p) == z;
    }
  }

  /** `itrunc` empties the file, gives back the zones it owned, all of them marked taken until then, and
      shows in no other file. */
  lemma TruncateKeeps(fs: Fs, ino: nat)
    requires Inv(fs) && ino in fs.inodes
    ensures var fs' := Truncated(fs, ino);
      && Inv(fs') && OthersSame(fs, fs', ino) && File(fs', ino) == []
      && ZonesOf(fs, ino) <= fs.taken && fs'.taken == fs.taken - ZonesOf(fs, ino)
  {
    var fs' := Truncated(fs, ino);
    TruncatedZones(fs, ino);
    TruncatedOwned(fs, ino);
    ZonesTaken(fs, ino);
    hide Owned, NoLeaks, ZonesOf;
    forall j | j in fs'.inodes
      ensures FileFilled(fs', j)
    {
      assert FileFilled(fs, j);
      forall b: nat | b < MAX_BLOCKS && b * BLOCK_SIZE < fs'.inodes[j].size
        ensures BlockOf(fs', j, b) != 0
      {
        assert BlockOf(fs', j, b) == BlockOf(fs, j, b);
      }
    }
    forall j, k: nat | j in fs.inodes && j != ino && k < MAX_BYTES
      ensures ByteAt(fs', j, k) == ByteAt(fs, j, k)
    {
      assert BlockOf(fs', j, k / BLOCK_SIZE) == BlockOf(fs, j, k / BLOCK_SIZE);
    }
    forall j | j in fs.inodes && j != ino
      ensures File(fs', j) == File(fs, j)
    {
      SameFile(fs, fs', j);
    }
  }

  /** `ifree`: an inode that has no zone is taken out of use. */
  function Dropped(fs: Fs, ino: nat): Fs { fs.(inodes := fs.inodes - {ino}) }

  lemma DropKeeps(fs: Fs, ino: nat)
    requires Inv(fs) && ino in fs.inodes && fs.inodes[ino] == Empty()
    ensures Inv(Dropped(fs, ino)) && forall j :: j in fs.inodes && j != ino ==> File(Dropped(fs, ino), j) == File(fs, j)
  {
    var fs' := Dropped(fs, ino);
    assert Shaped(fs') && forall q :: ValidPos(fs', q) ==> ValidPos(fs, q) && ZoneAt(fs', q) == ZoneAt(fs, q);
    DropOwned(fs, ino);
    hide Owned, NoLeaks;
    forall j | j in fs'.inodes
      ensures FileFilled(fs', j)
    {
      assert FileFilled(fs, j);
      assert forall b: nat :: b < MAX_BLOCKS ==> BlockOf(fs', j, b) == BlockOf(fs, j, b);
    }
    assert Inv(fs');
    forall j, k: nat | j in fs'.inodes && k < MAX_BYTES
      ensures ByteAt(fs', j, k) == ByteAt(fs, j, k)
    {
      assert BlockOf(fs', j, k / BLOCK_SIZE) == BlockOf(fs, j, k / BLOCK_SIZE);
    }
    hide ByteAt, Shaped;
    forall j | j in fs.inodes && j != ino
      ensures File(fs', j) == File(fs, j)
    {
      SameFile(fs, fs', j);
    }
  }

  lemma DropOwned(fs: Fs, ino: nat)
    requires Inv(fs) && ino in fs.inodes && fs.inodes[ino] == Empty()
    ensures Shaped(Dropped(fs, ino)) && Owned(Dropped(fs, ino)) && NoLeaks(Dropped(fs, ino))
  {
    var fs' := Dropped(fs, ino);
    forall q | ValidPos(fs', q)
      ensures ValidPos(fs, q) && ZoneAt(fs', q) == ZoneAt(fs, q)
    {
    }
    forall z | z in fs'.taken && fs'.first <= z
      ensures HasOwner(fs', z)
    {
      assert HasOwner(fs, z);
      var p :| ValidPos(fs, p) && ZoneAt(fs, p) == z;
      assert ZoneAt(fs', p) == z;
    }
  }

  lemma ZonesTaken(fs: Fs, ino: nat)
    requires Inv(fs) && ino in fs.inodes
    ensures ZonesOf(fs, ino) <= fs.taken && 0 !in ZonesOf(fs, ino)
  {
    forall z | z in ZonesOf(fs, ino)
      ensures z in fs.taken && z != 0
    {
      if z != 0 { ZonesOfAre(fs, ino, z); }
    }
  }

  /** Freeing the zones of a file one by one never meets a zone that is not allocated. */
  lemma NextDirect(fs: Fs, ino: nat, i: nat)
    requires Inv(fs) && ino in fs.inodes && i < NDIRECT
    ensures var z := ZoneAt(fs, Direct(ino, i));
      && DirectZones(fs, ino, i + 1) == DirectZones(fs, ino, i) + (if z != 0 then {z} else {})
      && (z != 0 ==> z in fs.taken - DirectZones(fs, ino, i) && fs.first <= z < |fs.zones|)
  {
    var z := ZoneAt(fs, Direct(ino, i));
    OwnedZone(fs, Direct(ino, i));
    forall j | 0 <= j < i && z != 0
      ensures ZoneAt(fs, Direct(ino, j)) != z
    {
      assert Direct(ino, j) != Direct(ino, i);
    }
  }

  lemma NextEntry(fs: Fs, ino: nat, i: nat)
    requires Inv(fs) && ino in fs.inodes && i < NINDIRECT
    ensures var z := ZoneAt(fs, Entry(ino, i));
      && EntryZones(fs, ino, i + 1) == EntryZones(fs, ino, i) + (if z != 0 then {z} else {})
      && (z != 0 ==> z in fs.taken - DirectZones(fs, ino, NDIRECT) - EntryZones(fs, ino, i)
                     && fs.first <= z < |fs.zones|)
  {
    var z := ZoneAt(fs, Entry(ino, i));
    OwnedZone(fs, Entry(ino, i));
    forall j | 0 <= j < i && z != 0
      ensures ZoneAt(fs, Entry(ino, j)) != z
    {
      assert Entry(ino, j) != Entry(ino, i);
    }
    forall j | 0 <= j < NDIRECT && z != 0
      ensures ZoneAt(fs, Direct(ino, j)) != z
    {
      assert Direct(ino, j) != Entry(ino, i);
    }
  }

  lemma LastIndirect(fs: Fs, ino: nat)
    requires Inv(fs) && ino in fs.inodes && fs.inodes[ino].indirect != 0
    ensures var z := fs.inodes[ino].indirect;
      z in fs.taken - DirectZones(fs, ino, NDIRECT) - EntryZones(fs, ino, NINDIRECT) && fs.first <= z < |fs.zones|
  {
    var z := fs.inodes[ino].indirect;
    assert z == ZoneAt(fs, Indirect(ino));
    OwnedZone(fs, Indirect(ino));
    forall j | 0 <= j < NINDIRECT
      ensures ZoneAt(fs, Entry(ino, j)) != z
    {
      assert Entry(ino, j) != Indirect(ino);
    }
    forall j | 0 <= j < NDIRECT
      ensures ZoneAt(fs, Direct(ino, j)) != z
    {
      assert Direct(ino, j) != Indirect(ino);
    }
  }
}

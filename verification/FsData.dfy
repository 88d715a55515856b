/** Writing into files and truncating them, on the abstract file system. */
module FsData {
  import opened Numbers
  import opened FsSpec

  /** The contents after `s` has been written at `offset`, extending the file when it reaches past the end. */
  function Overwrite(f: seq<Byte>, offset: nat, s: seq<Byte>): seq<Byte>
    requires offset <= |f|
  {
    f[..offset] + s + f[Min(offset + |s|, |f|)..]
  }

  lemma OverwriteAt(f: seq<Byte>, offset: nat, s: seq<Byte>, k: nat)
    requires offset <= |f|
    ensures |Overwrite(f, offset, s)| == if offset + |s| > |f| then offset + |s| else |f|
    ensures k < |Overwrite(f, offset, s)| ==>
              Overwrite(f, offset, s)[k] == if offset <= k < offset + |s| then s[k - offset] else f[k]
  {
  }

  function PutBlock(fs: Fs, z: nat, b: Block): Fs
    requires z < |fs.zones|
  {
    fs.(zones := fs.zones[z := b])
  }

  /** Part of a block replaced. */
  function Overlay(b: Block, off: nat, s: seq<Byte>): (r: Block)
    requires off + |s| <= |b|
    ensures |r| == |b|
    ensures forall i :: 0 <= i < |b| ==> r[i] == if off <= i < off + |s| then s[i - off] else b[i]
  {
    b[..off] + s + b[off + |s|..]
  }

  /** Replacing the contents of a data zone changes that block of its one owner and nothing else. */
  lemma PutData(fs: Fs, ino: nat, b: nat, blk: Block)
    requires Inv(fs) && ino in fs.inodes && b < MAX_BLOCKS && BlockOf(fs, ino, b) != 0 && |blk| == BLOCK_SIZE
    ensures BlockOf(fs, ino, b) < |fs.zones|
    ensures var fs' := PutBlock(fs, BlockOf(fs, ino, b), blk);
      && Inv(fs') && (forall q :: ValidPos(fs, q) ==> ZoneAt(fs', q) == ZoneAt(fs, q))
      && forall j: nat, k: nat :: j in fs.inodes && k < MAX_BLOCKS * BLOCK_SIZE ==>
           ByteAt(fs', j, k) == if j == ino && k / BLOCK_SIZE == b then blk[k % BLOCK_SIZE] else ByteAt(fs, j, k)
  {
    var p := PosOf(ino, b);
    OwnedZone(fs, p);
    var fs' := PutBlock(fs, ZoneAt(fs, p), blk);
    PutKeepsZones(fs, p, blk);
    forall j: nat, k: nat | j in fs.inodes && k < MAX_BLOCKS * BLOCK_SIZE
      ensures ByteAt(fs', j, k) == if j == ino && k / BLOCK_SIZE == b then blk[k % BLOCK_SIZE] else ByteAt(fs, j, k)
    {
      assert ZoneAt(fs', PosOf(j, k / BLOCK_SIZE)) == ZoneAt(fs, PosOf(j, k / BLOCK_SIZE));
    }
  }

  lemma PutKeepsZones(fs: Fs, p: Pos, blk: Block)
    requires Inv(fs) && ValidPos(fs, p) && !p.Indirect? && ZoneAt(fs, p) != 0 && |blk| == BLOCK_SIZE
    ensures ZoneAt(fs, p) < |fs.zones|
    ensures var fs' := PutBlock(fs, ZoneAt(fs, p), blk);
      Inv(fs') && forall q :: ValidPos(fs, q) ==> ZoneAt(fs', q) == ZoneAt(fs, q)
  {
    OwnedZone(fs, p);
    var fs' := PutBlock(fs, ZoneAt(fs, p), blk);
    assert Shaped(fs');
    forall q | ValidPos(fs, q)
      ensures ZoneAt(fs', q) == ZoneAt(fs, q)
    {
      assert ZoneAt(fs, Indirect(q.ino)) == fs.inodes[q.ino].indirect;
    }
    SameOwners(fs, fs');
    hide Owned, NoLeaks;
    forall ino | ino in fs'.inodes
      ensures FileFilled(fs', ino)
    {
      assert FileFilled(fs, ino);
      forall b: nat | b < MAX_BLOCKS && b * BLOCK_SIZE < fs'.inodes[ino].size
        ensures BlockOf(fs', ino, b) != 0
      {
        assert BlockOf(fs, ino, b) != 0;
      }
    }
  }

  /** Ownership depends on the zone numbers alone. */
  lemma SameOwners(fs: Fs, fs': Fs)
    requires Shaped(fs) && Shaped(fs') && fs'.inodes.Keys == fs.inodes.Keys && fs'.taken == fs.taken
        && fs'.first == fs.first
    requires |fs'.zones| == |fs.zones| && forall q :: ValidPos(fs, q) ==> ZoneAt(fs', q) == ZoneAt(fs, q)
    ensures Owned(fs) ==> Owned(fs')
    ensures NoLeaks(fs) ==> NoLeaks(fs')
  {
    if NoLeaks(fs) {
      forall y | y in fs'.taken && fs'.first <= y
        ensures HasOwner(fs', y)
      {
        assert HasOwner(fs, y);
        var q :| ValidPos(fs, q) && ZoneAt(fs, q) == y;
        assert ZoneAt(fs', q) == y;
      }
    }
  }

  // ------------------------------------------------------------------ a write in progress

  const MAX_BYTES := MAX_BLOCKS * BLOCK_SIZE

  /** Byte `k` of the file lies in a block that is there. */
  predicate Mapped(fs: Fs, ino: nat, k: nat)
    requires Shaped(fs) && ino in fs.inodes && k < MAX_BYTES
  {
    BlockOf(fs, ino, k / BLOCK_SIZE) != 0
  }

  ghost predicate OthersSame(fs: Fs, fs': Fs, ino: nat)
    requires Inv(fs) && Inv(fs') && fs'.inodes.Keys == fs.inodes.Keys
  {
    forall j :: j in fs.inodes && j != ino ==> File(fs', j) == File(fs, j)
  }

  /** Byte `k` after `seg` has been put at `m`: written, or what it was. */
  ghost predicate TurnByte(fs: Fs, fs': Fs, ino: nat, m: nat, seg: seq<Byte>, k: nat)
    requires Shaped(fs) && Shaped(fs') && ino in fs.inodes && ino in fs'.inodes && k < MAX_BYTES
  {
    if m <= k < m + |seg| then Mapped(fs', ino, k) && ByteAt(fs', ino, k) == seg[k - m]
    else Mapped(fs, ino, k) ==> Mapped(fs', ino, k) && ByteAt(fs', ino, k) == ByteAt(fs, ino, k)
  }

  /** `fs'` differs from `fs` by `seg` at position `m` of file `ino`; no size and no other file changes. */
  ghost predicate Turn(fs: Fs, fs': Fs, ino: nat, m: nat, seg: seq<Byte>)
    requires Inv(fs) && ino in fs.inodes
  {
    && Inv(fs') && fs'.inodes.Keys == fs.inodes.Keys && fs'.inodes[ino].size == fs.inodes[ino].size
    && m + |seg| <= MAX_BYTES && OthersSame(fs, fs', ino)
    && (forall k: nat :: k < MAX_BYTES ==> TurnByte(fs, fs', ino, m, seg, k))
  }

  lemma TurnNothing(fs: Fs, ino: nat, m: nat)
    requires Inv(fs) && ino in fs.inodes && m <= MAX_BYTES
    ensures Turn(fs, fs, ino, m, [])
  {
  }

  /** Turns at adjoining positions make one turn. */
  lemma TurnTwice(fs0: Fs, fs: Fs, fs': Fs, ino: nat, orig: nat, s: seq<Byte>, seg: seq<Byte>)
    requires Inv(fs0) && ino in fs0.inodes && Turn(fs0, fs, ino, orig, s)
    requires Turn(fs, fs', ino, orig + |s|, seg)
    ensures Turn(fs0, fs', ino, orig, s + seg)
  {
    assert Shaped(fs0) && Shaped(fs) && Shaped(fs');
    hide Inv, Shaped, File, TurnByte;
    forall k: nat | k < MAX_BYTES
      ensures TurnByte(fs0, fs', ino, orig, s + seg, k)
    {
      assert TurnByte(fs0, fs, ino, orig, s, k) && TurnByte(fs, fs', ino, orig + |s|, seg, k);
      TurnByteTwice(fs0, fs, fs', ino, orig, s, seg, k);
    }
  }

  lemma TurnByteTwice(fs0: Fs, fs: Fs, fs': Fs, ino: nat, orig: nat, s: seq<Byte>, seg: seq<Byte>, k: nat)
    requires Shaped(fs0) && Shaped(fs) && Shaped(fs') && ino in fs0.inodes && ino in fs.inodes && ino in fs'.inodes
        && k < MAX_BYTES
    requires TurnByte(fs0, fs, ino, orig, s, k) && TurnByte(fs, fs', ino, orig + |s|, seg, k)
    ensures TurnByte(fs0, fs', ino, orig, s + seg, k)
  {
    hide Shaped, Mapped, ByteAt;
  }

  lemma SameFile(fs: Fs, fs': Fs, j: nat)
    requires Inv(fs) && Inv(fs') && j in fs.inodes && j in fs'.inodes && fs'.inodes[j].size == fs.inodes[j].size
    requires forall k: nat :: k < MAX_BLOCKS * BLOCK_SIZE ==> ByteAt(fs', j, k) == ByteAt(fs, j, k)
    ensures File(fs', j) == File(fs, j)
  {
    assert FileFilled(fs, j);
  }

  /** What growth leaves alone in the file itself. */
  lemma GrowthTurn(fs: Fs, fs': Fs, ino: nat, m: nat)
    requires Inv(fs) && Inv(fs') && ino in fs.inodes && Extends(fs, fs') && m <= MAX_BYTES
    ensures Turn(fs, fs', ino, m, [])
  {
    forall j | j in fs.inodes && j != ino
      ensures File(fs', j) == File(fs, j)
    {
      ExtendsFile(fs, fs', j);
    }
    forall k: nat | k < MAX_BYTES
      ensures TurnByte(fs, fs', ino, m, [], k)
    {
      OwnedZone(fs, PosOf(ino, k / BLOCK_SIZE));
    }
  }

  /** Putting a segment into one block is a turn. */
  lemma PutTurn(fs: Fs, ino: nat, m: nat, seg: seq<Byte>)
    requires Inv(fs) && ino in fs.inodes && m < MAX_BYTES && m % BLOCK_SIZE + |seg| <= BLOCK_SIZE && Mapped(fs, ino, m)
    ensures BlockOf(fs, ino, m / BLOCK_SIZE) < |fs.zones|
    ensures var z := BlockOf(fs, ino, m / BLOCK_SIZE);
            Turn(fs, PutBlock(fs, z, Overlay(fs.zones[z], m % BLOCK_SIZE, seg)), ino, m, seg)
  {
    var b, off := m / BLOCK_SIZE, m % BLOCK_SIZE;
    OwnedZone(fs, PosOf(ino, b));
    var z := BlockOf(fs, ino, b);
    var blk := Overlay(fs.zones[z], off, seg);
    var fs' := PutBlock(fs, z, blk);
    PutData(fs, ino, b, blk);
    hide Owned, NoLeaks, Filled;
    forall j | j in fs.inodes && j != ino
      ensures File(fs', j) == File(fs, j)
    {
      SameFile(fs, fs', j);
    }
    forall k: nat | k < MAX_BYTES
      ensures TurnByte(fs, fs', ino, m, seg, k)
    {
      assert ZoneAt(fs', PosOf(ino, k / BLOCK_SIZE)) == ZoneAt(fs, PosOf(ino, k / BLOCK_SIZE));
      PutTurnByte(fs, fs', ino, m, seg, blk, k);
    }
  }

  lemma PutTurnByte(fs: Fs, fs': Fs, ino: nat, m: nat, seg: seq<Byte>, blk: Block, k: nat)
    requires Shaped(fs) && Shaped(fs') && ino in fs.inodes && ino in fs'.inodes && k < MAX_BYTES && m < MAX_BYTES
    requires m % BLOCK_SIZE + |seg| <= BLOCK_SIZE && Mapped(fs, ino, m) && |blk| == BLOCK_SIZE
    requires BlockOf(fs, ino, m / BLOCK_SIZE) < |fs.zones|
        && blk == Overlay(fs.zones[BlockOf(fs, ino, m / BLOCK_SIZE)], m % BLOCK_SIZE, seg)
    requires Mapped(fs', ino, k) == Mapped(fs, ino, k)
    requires ByteAt(fs', ino, k) == if k / BLOCK_SIZE == m / BLOCK_SIZE then blk[k % BLOCK_SIZE] else ByteAt(fs, ino, k)
    ensures TurnByte(fs, fs', ino, m, seg, k)
  {
    hide Shaped, ZoneAt;
    SegmentByte(m, |seg|, k);
  }

  /** A segment inside one block, seen from byte `k`. */
  lemma SegmentByte(m: nat, n: nat, k: nat)
    requires m % BLOCK_SIZE + n <= BLOCK_SIZE
    ensures m <= k < m + n ==> k / BLOCK_SIZE == m / BLOCK_SIZE && k % BLOCK_SIZE == m % BLOCK_SIZE + (k - m)
    ensures k / BLOCK_SIZE == m / BLOCK_SIZE ==>
              (m % BLOCK_SIZE <= k % BLOCK_SIZE < m % BLOCK_SIZE + n <==> m <= k < m + n)
  {
  }

  // ------------------------------------------------------------------ zones enough

  /** Blocks of the file missing in `[lo, hi)`. */
  function Unmapped(fs: Fs, ino: nat, lo: nat, hi: nat): (n: nat)
    requires Shaped(fs) && ino in fs.inodes && lo <= hi <= MAX_BLOCKS
    ensures n <= hi - lo
    decreases hi - lo
  {
    if lo == hi then 0 else (if BlockOf(fs, ino, lo) == 0 then 1 else 0) + Unmapped(fs, ino, lo + 1, hi)
  }

  predicate NeedsIndirect(fs: Fs, ino: nat, hi: nat)
    requires ino in fs.inodes
  {
    hi > NDIRECT && fs.inodes[ino].indirect == 0
  }

  function FirstEntry(lo: nat): nat { if lo < NDIRECT then NDIRECT else lo }

  /** Blocks `[lo, hi)` can be written: there are zones enough, and the one that will become the
      indirect block, the one handed out after the missing direct blocks, reads as zeros. */
  ghost predicate Ready(fs: Fs, ino: nat, lo: nat, hi: nat)
    requires Shaped(fs) && ino in fs.inodes && lo <= hi <= MAX_BLOCKS
  {
    && Unmapped(fs, ino, lo, hi) + (if NeedsIndirect(fs, ino, hi) then 1 else 0) <= |Free(fs)|
    && (lo < hi && NeedsIndirect(fs, ino, hi) ==>
          var u := Unmapped(fs, ino, lo, FirstEntry(lo)); u < |Free(fs)| && Zeroed(fs.zones[Free(fs)[u]]))
  }

  /** The next block can be reached. */
  predicate Reachable(fs: Fs, ino: nat, b: nat)
    requires Shaped(fs) && ino in fs.inodes && b < MAX_BLOCKS
  {
    Enough(fs, ino, b) && Clean(fs, ino, b)
  }

  lemma ReadyNow(fs: Fs, ino: nat, b: nat, hi: nat)
    requires Inv(fs) && ino in fs.inodes && b < hi <= MAX_BLOCKS
    ensures Ready(fs, ino, b, hi) ==> Reachable(fs, ino, b)
    ensures hi == b + 1 && Reachable(fs, ino, b) ==> Ready(fs, ino, b, hi)
  {
  }

  lemma {:induction false} UnmappedSame(fs: Fs, fs': Fs, ino: nat, lo: nat, hi: nat)
    requires Shaped(fs) && Shaped(fs') && ino in fs.inodes && ino in fs'.inodes && lo <= hi <= MAX_BLOCKS
    requires forall b: nat :: lo <= b < hi ==> BlockOf(fs', ino, b) == BlockOf(fs, ino, b)
    ensures Unmapped(fs', ino, lo, hi) == Unmapped(fs, ino, lo, hi)
    decreases hi - lo
  {
    if lo < hi { UnmappedSame(fs, fs', ino, lo + 1, hi); }
  }

  /** After block `b` has been reached and its contents replaced, the rest is ready exactly if all was. */
  lemma ReadyNext(fs: Fs, fs1: Fs, fs2: Fs, ino: nat, b: nat, hi: nat, blk: Block)
    requires Inv(fs) && ino in fs.inodes && b < hi <= MAX_BLOCKS && Reachable(fs, ino, b)
    requires Inv(fs1) && Grown(fs, fs1, ino, b) && BlockOf(fs1, ino, b) != 0 && (b < NDIRECT ==> fs1.zones == fs.zones)
    requires BlockOf(fs1, ino, b) < |fs1.zones| && |blk| == BLOCK_SIZE
    requires fs2 == PutBlock(fs1, BlockOf(fs1, ino, b), blk) && Inv(fs2)
    ensures b + 1 < hi ==> (Ready(fs2, ino, b + 1, hi) <==> Ready(fs, ino, b, hi))
  {
    PutData(fs1, ino, b, blk);
    OwnedZone(fs1, PosOf(ino, b));
    forall c: nat | b < c < MAX_BLOCKS
      ensures BlockOf(fs2, ino, c) == BlockOf(fs, ino, c)
    {
      assert ZoneAt(fs2, PosOf(ino, c)) == ZoneAt(fs1, PosOf(ino, c)) == ZoneAt(fs, PosOf(ino, c));
    }
    assert Free(fs2) == Free(fs)[Missing(fs, ino, b)..];
    forall i | 0 <= i < |Free(fs2)|
      ensures b < NDIRECT ==> fs2.zones[Free(fs2)[i]] == fs.zones[Free(fs2)[i]]
    {
      FreeNotTaken(fs1, i);
    }
    hide Owned, NoLeaks, Filled, Extends, Free, FileFilled;
    if b + 1 < hi { ReadyRest(fs, fs2, ino, b, hi); }
  }

  lemma ReadyRest(fs: Fs, fs2: Fs, ino: nat, b: nat, hi: nat)
    requires Shaped(fs) && Shaped(fs2) && ino in fs.inodes && ino in fs2.inodes && b + 1 < hi <= MAX_BLOCKS
    requires Reachable(fs, ino, b) && Free(fs2) == Free(fs)[Missing(fs, ino, b)..]
    requires forall c: nat :: b < c < MAX_BLOCKS ==> BlockOf(fs2, ino, c) == BlockOf(fs, ino, c)
    requires if b < NDIRECT then fs2.inodes[ino].indirect == fs.inodes[ino].indirect else fs2.inodes[ino].indirect != 0
    requires |fs2.zones| == |fs.zones|
    requires forall i :: 0 <= i < |Free(fs2)| ==> Free(fs2)[i] < |fs.zones|
    requires forall i :: 0 <= i < |Free(fs2)| && b < NDIRECT && Free(fs2)[i] < |fs.zones| ==>
        fs2.zones[Free(fs2)[i]] == fs.zones[Free(fs2)[i]]
    ensures Ready(fs2, ino, b + 1, hi) <==> Ready(fs, ino, b, hi)
  {
    hide Shaped, Free, BlockOf;
    UnmappedSame(fs, fs2, ino, b + 1, hi);
    if b < NDIRECT && NeedsIndirect(fs, ino, hi) {
      var u, m := Unmapped(fs, ino, b, NDIRECT), Missing(fs, ino, b);
      UnmappedSame(fs, fs2, ino, b + 1, NDIRECT);
      assert u - m == Unmapped(fs2, ino, b + 1, NDIRECT);
      assert u < |Free(fs)| ==> Free(fs2)[u - m] == Free(fs)[u];
    }
  }

  lemma FreeNotTaken(fs: Fs, i: nat)
    requires Shaped(fs) && i < |Free(fs)|
    ensures Free(fs)[i] !in fs.taken && Free(fs)[i] < |fs.zones|
  {
  }

  // ------------------------------------------------------------------ the end of a write

  function SetSize(fs: Fs, ino: nat, size: nat): Fs
    requires ino in fs.inodes
  {
    fs.(inodes := fs.inodes[ino := fs.inodes[ino].(size := size)])
  }

  /** Recording the new size of a file all of whose blocks are there. */
  lemma SetSizeInv(fs: Fs, ino: nat, size: nat)
    requires Inv(fs) && ino in fs.inodes && size <= MAX_BYTES
    requires forall b: nat :: b < MAX_BLOCKS && b * BLOCK_SIZE < size ==> BlockOf(fs, ino, b) != 0
    ensures var fs' := SetSize(fs, ino, size);
      && Inv(fs') && OthersSame(fs, fs', ino)
      && forall k: nat :: k < size ==> File(fs', ino)[k] == ByteAt(fs, ino, k)
  {
    var fs' := SetSize(fs, ino, size);
    assert forall q :: ValidPos(fs', q) ==> ValidPos(fs, q) && ZoneAt(fs', q) == ZoneAt(fs, q);
    SameOwners(fs, fs');
    hide Owned, NoLeaks;
    forall j | j in fs'.inodes
      ensures FileFilled(fs', j)
    {
      assert FileFilled(fs, j);
      forall b: nat | b < MAX_BLOCKS && b * BLOCK_SIZE < fs'.inodes[j].size
        ensures BlockOf(fs', j, b) != 0
      {
        assert BlockOf(fs', j, b) == BlockOf(fs, j, b);
      }
    }
    forall j, k: nat | j in fs.inodes && k < MAX_BYTES
      ensures ByteAt(fs', j, k) == ByteAt(fs, j, k)
    {
      assert BlockOf(fs', j, k / BLOCK_SIZE) == BlockOf(fs, j, k / BLOCK_SIZE);
    }
    forall j | j in fs.inodes && j != ino
      ensures File(fs', j) == File(fs, j)
    {
      SameFile(fs, fs', j);
    }
  }

  function NewSize(size: nat, end: nat): nat { if end > size then end else size }

  /** A byte below the size is there, and is that byte of the contents. */
  lemma ByteOfFile(fs: Fs, ino: nat, k: nat)
    requires Inv(fs) && ino in fs.inodes && k < fs.inodes[ino].size
    ensures k < MAX_BYTES && fs.inodes[ino].size <= MAX_BYTES && Mapped(fs, ino, k)
        && File(fs, ino)[k] == ByteAt(fs, ino, k)
  {
    assert FileFilled(fs, ino);
    assert BlockOf(fs, ino, k / BLOCK_SIZE) != 0;
  }

  lemma SizeFits(fs: Fs, ino: nat)
    requires Inv(fs) && ino in fs.inodes
    ensures fs.inodes[ino].size <= MAX_BYTES
  {
    assert FileFilled(fs, ino);
  }

  lemma TurnAt(fs0: Fs, fs: Fs, ino: nat, orig: nat, s: seq<Byte>, k: nat)
    requires Inv(fs0) && ino in fs0.inodes && Turn(fs0, fs, ino, orig, s) && k < MAX_BYTES
    ensures Inv(fs) && ino in fs.inodes && TurnByte(fs0, fs, ino, orig, s, k) && orig + |s| <= MAX_BYTES
  {
  }

  /** After the write every byte below the new size is there and is what overwriting makes it. */
  lemma WriteByte(fs0: Fs, fs: Fs, ino: nat, orig: nat, s: seq<Byte>, k: nat)
    requires Inv(fs0) && ino in fs0.inodes && orig <= fs0.inodes[ino].size && Turn(fs0, fs, ino, orig, s)
    requires k < NewSize(fs0.inodes[ino].size, orig + |s|)
    ensures k < MAX_BYTES && Inv(fs) && ino in fs.inodes && Mapped(fs, ino, k)
    ensures ByteAt(fs, ino, k) == Overwrite(File(fs0, ino), orig, s)[k]
  {
    SizeFits(fs0, ino);
    if k < fs0.inodes[ino].size { ByteOfFile(fs0, ino, k); }
    TurnAt(fs0, fs, ino, orig, s, 0);
    TurnAt(fs0, fs, ino, orig, s, k);
    OverwriteAt(File(fs0, ino), orig, s, k);
    hide Overwrite, Turn, ByteAt, Mapped, Owned, NoLeaks, Filled, Shaped;
  }

  lemma WriteMapped(fs0: Fs, fs: Fs, ino: nat, orig: nat, s: seq<Byte>, b: nat)
    requires Inv(fs0) && ino in fs0.inodes && orig <= fs0.inodes[ino].size && Turn(fs0, fs, ino, orig, s)
    requires b < MAX_BLOCKS && b * BLOCK_SIZE < NewSize(fs0.inodes[ino].size, orig + |s|)
    ensures Inv(fs) && ino in fs.inodes && BlockOf(fs, ino, b) != 0
  {
    hide Inv, Turn, Overwrite;
    WriteByte(fs0, fs, ino, orig, s, b * BLOCK_SIZE);
    assert b * BLOCK_SIZE / BLOCK_SIZE == b;
  }

  lemma WriteFits(fs0: Fs, fs: Fs, ino: nat, orig: nat, s: seq<Byte>)
    requires Inv(fs0) && ino in fs0.inodes && Turn(fs0, fs, ino, orig, s)
    ensures Inv(fs) && ino in fs.inodes && NewSize(fs0.inodes[ino].size, orig + |s|) <= MAX_BYTES
    ensures fs.inodes.Keys == fs0.inodes.Keys && OthersSame(fs0, fs, ino)
  {
    SizeFits(fs0, ino);
  }

  /** A write that reached its end: exactly the bytes `[orig, orig + |s|)` of that file were replaced or added. */
  lemma WriteDone(fs0: Fs, fs: Fs, fs': Fs, ino: nat, orig: nat, s: seq<Byte>)
    requires Inv(fs0) && ino in fs0.inodes && orig <= fs0.inodes[ino].size && Turn(fs0, fs, ino, orig, s)
    requires fs' == SetSize(fs, ino, NewSize(fs0.inodes[ino].size, orig + |s|))
    ensures Inv(fs') && OthersSame(fs0, fs', ino)
    ensures File(fs', ino) == Overwrite(File(fs0, ino), orig, s)
  {
    var size := NewSize(fs0.inodes[ino].size, orig + |s|);
    WriteFits(fs0, fs, ino, orig, s);
    hide Turn, Owned, NoLeaks, Filled, Overwrite, ZoneAt, NewSize;
    forall b: nat | b < MAX_BLOCKS && b * BLOCK_SIZE < size
      ensures BlockOf(fs, ino, b) != 0
    {
      WriteMapped(fs0, fs, ino, orig, s, b);
    }
    SetSizeInv(fs, ino, size);
    WrittenFile(fs0, fs, fs', ino, orig, s);
  }

  lemma WrittenFile(fs0: Fs, fs: Fs, fs': Fs, ino: nat, orig: nat, s: seq<Byte>)
    requires Inv(fs0) && ino in fs0.inodes && orig <= fs0.inodes[ino].size && Turn(fs0, fs, ino, orig, s)
    requires Inv(fs') && ino in fs'.inodes
        && fs'.inodes[ino].size == NewSize(fs0.inodes[ino].size, orig + |s|) <= MAX_BYTES
    requires forall k: nat :: k < fs'.inodes[ino].size ==> File(fs', ino)[k] == ByteAt(fs, ino, k)
    ensures File(fs', ino) == Overwrite(File(fs0, ino), orig, s)
  {
    var f, f' := Overwrite(File(fs0, ino), orig, s), File(fs', ino);
    OverwriteAt(File(fs0, ino), orig, s, 0);
    hide Inv, Turn, Overwrite, ByteAt;
    forall k | 0 <= k < |f'|
      ensures f'[k] == f[k]
    {
      WriteByte(fs0, fs, ino, orig, s, k);
    }
  }
}

/** The block loops of the file system over one device: `bmap`, `readi`, `writei` and `itrunc`. */
module FileSystem {
  import opened Numbers
  import opened FsSpec
  import opened FsData
  import opened FsSteps
  import opened FsTrunc

  /** What a read comes back with: the bytes copied and the number returned, an error, or nothing to be
      relied on, once the loop has left the file. */
  datatype ReadResult = Bytes(data: seq<Byte>, ret: int) | Einval | Astray

  /** How a write ends: all is written; or the loop comes to a block for which no zone is left, and writes
      over block 0, or adopts a stale zone; or it goes past the blocks that `bmap` knows. */
  datatype WriteResult = Written(ret: nat) | Spoiled | Panic

  /** The zones suffice for each block of the write, and none that is adopted is stale. */
  ghost predicate AllReady(fs: Fs, ino: nat, offset: nat, n: nat)
    requires Shaped(fs) && ino in fs.inodes
  {
    First(offset) < Last(offset, n) ==> Ready(fs, ino, First(offset), Last(offset, n))
  }

  ghost function Outcome(fs: Fs, ino: nat, offset: nat, n: nat): WriteResult
    requires Shaped(fs) && ino in fs.inodes
  {
    if !AllReady(fs, ino, offset, n) then Spoiled else if n > 0 && offset + n > MAX_BYTES then Panic else Written(n)
  }

  /** A 32-bit word read as a signed number. */
  function Signed(u: nat): int
    requires u < 0x1_0000_0000
  {
    if u < 0x8000_0000 then u else u - 0x1_0000_0000
  }

  /** The count after the clamp of `readi`, whose end of the read is a signed 32-bit sum. */
  function Clamped(size: nat, offset: int, nbytes: nat): nat
    requires -0x8000_0000 <= offset <= size < 0x8000_0000 && nbytes < 0x1_0000_0000
  {
    if Signed((offset + nbytes) % 0x1_0000_0000) > size then size - offset else nbytes
  }

  /** What `readi` gives on a file with contents `f`. */
  function ReadFrom(f: seq<Byte>, offset: int, nbytes: nat): ReadResult
    requires |f| < 0x8000_0000 && -0x8000_0000 <= offset < 0x8000_0000 && nbytes < 0x1_0000_0000
  {
    if offset > |f| then Einval
    else
      var n := Signed(Clamped(|f|, offset, nbytes));
      if n <= 0 then Bytes([], n)
      else if 0 <= offset && offset + n <= |f| then Bytes(f[offset..offset + n], n)
      else Astray
  }

  class FileSystem {
    var zones: seq<Block>
    var taken: set<nat>
    const first: nat
    var inodes: map<nat, Inode>

    function Now(): Fs
      reads this
    {
      Fs(zones, taken, first, inodes)
    }

    constructor (fs: Fs)
      ensures Now() == fs
    {
      zones, taken, first, inodes := fs.zones, fs.taken, fs.first, fs.inodes;
    }

    /** `balloc`: the first free zone, 0 when there is none. */
    method Balloc() returns (z: nat)
      requires Shaped(Now())
      modifies this`taken
      ensures z == Head(old(Now()))
      ensures Now() == if z == 0 then old(Now()) else old(Now()).(taken := old(taken) + {z})
    {
      z := first;
      while z < |zones|
        invariant first <= z <= |zones|
        invariant Free(Now()) == FreeFrom(taken, z, |zones|)
      {
        if z !in taken {
          taken := taken + {z};
          return z;
        }
        z := z + 1;
      }
      z := 0;
    }

    /** `bfree`: its panics, on a zone that is not one of the device or not allocated, are excluded. */
    method Bfree(z: nat)
      requires z in taken && first <= z < |zones|
      modifies this`taken
      ensures taken == old(taken) - {z}
    {
      taken := taken - {z};
    }

    method Bmap(ino: nat, b: nat, write: bool) returns (z: nat)
      requires Shaped(Now()) && ino in inodes && b < MAX_BLOCKS
      modifies this
      ensures (Now(), z) == FsSpec.Bmap(old(Now()), ino, b, write)
    {
      if b < NDIRECT {
        if write && inodes[ino].direct[b] == 0 {
          z := Balloc();
          ghost var n := inodes[ino];
          inodes := inodes[ino := inodes[ino].(direct := inodes[ino].direct[b := z])];
          assert z == 0 ==> n.direct[b := z] == n.direct && inodes == old(inodes);
        }
        z := inodes[ino].direct[b];
      } else {
        if write && inodes[ino].indirect == 0 {
          z := Balloc();
          assert inodes[ino := inodes[ino].(indirect := 0)] == inodes;
          inodes := inodes[ino := inodes[ino].(indirect := z)];
        }
        z := 0;
        if inodes[ino].indirect != 0 {
          z := EntryOf(ino, b - NDIRECT);
        }
      }
    }

    /** The indirect part of `bmap`, on a file that has its indirect zone. */
    method EntryOf(ino: nat, i: nat) returns (z: nat)
      requires Shaped(Now()) && ino in inodes && i < NINDIRECT && inodes[ino].indirect != 0
      modifies this`zones, this`taken
      ensures (Now(), z) == FsSpec.Bmap(old(Now()), ino, NDIRECT + i, false)
    {
      var t := inodes[ino].indirect;
      z := Word(zones[t], i);
      assert z == ZoneAt(Now(), Entry(ino, i));
      if z == 0 {
        z := Balloc();
        if z == 0 {
          PutZero(zones[t], i);
          assert zones[t := zones[t]] == zones;
        }
        zones := zones[t := PutWord(zones[t], i, z)];
      }
    }

    /** `readi` on a file or directory, for any `long` and any `size_t`. */
    method Readi(ino: nat, offset: int, nbytes: nat) returns (r: ReadResult)
      requires Inv(Now()) && ino in inodes && -0x8000_0000 <= offset < 0x8000_0000 && nbytes < 0x1_0000_0000
      modifies this
      ensures Now() == old(Now()) && |File(Now(), ino)| < 0x8000_0000 && r == ReadFrom(File(Now(), ino), offset, nbytes)
    {
      SizeFits(Now(), ino);
      hide Owned, NoLeaks, Filled, ZoneAt;
      var size := inodes[ino].size;
      if offset > size {
        return Einval;
      }
      var end := Signed((offset + nbytes) % 0x1_0000_0000);
      var count := nbytes;
      if end > size {
        count := size - offset;
      }
      var remaining := Signed(count);
      if remaining <= 0 {
        return Bytes([], remaining);
      }
      if offset < 0 {
        return Astray;
      }
      r := ReadLoop(ino, offset, remaining);
    }

    /** The block loop of `readi`. */
    method ReadLoop(ino: nat, offset: nat, count: nat) returns (r: ReadResult)
      requires Inv(Now()) && ino in inodes && offset <= inodes[ino].size && 0 < count
      modifies this
      ensures Now() == old(Now())
      ensures var f := File(Now(), ino);
        r == if offset + count <= |f| then Bytes(f[offset..offset + count], count) else Astray
    {
      hide Owned, NoLeaks, Filled, ZoneAt;
      ghost var f := File(Now(), ino);
      var remaining: nat := count;
      var bindex, off := offset / BLOCK_SIZE, offset % BLOCK_SIZE;
      var dst := [];
      while remaining > 0
        invariant Now() == old(Now()) && |dst| + remaining == count && offset + |dst| <= |f|
        invariant remaining > 0 ==> bindex == (offset + |dst|) / BLOCK_SIZE && off == (offset + |dst|) % BLOCK_SIZE
        invariant dst == f[offset..offset + |dst|]
      {
        NextSegment(offset + |dst|, remaining);
        var n := Min(BLOCK_SIZE - off, remaining);
        if offset + |dst| + n > inodes[ino].size {
          return Astray;
        }
        var seg := ReadSegment(ino, offset + |dst|, bindex, off, n);
        Adjoin(f, offset, dst, seg);
        dst := dst + seg;
        off := 0;
        remaining := remaining - n;
        bindex := bindex + 1;
      }
      r := Bytes(dst, count);
    }

    /** The body of the block loop of `readi`. */
    method ReadSegment(ino: nat, ghost m: nat, bindex: nat, off: nat, n: nat) returns (seg: seq<Byte>)
      requires Inv(Now()) && ino in inodes && 0 < n && m + n <= inodes[ino].size
      requires bindex == m / BLOCK_SIZE && off == m % BLOCK_SIZE && off + n <= BLOCK_SIZE
      modifies this
      ensures Now() == old(Now()) && m + n <= |File(Now(), ino)| && seg == File(Now(), ino)[m..m + n]
    {
      hide Owned, NoLeaks, Filled, ZoneAt;
      SegmentRead(Now(), ino, m, n);
      BmapReads(Now(), ino, bindex);
      hide FsSpec.Bmap;
      var blockNo := Bmap(ino, bindex, false);
      seg := zones[blockNo][off..off + n];
    }

    /** `writei` on a file or directory. */
    method Writei(ino: nat, offset: nat, src: seq<Byte>) returns (r: WriteResult)
      requires Inv(Now()) && ino in inodes && offset <= inodes[ino].size
      modifies this
      ensures r == Outcome(old(Now()), ino, offset, |src|)
      ensures r.Written? ==> Inv(Now()) && ino in inodes && inodes.Keys == old(inodes).Keys
      ensures r.Written? ==> File(Now(), ino) == Overwrite(old(File(Now(), ino)), offset, src)
      ensures r.Written? ==> OthersSame(old(Now()), Now(), ino)
    {
      hide Shaped, Owned, NoLeaks, Filled, AllReady, Turn, Overwrite;
      ghost var fs0 := Now();
      SizeFits(fs0, ino);
      TurnNothing(fs0, ino, offset);
      r := WriteBlocks(ino, offset, src);
      if !r.Written? {
        return;
      }
      ghost var fs := Now();
      TurnKeeps(fs0, fs, ino, offset, src);
      var size := offset + |src|;
      if size > inodes[ino].size {
        inodes := inodes[ino := inodes[ino].(size := size)];
      }
      assert fs.inodes[ino := fs.inodes[ino]] == fs.inodes;
      assert Now() == SetSize(fs, ino, NewSize(fs0.inodes[ino].size, size));
      WriteDone(fs0, fs, Now(), ino, offset, src);
    }

    /** The block loop of `writei`. */
    method WriteBlocks(ino: nat, offset: nat, src: seq<Byte>) returns (r: WriteResult)
      requires Inv(Now()) && ino in inodes && offset <= MAX_BYTES
      modifies this
      ensures r == Outcome(old(Now()), ino, offset, |src|)
      ensures r.Written? ==> Turn(old(Now()), Now(), ino, offset, src)
    {
      hide Shaped, Owned, NoLeaks, Filled, Ready, Turn, Blocks, FsSpec.Bmap, Reachable;
      ghost var fs0 := Now();
      ghost var hi := Last(offset, |src|);
      TurnNothing(fs0, ino, offset);
      var bindex, off := offset / BLOCK_SIZE, offset % BLOCK_SIZE;
      var done := 0;
      assert src[..0] == [];
      if 0 < |src| { BlockBelow(offset, offset + |src|); }
      while done < |src|
        invariant done <= |src| && InLoop(fs0, Now(), ino, offset, src[..done])
        invariant done < |src| ==> bindex == (offset + done) / BLOCK_SIZE && off == (offset + done) % BLOCK_SIZE
        invariant bindex < hi <==> done < |src| && bindex < MAX_BLOCKS
        invariant AllReady(fs0, ino, offset, |src|) <==> (bindex < hi ==> ReadyAt(Now(), ino, bindex, hi))
      {
        if bindex >= MAX_BLOCKS {
          BlockBelow(offset + done, offset + |src|);
          return Panic;
        }
        NextSegment(offset + done, |src| - done);
        var n := Min(BLOCK_SIZE - off, |src| - done);
        var reached := WriteSegment(fs0, ino, offset, src[..done], src[done..done + n], bindex, off, hi);
        if !reached {
          return Spoiled;
        }
        assert src[..done] + src[done..done + n] == src[..done + n];
        off := 0;
        done := done + n;
        bindex := bindex + 1;
        if done < |src| { BlockBelow(offset + done, offset + |src|); }
      }
      assert src[..done] == src;
      r := Written(|src|);
    }

    /** The body of the block loop; false when the block that the segment goes to is none of the file. */
    method WriteSegment(ghost fs0: Fs, ino: nat, ghost orig: nat, ghost s: seq<Byte>, seg: seq<Byte>, bindex: nat,
        off: nat, ghost hi: nat)
      returns (reached: bool)
      requires InLoop(fs0, Now(), ino, orig, s)
      requires bindex == (orig + |s|) / BLOCK_SIZE < hi <= MAX_BLOCKS
      requires off == (orig + |s|) % BLOCK_SIZE && off + |seg| <= BLOCK_SIZE
      modifies this
      ensures !reached ==> !ReadyAt(old(Now()), ino, bindex, hi)
      ensures reached ==> InLoop(fs0, Now(), ino, orig, s + seg) && ReadyOn(old(Now()), Now(), ino, bindex, hi)
    {
      hide Owned, NoLeaks, Filled, Ready, Turn, FsSpec.Bmap, Clean;
      ghost var fs := Now();
      ReadyNow(fs, ino, bindex, hi);
      if !Clean(Now(), ino, bindex) {
        return false;
      }
      BmapReachesExactly(fs, ino, bindex);
      hide Shaped, ReadyAt, InLoop;
      var blockNo := Bmap(ino, bindex, true);
      if blockNo == 0 {
        return false;
      }
      WriteStep(fs0, fs, ino, orig, s, seg, bindex, hi);
      zones := zones[blockNo := Overlay(zones[blockNo], off, seg)];
      reached := true;
    }

    /** `itrunc`. */
    method Itrunc(ino: nat)
      requires Inv(Now()) && ino in inodes
      modifies this
      ensures Now() == Truncated(old(Now()), ino)
    {
      hide Owned, NoLeaks, Filled, DirectZones, EntryZones;
      ghost var fs := Now();
      TruncDirect(ino);
      if inodes[ino].indirect != 0 {
        TruncIndirect(ino, fs);
      } else {
        NoEntries(fs, ino);
      }
      inodes := inodes[ino := inodes[ino].(size := 0)];
    }

    method TruncDirect(ino: nat)
      requires Inv(Now()) && ino in inodes
      modifies this`taken, this`inodes
      ensures var fs := old(Now());
        Now() == fs.(taken := fs.taken - DirectZones(fs, ino, NDIRECT),
                     inodes := fs.inodes[ino := fs.inodes[ino].(direct := Empty().direct)])
    {
      hide Owned, NoLeaks, Filled, DirectZones;
      ghost var fs := Now();
      var i := 0;
      NoneYet(fs, ino);
      while i < NDIRECT
        invariant i <= NDIRECT && taken == fs.taken - DirectZones(fs, ino, i)
        invariant ino in inodes && |inodes[ino].direct| == NDIRECT
        invariant forall j :: 0 <= j < NDIRECT ==>
            inodes[ino].direct[j] == if j < i then 0 else fs.inodes[ino].direct[j]
        invariant inodes == fs.inodes[ino := fs.inodes[ino].(direct := inodes[ino].direct)]
      {
        NextDirect(fs, ino, i);
        if inodes[ino].direct[i] != 0 {
          Bfree(inodes[ino].direct[i]);
          inodes := inodes[ino := inodes[ino].(direct := inodes[ino].direct[i := 0])];
        }
        i := i + 1;
      }
      assert inodes[ino].direct == Empty().direct;
    }

    method TruncIndirect(ino: nat, ghost fs: Fs)
      requires Inv(fs) && ino in fs.inodes && ino in inodes && zones == fs.zones && first == fs.first
      requires inodes[ino].indirect == fs.inodes[ino].indirect != 0 && taken == fs.taken - DirectZones(fs, ino, NDIRECT)
      modifies this`taken, this`inodes
      ensures taken == fs.taken - DirectZones(fs, ino, NDIRECT) - EntryZones(fs, ino, NINDIRECT)
          - {fs.inodes[ino].indirect}
      ensures inodes == old(inodes)[ino := old(inodes)[ino].(indirect := 0)]
    {
      hide Owned, NoLeaks, Filled, DirectZones, EntryZones;
      var blocks := zones[inodes[ino].indirect];
      var i := 0;
      NoneYet(fs, ino);
      while i < NINDIRECT
        invariant i <= NINDIRECT && inodes == old(inodes)
        invariant taken == fs.taken - DirectZones(fs, ino, NDIRECT) - EntryZones(fs, ino, i)
      {
        NextEntry(fs, ino, i);
        if Word(blocks, i) != 0 {
          Bfree(Word(blocks, i));
        }
        i := i + 1;
      }
      LastIndirect(fs, ino);
      Bfree(inodes[ino].indirect);
      inodes := inodes[ino := inodes[ino].(indirect := 0)];
    }
  }

  // ------------------------------------------------------------------ reading back

  /** What has been written is read back. */
  lemma WriteThenRead(f: seq<Byte>, offset: nat, s: seq<Byte>)
    requires offset <= |f| < 0x8000_0000 && offset + |s| < 0x8000_0000
    ensures |Overwrite(f, offset, s)| < 0x8000_0000
    ensures ReadFrom(Overwrite(f, offset, s), offset, |s|) == Bytes(s, |s|)
  {
    var g := Overwrite(f, offset, s);
    OverwriteAt(f, offset, s, 0);
    ReadReturns(g, offset, |s|);
    hide Overwrite, ReadFrom;
    forall k | offset <= k < offset + |s|
      ensures g[k] == s[k - offset]
    {
      OverwriteAt(f, offset, s, k);
    }
    assert g[offset..offset + |s|] == s;
  }

  /** What lies before or behind the bytes written reads as before. */
  lemma WriteThenReadElsewhere(f: seq<Byte>, offset: nat, s: seq<Byte>, from: nat, n: nat)
    requires offset <= |f| < 0x8000_0000 && offset + |s| < 0x8000_0000 && from + n < 0x8000_0000
    requires from + n <= offset || offset + |s| <= from <= |f|
    ensures |Overwrite(f, offset, s)| < 0x8000_0000
    ensures ReadFrom(Overwrite(f, offset, s), from, n) == ReadFrom(f, from, n)
  {
    OverwriteAt(f, offset, s, 0);
    hide Overwrite, ReadFrom;
    var g := Overwrite(f, offset, s);
    ReadReturns(f, from, n);
    ReadReturns(g, from, n);
    var count := Min(n, |f| - from);
    assert count == Min(n, |g| - from);
    hide Min;
    SameSlice(f, offset, s, from, count);
  }

  lemma SameSlice(f: seq<Byte>, offset: nat, s: seq<Byte>, from: nat, n: nat)
    requires offset <= |f| && from + n <= |f| && (from + n <= offset || offset + |s| <= from)
    ensures from + n <= |Overwrite(f, offset, s)| && Overwrite(f, offset, s)[from..from + n] == f[from..from + n]
  {
    OverwriteAt(f, offset, s, 0);
    var g := Overwrite(f, offset, s);
    hide Overwrite;
    forall k | from <= k < from + n
      ensures g[k] == f[k]
    {
      OverwriteAt(f, offset, s, k);
    }
  }

  // ------------------------------------------------------------------ 32-bit offsets and counts

  /** The loop of `readi` stays inside the file, or copies nothing at all. */
  predicate StaysInside(size: nat, offset: int, nbytes: nat)
    requires -0x8000_0000 <= offset <= size < 0x8000_0000 && nbytes < 0x1_0000_0000
  {
    var n := Signed(Clamped(size, offset, nbytes));
    n <= 0 || (0 <= offset && offset + n <= size)
  }

  /** When a read stays inside the file: from an offset of 0 or more exactly if offset and count add up to a
      `long`, or the count by itself is none; from a negative offset only if nothing is copied. */
  lemma StaysInsideExactly(size: nat, offset: int, nbytes: nat)
    requires -0x8000_0000 <= offset <= size < 0x8000_0000 && nbytes < 0x1_0000_0000
    ensures 0 <= offset ==>
      (StaysInside(size, offset, nbytes) <==> offset + nbytes < 0x8000_0000 || nbytes >= 0x8000_0000)
    ensures offset < 0 ==>
      (StaysInside(size, offset, nbytes) <==>
         || nbytes == 0
         || (nbytes >= 0x8000_0000 && !(size < offset + nbytes < 0x8000_0000 && size - offset < 0x8000_0000)))
  {
    if 0 <= offset || nbytes >= 0x8000_0000 { Wraps(offset + nbytes); } else { WrapsBelow(offset + nbytes); }
  }

  lemma Wraps(u: nat)
    requires u < 0x2_0000_0000
    ensures u % 0x1_0000_0000 == if u < 0x1_0000_0000 then u else u - 0x1_0000_0000
  {
  }

  lemma WrapsBelow(i: int)
    requires -0x8000_0000 <= i < 0x8000_0000
    ensures Signed(i % 0x1_0000_0000) == i
  {
  }

  /** What comes back then: the bytes up to the end of the file, or from a count that is no `long` none
      and a negative number. */
  lemma ReadReturns(f: seq<Byte>, offset: nat, nbytes: nat)
    requires offset <= |f| < 0x8000_0000 && nbytes < 0x1_0000_0000
    ensures offset + nbytes < 0x8000_0000 ==>
              var n := Min(nbytes, |f| - offset); ReadFrom(f, offset, nbytes) == Bytes(f[offset..offset + n], n)
    ensures nbytes >= 0x8000_0000 ==> ReadFrom(f, offset, nbytes) == Bytes([], nbytes - 0x1_0000_0000)
  {
    Wraps(offset + nbytes);
  }

  /** Reads that leave every file: of 2^31 - 1 bytes from offset 1, and of one byte from offset -1. */
  lemma ReadsAstray(f: seq<Byte>)
    requires 1 <= |f| < 0x8000_0000
    ensures ReadFrom(f, 1, 0x7FFF_FFFF) == Astray && ReadFrom(f, -1, 1) == Astray
  {
  }

  // ------------------------------------------------------------------ helpers of the loops

  lemma PutZero(b: Block, i: nat)
    requires 2 * i + 1 < |b| && Word(b, i) == 0
    ensures PutWord(b, i, 0) == b
  {
    assert b[2 * i] == 0 && b[2 * i + 1] == 0;
  }

  lemma Adjoin(f: seq<Byte>, offset: nat, s: seq<Byte>, seg: seq<Byte>)
    requires offset + |s| + |seg| <= |f| && s == f[offset..offset + |s|] && seg == f[offset + |s|..offset + |s| + |seg|]
    ensures s + seg == f[offset..offset + |s + seg|]
  {
  }

  lemma TurnKeeps(fs0: Fs, fs: Fs, ino: nat, m: nat, s: seq<Byte>)
    requires Inv(fs0) && ino in fs0.inodes && Turn(fs0, fs, ino, m, s)
    ensures Inv(fs) && fs.inodes.Keys == fs0.inodes.Keys && fs.inodes[ino].size == fs0.inodes[ino].size
  {
  }

  lemma NoEntries(fs: Fs, ino: nat)
    requires Shaped(fs) && ino in fs.inodes && fs.inodes[ino].indirect == 0
    ensures EntryZones(fs, ino, NINDIRECT) == {}
  {
  }

  lemma NoneYet(fs: Fs, ino: nat)
    requires Shaped(fs) && ino in fs.inodes
    ensures DirectZones(fs, ino, 0) == {} && EntryZones(fs, ino, 0) == {}
  {
  }
}

/** Files as byte sequences laid out in direct and singly indirect zones, and who owns which zone. */
module FsSpec {
  import opened Numbers

  const NINDIRECT := 512
  const MAX_BLOCKS := NDIRECT + NINDIRECT

  type Block = seq<Byte>

  datatype Inode = Inode(direct: seq<nat>, indirect: nat, size: nat)

  /** The blocks of the device, the zones marked in the zone map, and the inodes in use.
      Data zones are numbered from `first`; zone numbers are 16-bit. */
  datatype Fs = Fs(zones: seq<Block>, taken: set<nat>, first: nat, inodes: map<nat, Inode>)

  /** A place in an inode that can hold a zone number. */
  datatype Pos = Direct(ino: nat, i: nat) | Indirect(ino: nat) | Entry(ino: nat, i: nat)

  function Word(b: Block, i: nat): nat
    requires 2 * i + 1 < |b|
  {
    (b[2 * i] as int) + 256 * (b[2 * i + 1] as int)
  }

  /** The block with 16-bit little-endian entry `i` replaced. */
  function PutWord(b: Block, i: nat, z: nat): (r: Block)
    requires 2 * i + 1 < |b| && z < 0x1_0000
    ensures |r| == |b| && Word(r, i) == z
    ensures forall j: nat :: 2 * j + 1 < |b| && j != i ==> Word(r, j) == Word(b, j)
  {
    var lo: Byte := z % 256;
    var hi: Byte := z / 256;
    b[2 * i := lo][2 * i + 1 := hi]
  }

  // ------------------------------------------------------------------ shape and ownership

  predicate Shaped(fs: Fs) {
    && 0 < fs.first <= |fs.zones| <= 0x1_0000
    && (forall z :: 0 <= z < |fs.zones| ==> |fs.zones[z]| == BLOCK_SIZE)
    && (forall ino :: ino in fs.inodes ==> |fs.inodes[ino].direct| == NDIRECT && fs.inodes[ino].indirect < |fs.zones|)
  }

  predicate ValidPos(fs: Fs, p: Pos) {
    && p.ino in fs.inodes
    && (p.Direct? ==> p.i < NDIRECT)
    && (p.Entry? ==> p.i < NINDIRECT)
  }

  /** The zone number stored at a position; 0 is none. */
  function ZoneAt(fs: Fs, p: Pos): nat
    requires Shaped(fs) && ValidPos(fs, p)
  {
    var n := fs.inodes[p.ino];
    match p
    case Direct(_, i) => n.direct[i]
    case Indirect(_) => n.indirect
    case Entry(_, i) => if n.indirect == 0 then 0 else Word(fs.zones[n.indirect], i)
  }

  /** Every zone in use is a data zone, marked taken, and has exactly one owner. */
  ghost predicate Owned(fs: Fs)
    requires Shaped(fs)
  {
    && (forall p :: ValidPos(fs, p) && ZoneAt(fs, p) != 0 ==>
        ZoneAt(fs, p) in fs.taken && fs.first <= ZoneAt(fs, p) < |fs.zones|)
    && (forall p, q :: ValidPos(fs, p) && ValidPos(fs, q) && p != q && ZoneAt(fs, p) != 0 ==>
        ZoneAt(fs, p) != ZoneAt(fs, q))
  }

  /** Where block `b` of a file is recorded. */
  function PosOf(ino: nat, b: nat): Pos { if b < NDIRECT then Direct(ino, b) else Entry(ino, b - NDIRECT) }

  function BlockOf(fs: Fs, ino: nat, b: nat): nat
    requires Shaped(fs) && ino in fs.inodes && b < MAX_BLOCKS
  {
    ZoneAt(fs, PosOf(ino, b))
  }

  /** No holes: every block below the size of a file is there. */
  ghost predicate Filled(fs: Fs)
    requires Shaped(fs)
  {
    forall ino :: ino in fs.inodes ==> FileFilled(fs, ino)
  }

  ghost predicate FileFilled(fs: Fs, ino: nat)
    requires Shaped(fs) && ino in fs.inodes
  {
    && fs.inodes[ino].size <= MAX_BLOCKS * BLOCK_SIZE
    && forall b: nat :: b < MAX_BLOCKS && b * BLOCK_SIZE < fs.inodes[ino].size ==> BlockOf(fs, ino, b) != 0
  }

  ghost predicate HasOwner(fs: Fs, z: nat)
    requires Shaped(fs)
  {
    exists p :: ValidPos(fs, p) && ZoneAt(fs, p) == z
  }

  /** Every data zone marked taken belongs to some file. */
  ghost predicate NoLeaks(fs: Fs)
    requires Shaped(fs)
  {
    forall z :: z in fs.taken && fs.first <= z ==> HasOwner(fs, z)
  }

  ghost predicate Inv(fs: Fs) { Shaped(fs) && Owned(fs) && Filled(fs) && NoLeaks(fs) }

  /** Byte `k` of a file, wherever its block is. */
  function ByteAt(fs: Fs, ino: nat, k: nat): Byte
    requires Shaped(fs) && ino in fs.inodes && k < MAX_BLOCKS * BLOCK_SIZE
  {
    var z := BlockOf(fs, ino, k / BLOCK_SIZE);
    if z < |fs.zones| then fs.zones[z][k % BLOCK_SIZE] else 0
  }

  lemma OwnedZone(fs: Fs, p: Pos)
    requires Shaped(fs) && Owned(fs) && ValidPos(fs, p)
    ensures ZoneAt(fs, p) < |fs.zones|
        && (ZoneAt(fs, p) != 0 ==> fs.first <= ZoneAt(fs, p) && ZoneAt(fs, p) in fs.taken)
  {
  }

  /** The contents of a file. */
  ghost function File(fs: Fs, ino: nat): (f: seq<Byte>)
    requires Inv(fs) && ino in fs.inodes
    ensures |f| == fs.inodes[ino].size
  {
    assert FileFilled(fs, ino);
    seq(fs.inodes[ino].size, k requires 0 <= k < fs.inodes[ino].size => ByteAt(fs, ino, k))
  }

  // ------------------------------------------------------------------ free zones

  /** The free zones in the order the zone map hands them out. */
  function FreeFrom(taken: set<nat>, from: nat, n: nat): (r: seq<nat>)
    requires from <= n
    ensures forall i :: 0 <= i < |r| ==> from <= r[i] < n && r[i] !in taken
    ensures r == [] ==> forall z :: from <= z < n ==> z in taken
    decreases n - from
  {
    if from == n then [] else (if from in taken then [] else [from]) + FreeFrom(taken, from + 1, n)
  }

  function Free(fs: Fs): seq<nat>
    requires Shaped(fs)
  {
    FreeFrom(fs.taken, fs.first, |fs.zones|)
  }

  lemma {:induction false} TakeHead(taken: set<nat>, from: nat, n: nat)
    requires from <= n && FreeFrom(taken, from, n) != []
    ensures FreeFrom(taken + {FreeFrom(taken, from, n)[0]}, from, n) == FreeFrom(taken, from, n)[1..]
    decreases n - from
  {
    if from in taken {
      TakeHead(taken, from + 1, n);
    } else {
      TakeBelow(taken, from, from + 1, n);
    }
  }

  lemma {:induction false} TakeBelow(taken: set<nat>, z: nat, from: nat, n: nat)
    requires z < from <= n
    ensures FreeFrom(taken + {z}, from, n) == FreeFrom(taken, from, n)
    decreases n - from
  {
    if from < n { TakeBelow(taken, z, from + 1, n); }
  }

  // ------------------------------------------------------------------ growing a file by one zone

  function SetDirect(fs: Fs, ino: nat, i: nat, z: nat): Fs
    requires Shaped(fs) && ino in fs.inodes && i < NDIRECT
  {
    var n := fs.inodes[ino];
    fs.(inodes := fs.inodes[ino := n.(direct := n.direct[i := z])], taken := fs.taken + {z})
  }

  function SetIndirect(fs: Fs, ino: nat, z: nat): Fs
    requires ino in fs.inodes
  {
    fs.(inodes := fs.inodes[ino := fs.inodes[ino].(indirect := z)], taken := fs.taken + {z})
  }

  function SetEntry(fs: Fs, ino: nat, i: nat, z: nat): Fs
    requires Shaped(fs) && ino in fs.inodes && i < NINDIRECT && z < 0x1_0000
  {
    var t := fs.inodes[ino].indirect;
    fs.(zones := fs.zones[t := PutWord(fs.zones[t], i, z)], taken := fs.taken + {z})
  }

  predicate Zeroed(b: Block) { forall k :: 0 <= k < |b| ==> b[k] == 0 }

  /** Zone `z` is free. */
  predicate Fresh(fs: Fs, z: nat) { fs.first <= z < |fs.zones| && z !in fs.taken }

  /** `fs'` records zone `z` at position `p` and is otherwise like `fs`. */
  ghost predicate Recorded(fs: Fs, fs': Fs, p: Pos, z: nat)
    requires Shaped(fs)
  {
    && Shaped(fs') && fs'.inodes.Keys == fs.inodes.Keys && |fs'.zones| == |fs.zones| && fs'.first == fs.first
    && fs'.taken == fs.taken + {z} && ValidPos(fs, p) && ZoneAt(fs, p) == 0 && ZoneAt(fs', p) == z
    && (forall q :: ValidPos(fs, q) && q != p ==> ZoneAt(fs', q) == ZoneAt(fs, q))
    && (forall ino :: ino in fs.inodes ==> fs'.inodes[ino].size == fs.inodes[ino].size)
  }

  /** Every zone already in a file stays where it is, with the contents it had. */
  ghost predicate Extends(fs: Fs, fs': Fs)
    requires Shaped(fs)
  {
    && Shaped(fs') && fs'.inodes.Keys == fs.inodes.Keys && |fs'.zones| == |fs.zones| && fs'.first == fs.first
    && (forall ino :: ino in fs.inodes ==> fs'.inodes[ino].size == fs.inodes[ino].size)
    && (forall q :: ValidPos(fs, q) && ZoneAt(fs, q) != 0 ==> ZoneAt(fs', q) == ZoneAt(fs, q))
    && (forall q :: ValidPos(fs, q) && ZoneAt(fs, q) != 0 && !q.Indirect? && ZoneAt(fs, q) < |fs.zones| ==>
          fs'.zones[ZoneAt(fs, q)] == fs.zones[ZoneAt(fs, q)])
  }

  lemma RecordedOwned(fs: Fs, fs': Fs, p: Pos, z: nat)
    requires Shaped(fs) && Owned(fs) && NoLeaks(fs) && Fresh(fs, z) && Recorded(fs, fs', p, z)
    ensures Owned(fs') && NoLeaks(fs')
  {
    forall y | y in fs'.taken && fs'.first <= y
      ensures HasOwner(fs', y)
    {
      if y == z {
        assert ZoneAt(fs', p) == z;
      } else {
        assert HasOwner(fs, y);
        var q :| ValidPos(fs, q) && ZoneAt(fs, q) == y;
        assert ZoneAt(fs', q) == y;
      }
    }
    forall q | ValidPos(fs', q) && ZoneAt(fs', q) != 0
      ensures ZoneAt(fs', q) in fs'.taken && fs'.first <= ZoneAt(fs', q) < |fs'.zones|
      ensures q != p ==> ZoneAt(fs', q) != z
    {
      if q != p { OwnedZone(fs, q); }
    }
  }

  lemma DirectRecorded(fs: Fs, ino: nat, i: nat, z: nat)
    requires Inv(fs) && ino in fs.inodes && i < NDIRECT && fs.inodes[ino].direct[i] == 0 && Fresh(fs, z)
    ensures var fs' := SetDirect(fs, ino, i, z); Recorded(fs, fs', Direct(ino, i), z) && Extends(fs, fs') && Inv(fs')
  {
    var fs' := SetDirect(fs, ino, i, z);
    assert Recorded(fs, fs', Direct(ino, i), z);
    RecordedOwned(fs, fs', Direct(ino, i), z);
    ExtendsFilled(fs, fs');
  }

  lemma IndirectRecorded(fs: Fs, ino: nat, z: nat)
    requires Inv(fs) && ino in fs.inodes && fs.inodes[ino].indirect == 0 && Fresh(fs, z) && Zeroed(fs.zones[z])
    ensures var fs' := SetIndirect(fs, ino, z); Recorded(fs, fs', Indirect(ino), z) && Extends(fs, fs') && Inv(fs')
  {
    var fs' := SetIndirect(fs, ino, z);
    assert Recorded(fs, fs', Indirect(ino), z);
    RecordedOwned(fs, fs', Indirect(ino), z);
    ExtendsFilled(fs, fs');
  }

  lemma EntryRecorded(fs: Fs, ino: nat, i: nat, z: nat)
    requires Inv(fs) && ino in fs.inodes && i < NINDIRECT && fs.inodes[ino].indirect != 0
    requires ZoneAt(fs, Entry(ino, i)) == 0 && Fresh(fs, z)
    ensures var fs' := SetEntry(fs, ino, i, z); Recorded(fs, fs', Entry(ino, i), z) && Extends(fs, fs') && Inv(fs')
  {
    var fs' := SetEntry(fs, ino, i, z);
    var t := fs.inodes[ino].indirect;
    assert t == ZoneAt(fs, Indirect(ino));
    forall q | ValidPos(fs, q) && q != Entry(ino, i)
      ensures ZoneAt(fs', q) == ZoneAt(fs, q)
    {
      if q.Entry? && q.ino != ino { assert ZoneAt(fs, Indirect(q.ino)) == fs.inodes[q.ino].indirect; }
    }
    assert Recorded(fs, fs', Entry(ino, i), z);
    RecordedOwned(fs, fs', Entry(ino, i), z);
    assert Extends(fs, fs');
    ExtendsFilled(fs, fs');
  }

  lemma ExtendsFilled(fs: Fs, fs': Fs)
    requires Inv(fs) && Extends(fs, fs')
    ensures Filled(fs')
  {
    forall ino | ino in fs'.inodes
      ensures FileFilled(fs', ino)
    {
      assert FileFilled(fs, ino);
      forall b: nat | b < MAX_BLOCKS && b * BLOCK_SIZE < fs'.inodes[ino].size
        ensures BlockOf(fs', ino, b) != 0
      {
        assert BlockOf(fs, ino, b) != 0;
      }
    }
  }

  /** Growing any file shows in no file: contents and sizes are what they were. */
  lemma ExtendsFile(fs: Fs, fs': Fs, ino: nat)
    requires Inv(fs) && Inv(fs') && Extends(fs, fs') && ino in fs.inodes
    ensures File(fs', ino) == File(fs, ino)
  {
    var f, f' := File(fs, ino), File(fs', ino);
    assert FileFilled(fs, ino);
    forall k | 0 <= k < |f|
      ensures f'[k] == f[k]
    {
      var b := k / BLOCK_SIZE;
      assert BlockOf(fs, ino, b) != 0;
      OwnedZone(fs, PosOf(ino, b));
    }
  }

  // ------------------------------------------------------------------ bmap

  /** What `balloc` returns: the first free zone, or 0. */
  function Head(fs: Fs): nat
    requires Shaped(fs)
  {
    if Free(fs) == [] then 0 else Free(fs)[0]
  }

  /** `bmap`: the block number, growing the file when asked to write.  A missing indirect entry is
      filled even for a reader, as the code does. */
  function Bmap(fs: Fs, ino: nat, b: nat, write: bool): (Fs, nat)
    requires Shaped(fs) && ino in fs.inodes && b < MAX_BLOCKS
  {
    var n := fs.inodes[ino];
    if b < NDIRECT then
      var fs' := if write && n.direct[b] == 0 && Head(fs) != 0 then SetDirect(fs, ino, b, Head(fs)) else fs;
      (fs', fs'.inodes[ino].direct[b])
    else
      var fs1 := if write && n.indirect == 0 && Head(fs) != 0 then SetIndirect(fs, ino, Head(fs)) else fs;
      if fs1.inodes[ino].indirect == 0 then (fs1, 0)
      else
        var e := Entry(ino, b - NDIRECT);
        var fs2 := if ZoneAt(fs1, e) == 0 && Head(fs1) != 0 then SetEntry(fs1, ino, b - NDIRECT, Head(fs1)) else fs1;
        (fs2, ZoneAt(fs2, e))
  }

  /** Zones that `bmap` has to take to reach block `b`. */
  function Missing(fs: Fs, ino: nat, b: nat): nat
    requires Shaped(fs) && ino in fs.inodes && b < MAX_BLOCKS
  {
    (if BlockOf(fs, ino, b) == 0 then 1 else 0) + (if b >= NDIRECT && fs.inodes[ino].indirect == 0 then 1 else 0)
  }

  /** Taking the head of the free list. */
  lemma HeadTaken(fs: Fs, fs': Fs)
    requires Shaped(fs) && Shaped(fs') && Free(fs) != [] && fs'.taken == fs.taken + {Head(fs)}
    requires fs'.first == fs.first && |fs'.zones| == |fs.zones|
    ensures Fresh(fs, Head(fs)) && Free(fs') == Free(fs)[1..]
  {
    TakeHead(fs.taken, fs.first, |fs.zones|);
  }

  /** Growth of one file: only the wanted block and, if need be, its indirect zone are new. */
  ghost predicate Grown(fs: Fs, fs': Fs, ino: nat, b: nat)
    requires Shaped(fs) && ino in fs.inodes && b < MAX_BLOCKS
  {
    && Extends(fs, fs')
    && (forall q :: ValidPos(fs, q) && q != PosOf(ino, b) && q != Indirect(ino) ==> ZoneAt(fs', q) == ZoneAt(fs, q))
    && (b < NDIRECT ==> fs'.inodes[ino].indirect == fs.inodes[ino].indirect)
    && Missing(fs, ino, b) <= |Free(fs)|
    && fs'.taken == fs.taken + (set z | z in Free(fs)[..Missing(fs, ino, b)])
    && Free(fs') == Free(fs)[Missing(fs, ino, b)..]
  }

  lemma BmapDirect(fs: Fs, ino: nat, b: nat)
    requires Inv(fs) && ino in fs.inodes && b < NDIRECT && Missing(fs, ino, b) <= |Free(fs)|
    ensures var (fs', z) := Bmap(fs, ino, b, true);
      && Inv(fs') && Grown(fs, fs', ino, b) && z == BlockOf(fs', ino, b) != 0 && fs'.zones == fs.zones
  {
    var fs' := Bmap(fs, ino, b, true).0;
    assert fs.inodes[ino].direct[b] == BlockOf(fs, ino, b);
    if fs.inodes[ino].direct[b] == 0 {
      assert Free(fs)[..1] == [Free(fs)[0]];
      assert Head(fs) == Free(fs)[0];
      DirectRecorded(fs, ino, b, Head(fs));
      HeadTaken(fs, fs');
    }
  }

  lemma ExtendsTwice(fs: Fs, fs1: Fs, fs2: Fs)
    requires Inv(fs) && Extends(fs, fs1) && Extends(fs1, fs2)
    ensures Extends(fs, fs2)
  {
    forall q | ValidPos(fs, q) && ZoneAt(fs, q) != 0
      ensures ZoneAt(fs2, q) == ZoneAt(fs, q)
      ensures !q.Indirect? && ZoneAt(fs, q) < |fs.zones| ==> fs2.zones[ZoneAt(fs, q)] == fs.zones[ZoneAt(fs, q)]
    {
      assert ZoneAt(fs1, q) == ZoneAt(fs, q);
    }
  }

  /** The entry step of `bmap` on a file whose indirect zone exists. */
  lemma BmapEntry(fs: Fs, ino: nat, b: nat)
    requires Inv(fs) && ino in fs.inodes && NDIRECT <= b < MAX_BLOCKS && fs.inodes[ino].indirect != 0
    requires Missing(fs, ino, b) <= |Free(fs)|
    ensures var (fs', z) := Bmap(fs, ino, b, true); Inv(fs') && Grown(fs, fs', ino, b) && z == BlockOf(fs', ino, b) != 0
  {
    var fs' := Bmap(fs, ino, b, true).0;
    if BlockOf(fs, ino, b) == 0 {
      assert Free(fs)[..1] == [Free(fs)[0]];
      assert Head(fs) == Free(fs)[0];
      EntryRecorded(fs, ino, b - NDIRECT, Head(fs));
      HeadTaken(fs, fs');
    }
  }

  lemma BmapIndirect(fs: Fs, ino: nat, b: nat)
    requires Inv(fs) && ino in fs.inodes && NDIRECT <= b < MAX_BLOCKS && fs.inodes[ino].indirect == 0
    requires Missing(fs, ino, b) <= |Free(fs)| && Zeroed(fs.zones[Free(fs)[0]])
    ensures var (fs', z) := Bmap(fs, ino, b, true); Inv(fs') && Grown(fs, fs', ino, b) && z == BlockOf(fs', ino, b) != 0
  {
    var fs1, fs' := SetIndirect(fs, ino, Head(fs)), Bmap(fs, ino, b, true).0;
    assert BlockOf(fs, ino, b) == 0;
    IndirectRecorded(fs, ino, Head(fs));
    HeadTaken(fs, fs1);
    assert ZoneAt(fs1, PosOf(ino, b)) == 0;
    assert Bmap(fs, ino, b, true) == Bmap(fs1, ino, b, true);
    hide Bmap, Owned, NoLeaks, Filled, Extends, ZoneAt;
    BmapEntry(fs1, ino, b);
    ExtendsTwice(fs, fs1, fs');
    assert Free(fs)[..2] == [Free(fs)[0]] + Free(fs1)[..1];
  }

  /** Whether `bmap` for writing makes an indirect block of a zone. */
  predicate Adopts(fs: Fs, ino: nat, b: nat)
    requires Shaped(fs) && ino in fs.inodes
  {
    b >= NDIRECT && fs.inodes[ino].indirect == 0 && Free(fs) != []
  }

  /** The zone that is to become an indirect block, if one is, reads as zeros; the code does not clear it. */
  predicate Clean(fs: Fs, ino: nat, b: nat)
    requires Shaped(fs) && ino in fs.inodes
  {
    Adopts(fs, ino, b) ==> Zeroed(fs.zones[Free(fs)[0]])
  }

  /** There are zones enough to reach block `b`. */
  predicate Enough(fs: Fs, ino: nat, b: nat)
    requires Shaped(fs) && ino in fs.inodes && b < MAX_BLOCKS
  {
    Missing(fs, ino, b) <= |Free(fs)|
  }

  /** `bmap` for writing takes one fresh zone for each missing block and nothing else, moves nothing, and
      keeps every zone owned once: exactly when there are zones enough and no stale zone is adopted. */
  lemma BmapGrows(fs: Fs, ino: nat, b: nat)
    requires Inv(fs) && ino in fs.inodes && b < MAX_BLOCKS
    ensures var (fs', z) := Bmap(fs, ino, b, true);
      && (Inv(fs') && Grown(fs, fs', ino, b) <==> Enough(fs, ino, b) && Clean(fs, ino, b))
      && (Enough(fs, ino, b) && Clean(fs, ino, b) ==> z == BlockOf(fs', ino, b) != 0)
  {
    if Enough(fs, ino, b) && Clean(fs, ino, b) {
      if b < NDIRECT { BmapDirect(fs, ino, b); }
      else if fs.inodes[ino].indirect == 0 { BmapIndirect(fs, ino, b); }
      else { BmapEntry(fs, ino, b); }
    } else {
      BmapKeepsExactly(fs, ino, b);
    }
  }

  /** With too few zones left `bmap` gives a writer block 0, and the writer, which does not look, writes into
      the first block of the device.  It does so in no other case, but that a stale word of the last zone,
      just adopted as indirect block, is given out as a block of the file. */
  lemma BmapReachesExactly(fs: Fs, ino: nat, b: nat)
    requires Inv(fs) && ino in fs.inodes && b < MAX_BLOCKS
    ensures Bmap(fs, ino, b, true).1 != 0 <==>
              Enough(fs, ino, b) || (Adopts(fs, ino, b) && Word(fs.zones[Free(fs)[0]], b - NDIRECT) != 0)
    ensures Clean(fs, ino, b) ==> (Bmap(fs, ino, b, true).1 != 0 <==> Enough(fs, ino, b))
  {
    if Adopts(fs, ino, b) {
      Adopted(fs, ino);
    }
  }

  /** The state in between, when the indirect block has been taken and the entry has not. */
  lemma Adopted(fs: Fs, ino: nat)
    requires Inv(fs) && ino in fs.inodes && fs.inodes[ino].indirect == 0 && Free(fs) != []
    ensures var fs1 := SetIndirect(fs, ino, Head(fs));
      && Shaped(fs1) && Free(fs1) == Free(fs)[1..] && Fresh(fs, Head(fs))
      && forall i: nat :: i < NINDIRECT ==> ZoneAt(fs1, Entry(ino, i)) == Word(fs.zones[Head(fs)], i)
  {
    HeadTaken(fs, SetIndirect(fs, ino, Head(fs)));
  }

  /** A reader of a block that is there finds it and changes nothing. */
  lemma BmapReads(fs: Fs, ino: nat, b: nat)
    requires Inv(fs) && ino in fs.inodes && b < MAX_BLOCKS && BlockOf(fs, ino, b) != 0
    ensures Bmap(fs, ino, b, false) == (fs, BlockOf(fs, ino, b))
  {
  }

  /** `bmap` for writing keeps every zone owned once exactly when the zone that becomes an indirect block, if
      one does, reads as zeros: with anything else in it, its stale words are taken for zones of the file.
      That holds also when the zones do not suffice, and no zone in use is then moved or changed either. */
  lemma BmapKeepsExactly(fs: Fs, ino: nat, b: nat)
    requires Inv(fs) && ino in fs.inodes && b < MAX_BLOCKS
    ensures Inv(Bmap(fs, ino, b, true).0) <==> Clean(fs, ino, b)
    ensures Clean(fs, ino, b) ==> Extends(fs, Bmap(fs, ino, b, true).0)
  {
    if !Adopts(fs, ino, b) {
      BmapKeepsPlain(fs, ino, b);
    } else if Clean(fs, ino, b) {
      BmapKeepsAdopting(fs, ino, b);
    } else {
      var k :| 0 <= k < BLOCK_SIZE && fs.zones[Head(fs)][k] != 0;
      StaleEntryBreaks(fs, ino, b, k / 2);
    }
  }

  /** In particular for the first block behind the direct ones. */
  lemma IndirectNeedsZeros(fs: Fs, ino: nat, b: nat)
    requires Inv(fs) && ino in fs.inodes && NDIRECT <= b < MAX_BLOCKS && fs.inodes[ino].indirect == 0 && Free(fs) != []
    ensures Inv(Bmap(fs, ino, b, true).0) <==> Zeroed(fs.zones[Free(fs)[0]])
  {
    BmapKeepsExactly(fs, ino, b);
  }

  lemma BmapKeepsPlain(fs: Fs, ino: nat, b: nat)
    requires Inv(fs) && ino in fs.inodes && b < MAX_BLOCKS && !Adopts(fs, ino, b)
    ensures Inv(Bmap(fs, ino, b, true).0) && Extends(fs, Bmap(fs, ino, b, true).0)
  {
    BmapPlain(fs, ino, b);
    hide Bmap, Owned, NoLeaks, Filled;
    if Free(fs) != [] && BlockOf(fs, ino, b) == 0 {
      if b < NDIRECT { DirectRecorded(fs, ino, b, Head(fs)); } else { EntryRecorded(fs, ino, b - NDIRECT, Head(fs)); }
    }
  }

  lemma BmapPlain(fs: Fs, ino: nat, b: nat)
    requires Shaped(fs) && ino in fs.inodes && b < MAX_BLOCKS && !Adopts(fs, ino, b)
    ensures Bmap(fs, ino, b, true).0 ==
              if Free(fs) == [] || BlockOf(fs, ino, b) != 0 || (b >= NDIRECT && fs.inodes[ino].indirect == 0) then fs
              else if b < NDIRECT then SetDirect(fs, ino, b, Head(fs)) else SetEntry(fs, ino, b - NDIRECT, Head(fs))
    ensures Free(fs) != [] ==> Fresh(fs, Head(fs))
  {
  }

  lemma BmapKeepsAdopting(fs: Fs, ino: nat, b: nat)
    requires Inv(fs) && ino in fs.inodes && b < MAX_BLOCKS && Adopts(fs, ino, b) && Clean(fs, ino, b)
    ensures Inv(Bmap(fs, ino, b, true).0) && Extends(fs, Bmap(fs, ino, b, true).0)
  {
    Adopted(fs, ino);
    var fs1 := SetIndirect(fs, ino, Head(fs));
    IndirectRecorded(fs, ino, Head(fs));
    assert Bmap(fs, ino, b, true).0 == Bmap(fs1, ino, b, true).0;
    BmapKeepsPlain(fs1, ino, b);
    ExtendsTwice(fs, fs1, Bmap(fs, ino, b, true).0);
  }

  lemma StaleEntryBreaks(fs: Fs, ino: nat, b: nat, i: nat)
    requires Inv(fs) && ino in fs.inodes && b < MAX_BLOCKS && Adopts(fs, ino, b)
    requires i < NINDIRECT && Word(fs.zones[Head(fs)], i) != 0
    ensures !Inv(Bmap(fs, ino, b, true).0)
  {
    Adopted(fs, ino);
    var z := Head(fs);
    var fs1, fs' := SetIndirect(fs, ino, z), Bmap(fs, ino, b, true).0;
    var p, e, w := Entry(ino, i), PosOf(ino, b), Word(fs.zones[z], i);
    assert fs' == fs1 || (fs' == SetEntry(fs1, ino, e.i, Head(fs1)) && ZoneAt(fs1, e) == 0 && Head(fs1) != 0);
    assert Shaped(fs') && ZoneAt(fs', p) == w;
    if w == z {
      TwoOwners(fs', p, Indirect(ino));
    } else if w in fs.taken && fs.first <= w {
      var q := StillOwned(fs, ino, b, w);
      TwoOwners(fs', p, q);
    } else if fs' != fs1 && w == Head(fs1) {
      assert ZoneAt(fs', e) == w;
      TwoOwners(fs', p, e);
    } else {
      assert w !in fs'.taken || w < fs'.first;
    }
  }

  lemma StillOwned(fs: Fs, ino: nat, b: nat, w: nat) returns (q: Pos)
    requires Inv(fs) && ino in fs.inodes && b < MAX_BLOCKS && Adopts(fs, ino, b)
    requires w != 0 && w in fs.taken && fs.first <= w
    ensures var fs' := Bmap(fs, ino, b, true).0;
      Shaped(fs') && ValidPos(fs, q) && ValidPos(fs', q) && ZoneAt(fs, q) == w && ZoneAt(fs', q) == w
  {
    Adopted(fs, ino);
    assert HasOwner(fs, w);
    q :| ValidPos(fs, q) && ZoneAt(fs, q) == w;
    assert ZoneAt(fs, Indirect(q.ino)) == fs.inodes[q.ino].indirect;
  }

  lemma TwoOwners(fs: Fs, p: Pos, q: Pos)
    requires Shaped(fs) && ValidPos(fs, p) && ValidPos(fs, q) && p != q && ZoneAt(fs, p) == ZoneAt(fs, q) != 0
    ensures !Owned(fs)
  {
  }

  /** A zone number lies in two bytes of the block, the low one first, and no other byte changes. */
  lemma PutWordBytes(b: Block, i: nat, z: nat)
    requires 2 * i + 1 < |b| && z < 0x1_0000
    ensures var r := PutWord(b, i, z);
      && r[2 * i] as int + 256 * r[2 * i + 1] as int == z
      && forall k :: 0 <= k < |b| && k / 2 != i ==> r[k] == b[k]
  {
  }
}

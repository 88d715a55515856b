/** The inode as it lies on disk: 32 little-endian bytes, 32 inodes to a block. */
module InodeCodec {
  import opened Numbers

  const INODE_BYTES := 32
  const PER_BLOCK := 32
  const FIRST_BLK := 2

  type Short = x: int | 0 <= x < 0x1_0000
  type Long = x: int | -0x8000_0000 <= x < 0x8000_0000
  type Block = b: seq<Byte> | |b| == BLOCK_SIZE witness seq(BLOCK_SIZE, _ => 0)

  /** The fields kept in memory; the disk has only a byte for each of `gid` and `nlinks`. */
  datatype Fields = Fields(mode: Short, nlinks: Short, uid: Short, gid: Short, time: Long, size: Long,
                           direct: seq<Short>, indirect: Short, dblindirect: Short)

  datatype Key = Key(dev: nat, block: nat)
  type Disk = map<Key, Block>

  datatype Id = Id(dev: nat, ino: nat)

  // ------------------------------------------------------------------ one inode

  function Le16(x: Short): (r: seq<Byte>)
    ensures |r| == 2 && (r[0] as int) + 256 * (r[1] as int) == x
  {
    [x % 256, x / 256]
  }

  function Le32(x: Long): (r: seq<Byte>)
    ensures |r| == 4
  {
    var u := if x < 0 then x + 0x1_0000_0000 else x;
    Le16(u % 0x1_0000) + Le16(u / 0x1_0000)
  }

  function Words(s: seq<Short>): (r: seq<Byte>)
    ensures |r| == 2 * |s|
    ensures forall i :: 0 <= i < |s| ==> (r[2 * i] as int) + 256 * (r[2 * i + 1] as int) == s[i]
  {
    if s == [] then [] else Words(s[..|s| - 1]) + Le16(s[|s| - 1])
  }

  function U16(b: seq<Byte>, k: nat): Short
    requires k + 1 < |b|
  {
    (b[k] as int) + 256 * (b[k + 1] as int)
  }

  function S32(b: seq<Byte>, k: nat): Long
    requires k + 3 < |b|
  {
    var u := U16(b, k) + 0x1_0000 * U16(b, k + 2);
    if u < 0x8000_0000 then u else u - 0x1_0000_0000
  }

  function Encode(f: Fields): (r: seq<Byte>)
    requires |f.direct| == NDIRECT
    ensures |r| == INODE_BYTES
  {
    Le16(f.mode) + Le16(f.uid) + Le32(f.size) + Le32(f.time) + [f.gid % 256, f.nlinks % 256]
    + Words(f.direct) + Le16(f.indirect) + Le16(f.dblindirect)
  }

  function Decode(b: seq<Byte>): (f: Fields)
    requires |b| == INODE_BYTES
    ensures |f.direct| == NDIRECT
  {
    Fields(U16(b, 0), b[13], U16(b, 2), b[12], S32(b, 8), S32(b, 4),
           seq(NDIRECT, i requires 0 <= i < NDIRECT => U16(b, 14 + 2 * i)), U16(b, 28), U16(b, 30))
  }

  /** What survives the trip to disk. */
  function Cut(f: Fields): Fields { f.(gid := f.gid % 256, nlinks := f.nlinks % 256) }

  lemma Le32RoundTrip(x: Long, b: seq<Byte>, k: nat)
    requires k + 3 < |b| && b[k..k + 4] == Le32(x)
    ensures S32(b, k) == x
  {
    var s := b[k..k + 4];
    assert s[0] == b[k] && s[1] == b[k + 1] && s[2] == b[k + 2] && s[3] == b[k + 3];
    var u := if x < 0 then x + 0x1_0000_0000 else x;
    assert s[..2] == Le16(u % 0x1_0000) && s[2..] == Le16(u / 0x1_0000);
    assert U16(b, k) == u % 0x1_0000;
    assert U16(b, k + 2) == u / 0x1_0000;
  }

  lemma DecodeEncode(f: Fields)
    requires |f.direct| == NDIRECT
    ensures Decode(Encode(f)) == Cut(f)
  {
    var b := Encode(f);
    Pieces(f);
    assert U16(b, 0) == f.mode by { assert b[0..2][0] == b[0] && b[0..2][1] == b[1]; }
    assert U16(b, 2) == f.uid by { assert b[2..4][0] == b[2] && b[2..4][1] == b[3]; }
    Le32RoundTrip(f.size, b, 4);
    Le32RoundTrip(f.time, b, 8);
    assert U16(b, 28) == f.indirect by { assert b[28..30][0] == b[28] && b[28..30][1] == b[29]; }
    assert U16(b, 30) == f.dblindirect by { assert b[30..32][0] == b[30] && b[30..32][1] == b[31]; }
    hide Encode;
    forall i | 0 <= i < NDIRECT
      ensures U16(b, 14 + 2 * i) == f.direct[i]
    {
      var w := b[14..28];
      assert w[2 * i] == b[14 + 2 * i] && w[2 * i + 1] == b[14 + 2 * i + 1];
    }
    assert Decode(b).direct == f.direct;
  }

  lemma Pieces(f: Fields)
    requires |f.direct| == NDIRECT
    ensures var b := Encode(f);
      && b[0..2] == Le16(f.mode) && b[2..4] == Le16(f.uid) && b[4..8] == Le32(f.size) && b[8..12] == Le32(f.time)
      && b[12] == f.gid % 256 && b[13] == f.nlinks % 256 && b[14..28] == Words(f.direct)
      && b[28..30] == Le16(f.indirect) && b[30..32] == Le16(f.dblindirect)
  {
    hide Le16, Le32, Words;
  }

  /** Writing an inode out and reading it back restores every field exactly when group and link count
      fit the bytes they have on disk. */
  lemma RoundTrip(f: Fields)
    requires |f.direct| == NDIRECT
    ensures Decode(Encode(f)) == f <==> f.gid < 256 && f.nlinks < 256
  {
    DecodeEncode(f);
  }

  /** Writing back an inode that was just read changes no byte of the disk. */
  lemma EncodeDecode(b: seq<Byte>)
    requires |b| == INODE_BYTES
    ensures Encode(Decode(b)) == b
  {
    var f := Decode(b);
    Pieces(f);
    Le16Back(b, 0);
    Le16Back(b, 2);
    Le32Back(b, 4);
    Le32Back(b, 8);
    Le16Back(b, 28);
    Le16Back(b, 30);
    var e := Encode(f);
    WordsBack(b, f.direct);
    hide Encode, Le16, Le32, Words, U16, S32;
    assert e == e[0..2] + e[2..4] + e[4..8] + e[8..12] + [e[12], e[13]] + e[14..28] + e[28..30] + e[30..32];
    assert b == b[0..2] + b[2..4] + b[4..8] + b[8..12] + [b[12], b[13]] + b[14..28] + b[28..30] + b[30..32];
  }

  lemma Le16Back(b: seq<Byte>, k: nat)
    requires k + 1 < |b|
    ensures Le16(U16(b, k)) == b[k..k + 2]
  {
  }

  lemma Le32Back(b: seq<Byte>, k: nat)
    requires k + 3 < |b|
    ensures Le32(S32(b, k)) == b[k..k + 4]
  {
    Le16Back(b, k);
    Le16Back(b, k + 2);
    var lo, hi := U16(b, k), U16(b, k + 2);
    hide Le16, U16;
    Halves(lo, hi);
    assert b[k..k + 4] == b[k..k + 2] + b[k + 2..k + 4];
  }

  lemma Halves(lo: Short, hi: Short)
    ensures var u: int := (lo as int) + 0x1_0000 * (hi as int); u % 0x1_0000 == lo && u / 0x1_0000 == hi
  {
  }

  lemma WordsBack(b: seq<Byte>, s: seq<Short>)
    requires |b| == INODE_BYTES && |s| == NDIRECT && forall i :: 0 <= i < NDIRECT ==> s[i] == U16(b, 14 + 2 * i)
    ensures Words(s) == b[14..28]
  {
    var w := Words(s);
    forall i | 0 <= i < NDIRECT
      ensures w[2 * i] == b[14 + 2 * i] && w[2 * i + 1] == b[15 + 2 * i]
    {
    }
    forall j | 0 <= j < 14
      ensures w[j] == b[14 + j]
    {
      assert j == 2 * (j / 2) || j == 2 * (j / 2) + 1;
    }
  }

  // ------------------------------------------------------------------ where inodes lie

  /** The block that holds an inode; `maps` is the number of inode-map and zone-map blocks before the table. */
  function InodeBlock(maps: nat, ino: nat): nat
    requires 1 <= ino
  {
    FIRST_BLK + maps + (ino - 1) / PER_BLOCK
  }

  function InodeOffset(ino: nat): nat
    requires 1 <= ino
  {
    (ino - 1) % PER_BLOCK
  }

  function BlockAt(d: Disk, k: Key): Block { if k in d then d[k] else seq(BLOCK_SIZE, _ => 0) }

  function KeyOf(maps: nat, id: Id): Key
    requires 1 <= id.ino
  {
    Key(id.dev, InodeBlock(maps, id.ino))
  }

  function Load(maps: nat, d: Disk, id: Id): (f: Fields)
    requires 1 <= id.ino
    ensures |f.direct| == NDIRECT
  {
    var at := INODE_BYTES * InodeOffset(id.ino);
    Decode(BlockAt(d, KeyOf(maps, id))[at..at + INODE_BYTES])
  }

  function Patch(b: Block, at: nat, s: seq<Byte>): (r: Block)
    requires at + |s| <= BLOCK_SIZE
    ensures r[at..at + |s|] == s
    ensures forall i, j :: 0 <= i <= j <= BLOCK_SIZE && (j <= at || at + |s| <= i) ==> r[i..j] == b[i..j]
  {
    b[..at] + s + b[at + |s|..]
  }

  function Store(maps: nat, d: Disk, id: Id, f: Fields): Disk
    requires 1 <= id.ino && |f.direct| == NDIRECT
  {
    var k := KeyOf(maps, id);
    d[k := Patch(BlockAt(d, k), INODE_BYTES * InodeOffset(id.ino), Encode(f))]
  }

  /** Distinct inode numbers have distinct, non-overlapping places. */
  lemma PlacesDisjoint(maps: nat, m: nat, n: nat)
    requires 1 <= m && 1 <= n && m != n
    ensures InodeBlock(maps, m) != InodeBlock(maps, n)
         || INODE_BYTES * InodeOffset(m) + INODE_BYTES <= INODE_BYTES * InodeOffset(n)
         || INODE_BYTES * InodeOffset(n) + INODE_BYTES <= INODE_BYTES * InodeOffset(m)
    ensures INODE_BYTES * InodeOffset(m) + INODE_BYTES <= BLOCK_SIZE
  {
  }

  /** Storing an inode is seen by loading that inode and by no other load. */
  lemma LoadAfterStore(maps: nat, d: Disk, id: Id, f: Fields, other: Id)
    requires 1 <= id.ino && 1 <= other.ino && |f.direct| == NDIRECT
    ensures Load(maps, Store(maps, d, id, f), other) == if other == id then Cut(f) else Load(maps, d, other)
  {
    hide Decode, Encode;
    DecodeEncode(f);
    if other != id && other.dev == id.dev { PlacesDisjoint(maps, id.ino, other.ino); }
    var b := BlockAt(d, KeyOf(maps, id));
    var at, at' := INODE_BYTES * InodeOffset(id.ino), INODE_BYTES * InodeOffset(other.ino);
    assert Patch(b, at, Encode(f))[at..at + INODE_BYTES] == Encode(f);
    if other != id && KeyOf(maps, other) == KeyOf(maps, id) {
      assert Patch(b, at, Encode(f))[at'..at' + INODE_BYTES] == b[at'..at' + INODE_BYTES];
    }
  }

  // ------------------------------------------------------------------ byte by byte

  /** The number that four bytes stand for, the least significant first. */
  function FourBytes(b: seq<Byte>, k: nat): nat
    requires k + 3 < |b|
  {
    b[k] as int + 0x100 * b[k + 1] as int + 0x1_0000 * b[k + 2] as int + 0x100_0000 * b[k + 3] as int
  }

  function TwoBytes(b: seq<Byte>, k: nat): nat
    requires k + 1 < |b|
  {
    b[k] as int + 0x100 * b[k + 1] as int
  }

  /** A number as 32 bits, negative ones by two's complement. */
  function Unsigned(x: Long): nat { if x < 0 then x + 0x1_0000_0000 else x as int }

  lemma Le32Bytes(x: Long)
    ensures FourBytes(Le32(x), 0) == Unsigned(x)
  {
    var r, u := Le32(x), Unsigned(x);
    assert r[..2] == Le16(u % 0x1_0000) && r[2..] == Le16(u / 0x1_0000);
    assert TwoBytes(r, 0) == u % 0x1_0000 && TwoBytes(r, 2) == u / 0x1_0000;
  }

  /** The inode on disk: mode, owner, size, time, group, links, seven zones, and the two indirect zones. */
  lemma OnDisk(f: Fields)
    requires |f.direct| == NDIRECT
    ensures var b := Encode(f);
      && TwoBytes(b, 0) == f.mode && TwoBytes(b, 2) == f.uid
      && FourBytes(b, 4) == Unsigned(f.size) && FourBytes(b, 8) == Unsigned(f.time)
      && b[12] == f.gid % 256 && b[13] == f.nlinks % 256
      && (forall i :: 0 <= i < NDIRECT ==> TwoBytes(b, 14 + 2 * i) == f.direct[i])
      && TwoBytes(b, 28) == f.indirect && TwoBytes(b, 30) == f.dblindirect
  {
    var b := Encode(f);
    Pieces(f);
    Le32Bytes(f.size);
    Le32Bytes(f.time);
    hide Encode, Le32;
    PartFour(b, 4, Le32(f.size));
    PartFour(b, 8, Le32(f.time));
    PartTwo(b, 0, Le16(f.mode));
    PartTwo(b, 2, Le16(f.uid));
    PartTwo(b, 28, Le16(f.indirect));
    PartTwo(b, 30, Le16(f.dblindirect));
    forall i | 0 <= i < NDIRECT
      ensures TwoBytes(b, 14 + 2 * i) == f.direct[i]
    {
      var w := b[14..28];
      assert w[2 * i] == b[14 + 2 * i] && w[2 * i + 1] == b[14 + 2 * i + 1];
    }
  }

  lemma PartTwo(b: seq<Byte>, k: nat, s: seq<Byte>)
    requires k + 1 < |b| && |s| == 2 && b[k..k + 2] == s
    ensures TwoBytes(b, k) == TwoBytes(s, 0)
  {
    assert s[0] == b[k] && s[1] == b[k + 1];
  }

  lemma PartFour(b: seq<Byte>, k: nat, s: seq<Byte>)
    requires k + 3 < |b| && |s| == 4 && b[k..k + 4] == s
    ensures FourBytes(b, k) == FourBytes(s, 0)
  {
    assert s[0] == b[k] && s[1] == b[k + 1] && s[2] == b[k + 2] && s[3] == b[k + 3];
  }

  /** Inodes lie one behind the other, number 1 first, behind the boot block, the superblock and the maps. */
  lemma PlaceLinear(maps: nat, ino: nat)
    requires 1 <= ino
    ensures InodeBlock(maps, ino) * BLOCK_SIZE + InodeOffset(ino) * INODE_BYTES
         == (2 + maps) * BLOCK_SIZE + (ino - 1) * INODE_BYTES
    ensures (InodeOffset(ino) + 1) * INODE_BYTES <= BLOCK_SIZE
  {
  }
}

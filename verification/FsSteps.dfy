/** One turn of the loops of `readi` and `writei`. */
module FsSteps {
  import opened Numbers
  import opened FsSpec
  import opened FsData

  lemma ByteRead(fs: Fs, ino: nat, m: nat, n: nat, i: nat)
    requires Inv(fs) && ino in fs.inodes && i < n && m + n <= fs.inodes[ino].size && m % BLOCK_SIZE + n <= BLOCK_SIZE
    ensures m / BLOCK_SIZE < MAX_BLOCKS
    ensures var z := BlockOf(fs, ino, m / BLOCK_SIZE);
      0 < z < |fs.zones| && |fs.zones[z]| == BLOCK_SIZE && fs.zones[z][m % BLOCK_SIZE + i] == File(fs, ino)[m + i]
  {
    ByteOfFile(fs, ino, m + i);
    SegmentByte(m, n, m + i);
    OwnedZone(fs, PosOf(ino, m / BLOCK_SIZE));
    hide Owned, NoLeaks, Filled, File;
  }

  /** What a read copies out of one block is that part of the contents. */
  lemma SegmentRead(fs: Fs, ino: nat, m: nat, n: nat)
    requires Inv(fs) && ino in fs.inodes && 0 < n && m + n <= fs.inodes[ino].size && m % BLOCK_SIZE + n <= BLOCK_SIZE
    ensures m / BLOCK_SIZE < MAX_BLOCKS
    ensures var z := BlockOf(fs, ino, m / BLOCK_SIZE);
      && 0 < z < |fs.zones| && |fs.zones[z]| == BLOCK_SIZE
      && fs.zones[z][m % BLOCK_SIZE..m % BLOCK_SIZE + n] == File(fs, ino)[m..m + n]
  {
    ByteRead(fs, ino, m, n, 0);
    hide Owned, NoLeaks, Filled, BlockOf, Shaped;
    var blk, off := fs.zones[BlockOf(fs, ino, m / BLOCK_SIZE)], m % BLOCK_SIZE;
    var want := File(fs, ino)[m..m + n];
    forall i | 0 <= i < n
      ensures blk[off..off + n][i] == want[i]
    {
      ByteRead(fs, ino, m, n, i);
    }
  }

  /** The rest of the loop starts at the next block. */
  lemma NextSegment(m: nat, remaining: nat)
    requires 0 < remaining
    ensures var n := Min(BLOCK_SIZE - m % BLOCK_SIZE, remaining);
      && 0 < n <= remaining
      && (n < remaining ==> (m + n) % BLOCK_SIZE == 0 && (m + n) / BLOCK_SIZE == m / BLOCK_SIZE + 1)
      && (n == remaining ==> Blocks(m + n) == m / BLOCK_SIZE + 1)
      && (m / BLOCK_SIZE < MAX_BLOCKS ==> m + n <= MAX_BYTES)
  {
  }

  /** Blocks a file of `size` bytes takes. */
  function Blocks(size: nat): nat { (size + BLOCK_SIZE - 1) / BLOCK_SIZE }

  /** The first block of a write of `n` bytes at `m`, and the block behind its last, or behind the last that
      `bmap` knows. */
  function First(m: nat): nat { m / BLOCK_SIZE }

  function Last(m: nat, n: nat): nat { if n == 0 then First(m) else Min(Blocks(m + n), MAX_BLOCKS) }

  lemma BlockBelow(m: nat, end: nat)
    requires m < end
    ensures First(m) < MAX_BLOCKS ==> First(m) < Min(Blocks(end), MAX_BLOCKS)
    ensures First(m) >= MAX_BLOCKS ==> end > MAX_BYTES && First(m) >= Min(Blocks(end), MAX_BLOCKS)
  {
  }

  /** The write of `s` at `orig`, begun in `fs0`, has come as far as `fs`. */
  ghost predicate InLoop(fs0: Fs, fs: Fs, ino: nat, orig: nat, s: seq<Byte>) {
    && Inv(fs0) && ino in fs0.inodes && Turn(fs0, fs, ino, orig, s)
    && Inv(fs) && ino in fs.inodes && orig + |s| <= MAX_BYTES
  }

  ghost predicate ReadyAt(fs: Fs, ino: nat, lo: nat, hi: nat) {
    Shaped(fs) && ino in fs.inodes && lo <= hi <= MAX_BLOCKS && Ready(fs, ino, lo, hi)
  }

  /** From block `b` on all is ready exactly if it is from the next block on. */
  ghost predicate ReadyOn(fs: Fs, fs2: Fs, ino: nat, b: nat, hi: nat) {
    if b + 1 < hi then ReadyAt(fs2, ino, b + 1, hi) <==> ReadyAt(fs, ino, b, hi) else ReadyAt(fs, ino, b, hi)
  }

  /** The block `z` with `seg` put at `off`. */
  function PutSegment(fs: Fs, z: nat, off: nat, seg: seq<Byte>): Fs {
    if z < |fs.zones| && off + |seg| <= |fs.zones[z]| then PutBlock(fs, z, Overlay(fs.zones[z], off, seg)) else fs
  }

  /** Reaching a block and putting a segment into it extends the write by that segment. */
  lemma WriteStep(fs0: Fs, fs: Fs, ino: nat, orig: nat, s: seq<Byte>, seg: seq<Byte>, b: nat, hi: nat)
    requires Shaped(fs) && ino in fs.inodes && InLoop(fs0, fs, ino, orig, s)
    requires b == (orig + |s|) / BLOCK_SIZE < hi <= MAX_BLOCKS && Reachable(fs, ino, b)
    requires (orig + |s|) % BLOCK_SIZE + |seg| <= BLOCK_SIZE
    ensures Bmap(fs, ino, b, true).1 < |Bmap(fs, ino, b, true).0.zones|
    ensures |Bmap(fs, ino, b, true).0.zones[Bmap(fs, ino, b, true).1]| == BLOCK_SIZE
    ensures var fs2 := PutSegment(Bmap(fs, ino, b, true).0, Bmap(fs, ino, b, true).1, (orig + |s|) % BLOCK_SIZE, seg);
            InLoop(fs0, fs2, ino, orig, s + seg) && ReadyOn(fs, fs2, ino, b, hi)
  {
    hide Owned, NoLeaks, Filled, Turn, Ready, Unmapped, Free, Clean;
    BmapGrows(fs, ino, b);
    var (fs1, z) := Bmap(fs, ino, b, true);
    if b < NDIRECT { BmapDirect(fs, ino, b); }
    hide Bmap, Grown, Extends;
    Reached(fs0, fs, fs1, z, ino, orig, s, seg, b, hi);
  }

  lemma Reached(fs0: Fs, fs: Fs, fs1: Fs, z: nat, ino: nat, orig: nat, s: seq<Byte>, seg: seq<Byte>, b: nat, hi: nat)
    requires Shaped(fs) && ino in fs.inodes && InLoop(fs0, fs, ino, orig, s)
    requires b == (orig + |s|) / BLOCK_SIZE < hi <= MAX_BLOCKS && Reachable(fs, ino, b)
    requires (orig + |s|) % BLOCK_SIZE + |seg| <= BLOCK_SIZE
    requires Inv(fs1) && Grown(fs, fs1, ino, b) && ino in fs1.inodes && z == BlockOf(fs1, ino, b) != 0
    requires b < NDIRECT ==> fs1.zones == fs.zones
    ensures z < |fs1.zones| && |fs1.zones[z]| == BLOCK_SIZE
    ensures var fs2 := PutSegment(fs1, z, (orig + |s|) % BLOCK_SIZE, seg);
            InLoop(fs0, fs2, ino, orig, s + seg) && ReadyOn(fs, fs2, ino, b, hi)
  {
    hide Owned, NoLeaks, Filled, Turn, Ready, ZoneAt, Extends, Unmapped, Free;
    ReachedZone(fs1, ino, b);
    var m := orig + |s|;
    var blk := Overlay(fs1.zones[z], m % BLOCK_SIZE, seg);
    var fs2 := PutBlock(fs1, z, blk);
    assert fs2 == PutSegment(fs1, z, m % BLOCK_SIZE, seg);
    ReachedTurn(fs0, fs, fs1, ino, orig, s, seg);
    hide InLoop, PutSegment, Grown, Reachable;
    assert Inv(fs2);
    ReadyNow(fs, ino, b, hi);
    ReadyNext(fs, fs1, fs2, ino, b, hi, blk);
  }

  lemma ReachedZone(fs: Fs, ino: nat, b: nat)
    requires Inv(fs) && ino in fs.inodes && b < MAX_BLOCKS
    ensures BlockOf(fs, ino, b) < |fs.zones| && |fs.zones[BlockOf(fs, ino, b)]| == BLOCK_SIZE
  {
    OwnedZone(fs, PosOf(ino, b));
  }

  lemma ReachedTurn(fs0: Fs, fs: Fs, fs1: Fs, ino: nat, orig: nat, s: seq<Byte>, seg: seq<Byte>)
    requires Inv(fs) && ino in fs.inodes && Inv(fs1) && ino in fs1.inodes && Extends(fs, fs1)
    requires InLoop(fs0, fs, ino, orig, s) && (orig + |s|) / BLOCK_SIZE < MAX_BLOCKS
    requires (orig + |s|) % BLOCK_SIZE + |seg| <= BLOCK_SIZE && BlockOf(fs1, ino, (orig + |s|) / BLOCK_SIZE) != 0
    ensures var fs2 := PutSegment(fs1, BlockOf(fs1, ino, (orig + |s|) / BLOCK_SIZE), (orig + |s|) % BLOCK_SIZE, seg);
            InLoop(fs0, fs2, ino, orig, s + seg) && Inv(fs2)
  {
    hide Owned, NoLeaks, Filled, Turn, ZoneAt, Extends;
    var m := orig + |s|;
    ReachedZone(fs1, ino, m / BLOCK_SIZE);
    PutTurn(fs1, ino, m, seg);
    hide Shaped, BlockOf;
    InLoopGrown(fs0, fs, fs1, ino, orig, s);
    InLoopNext(fs0, fs1, PutSegment(fs1, BlockOf(fs1, ino, m / BLOCK_SIZE), m % BLOCK_SIZE, seg), ino, orig, s, seg);
  }

  lemma InLoopGrown(fs0: Fs, fs: Fs, fs1: Fs, ino: nat, orig: nat, s: seq<Byte>)
    requires InLoop(fs0, fs, ino, orig, s) && Inv(fs) && Inv(fs1) && Extends(fs, fs1)
    ensures InLoop(fs0, fs1, ino, orig, s)
  {
    hide Shaped, Owned, NoLeaks, Filled, Turn, Extends;
    GrowthTurn(fs, fs1, ino, orig + |s|);
    InLoopNext(fs0, fs, fs1, ino, orig, s, []);
    assert s + [] == s;
  }

  lemma InLoopNext(fs0: Fs, fs: Fs, fs': Fs, ino: nat, orig: nat, s: seq<Byte>, seg: seq<Byte>)
    requires InLoop(fs0, fs, ino, orig, s) && Inv(fs) && ino in fs.inodes && Turn(fs, fs', ino, orig + |s|, seg)
    ensures InLoop(fs0, fs', ino, orig, s + seg)
  {
    hide Shaped, Owned, NoLeaks, Filled, TurnByte, OthersSame;
    TurnTwice(fs0, fs, fs', ino, orig, s, seg);
  }
}

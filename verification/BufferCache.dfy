/** The kernel's buffer cache: a table of buffers updated in place and a linked ring of free ones. */
module BufferCache {
  import opened BufSpec
  import FreeRing

  class BufferCache {
    const bcache: array<Buf>
    const ring: FreeRing.Ring
    var disk: map<Key, Block>
    ghost var stamps: seq<nat>
    ghost var clock: nat

    ghost function Repr(): set<object>
      reads this
    {
      {this, bcache, ring, ring.next, ring.prev}
    }

    ghost function Now(): Cache
      reads this, bcache, ring
    {
      Cache(bcache[..], ring.order, disk, stamps, clock)
    }

    ghost predicate Valid()
      reads Repr()
    {
      bcache.Length == NBUF && ring.head == NBUF && ring.Valid() && Inv(Now())
    }

    /** `buf_init`: every buffer starts nameless on the ring. */
    constructor (disk: map<Key, Block>)
      ensures Valid() && Now() == Initial(disk) && fresh(bcache) && fresh(ring) && fresh(ring.next) && fresh(ring.prev)
    {
      bcache := new Buf[NBUF](_ => NO_BUF);
      ring := new FreeRing.Ring(NBUF);
      this.disk := disk;
      stamps, clock := seq(NBUF, i => i), NBUF;
      new;
      var b := 0;
      while b < NBUF
        invariant b <= NBUF && ring.Valid() && ring.head == NBUF && fresh(ring.next) && fresh(ring.prev)
        invariant |ring.order| == b && forall i :: 0 <= i < b ==> ring.order[i] == i
        invariant bcache[..] == seq(NBUF, _ => NO_BUF)
        modifies ring, ring.next, ring.prev
      {
        ring.Append(b);
        b := b + 1;
      }
      assert ring.order == seq(NBUF, i => i);
      InitialInv(disk);
    }

    /** Take a buffer off the ring. */
    method Unqueue(i: nat)
      requires Valid() && i in ring.order
      modifies ring`order, ring.next, ring.prev
      ensures ring.Valid() && ring.order == Without(old(ring.order), i)
    {
      ghost var k :| 0 <= k < |ring.order| && ring.order[k] == i;
      OrderDistinct(Now());
      WithoutIs(ring.order, k);
      ring.Remove(i, k);
    }

    /** A hit on a buffer that is not busy: one more reference, and off the ring if it was free. */
    method Share(b: nat, ghost k: Key)
      requires Valid() && k.dev >= 0 && b < NBUF && b == Lookup(bcache[..], k, 0) && !bcache[b].busy
      modifies bcache, ring`order, ring.next, ring.prev
      ensures ring.Valid() && (Now(), Buffer(b)) == BufSpec.GetBlk(old(Now()), k)
    {
      ghost var c := Now();
      FreeMember(c, b);
      if bcache[b].refs == 0 {
        Unqueue(b);
      }
      hide Inv, Lookup, Without;
      bcache[b] := bcache[b].(refs := bcache[b].refs + 1);
      assert bcache[..] == c.bufs[b := bcache[b]];
    }

    /** A miss: the least recently released buffer gets a new name.  It is never dirty, so the write
        that the code would do here first is not reached. */
    method Recycle(k: Key) returns (g: Got)
      requires Valid() && k.dev >= 0 && Lookup(bcache[..], k, 0) == NBUF
      modifies bcache, ring`order, ring.next, ring.prev
      ensures ring.Valid() && (Now(), g) == BufSpec.GetBlk(old(Now()), k)
    {
      ghost var c := Now();
      var v := ring.First();
      if v == NBUF {
        return NoneFree;
      }
      VictimClean(c);
      if bcache[v].dirty {
        assert false;
      }
      hide Inv, Lookup, Without;
      bcache[v] := Buf(k, false, true, false, false, 1, bcache[v].data);
      ring.Remove(v, 0);
      assert c.free[..0] + c.free[1..] == c.free[1..];
      assert bcache[..] == c.bufs[v := bcache[v]];
      return Buffer(v);
    }

    /** `getblk`: a buffer for the block, or the buffer on which the caller has to sleep before trying again. */
    method GetBlk(k: Key) returns (g: Got)
      requires Valid() && k.dev >= 0
      modifies bcache, ring`order, ring.next, ring.prev
      ensures Valid() && (Now(), g) == BufSpec.GetBlk(old(Now()), k)
    {
      ghost var c := Now();
      GetBlkKeepsInv(c, k);
      var b := 0;
      while b < NBUF
        invariant b <= NBUF && Lookup(c.bufs, k, 0) == Lookup(c.bufs, k, b)
      {
        if bcache[b].key == k {
          hide Inv;
          if bcache[b].busy {
            bcache[b] := bcache[b].(wanted := true);
            assert bcache[..] == c.bufs[b := bcache[b]];
            return MustSleep(b);
          }
          Share(b, k);
          return Buffer(b);
        }
        b := b + 1;
      }
      hide Inv, BufSpec.GetBlk;
      g := Recycle(k);
    }

    /** `bread`: the block's contents, from the cache or the device. */
    method Bread(k: Key) returns (g: Got)
      requires Valid() && k.dev >= 0
      modifies bcache, ring`order, ring.next, ring.prev
      ensures Valid() && (Now(), g) == BufSpec.Bread(old(Now()), k)
    {
      ghost var c := Now();
      BreadKeepsInv(c, k);
      GetBlkKeepsView(c, k, k);
      g := GetBlk(k);
      hide Inv;
      if g.Buffer? && !bcache[g.index].done {
        ghost var c1 := Now();
        bcache[g.index] := bcache[g.index].(data := OnDisk(disk, k), done := true, wanted := false);
        assert bcache[..] == c1.bufs[g.index := bcache[g.index]];
      }
    }

    /** The device half of `bwrite`: flags are cleared, the block goes out, completion is signalled. */
    method BwriteBuffer(i: nat)
      requires bcache.Length == NBUF && i < NBUF
      modifies bcache, this`disk
      ensures Now() == WriteBack(old(Now()), i)
    {
      ghost var bufs := bcache[..];
      bcache[i] := bcache[i].(dirty := false, done := false);
      disk := disk[bcache[i].key := bcache[i].data];
      bcache[i] := bcache[i].(done := true, wanted := false);
      assert bcache[..] == bufs[i := bcache[i]];
    }

    /** `bwrite` of a held buffer. */
    method Bwrite(i: nat)
      requires Valid() && i < NBUF && bcache[i].refs > 0
      modifies bcache, this`disk
      ensures Valid() && Now() == WriteBack(old(Now()), i)
    {
      WriteBackKeepsInv(Now(), i);
      hide Inv;
      BwriteBuffer(i);
    }

    /** `brelse`: drop a reference and queue the buffer when it was the last. */
    method Brelse(i: nat)
      requires Valid() && i < NBUF && bcache[i].refs > 0 && Settled(Now(), i)
      modifies bcache, this`disk, this`stamps, this`clock, ring`order, ring.next, ring.prev
      ensures Valid() && Now() == BufSpec.Brelse(old(Now()), i)
    {
      ghost var c := Now();
      BrelseKeepsInv(c, i);
      HeldNotFree(c, i);
      hide Inv, Settled;
      DropRef(i);
      if bcache[i].refs == 0 {
        if bcache[i].dirty {
          BwriteBuffer(i);
        }
        if !bcache[i].dirty {
          ring.Append(i);
          stamps, clock := stamps[i := clock], clock + 1;
        }
      }
    }

    /** One holder less, and no longer busy. */
    method DropRef(i: nat)
      requires bcache.Length == NBUF && i < NBUF && bcache[i].refs > 0
      modifies bcache
      ensures bcache[..] == old(bcache[..])
          [i := old(bcache[i]).(wanted := false, busy := false, refs := old(bcache[i]).refs - 1)]
    {
      ghost var bufs := bcache[..];
      bcache[i] := bcache[i].(wanted := false, busy := false);
      bcache[i] := bcache[i].(refs := bcache[i].refs - 1);
      assert bcache[..] == bufs[i := bcache[i]];
    }

    /** The holder of a buffer changes its contents, or marks it to be written on release. */
    method Modify(i: nat, data: Block, dirty: bool)
      requires Valid() && i < NBUF && bcache[i].refs > 0 && bcache[i].done
      modifies bcache
      ensures Valid() && Now() == BufSpec.Modify(old(Now()), i, data, dirty)
    {
      ghost var c := Now();
      ModifyView(c, i, data, dirty, c.bufs[i].key);
      hide Inv;
      bcache[i] := bcache[i].(data := data, dirty := bcache[i].dirty || dirty);
      assert bcache[..] == c.bufs[i := bcache[i]];
    }
  }

  lemma OrderDistinct(c: Cache)
    requires Inv(c)
    ensures forall i, j :: 0 <= i < j < |c.free| ==> c.free[i] != c.free[j]
  {
  }

  lemma FreeMember(c: Cache, i: nat)
    requires Inv(c) && i < NBUF
    ensures i in c.free <==> c.bufs[i].refs == 0
  {
  }

  lemma HeldNotFree(c: Cache, i: nat)
    requires Inv(c) && i < NBUF && c.bufs[i].refs > 0
    ensures i !in c.free && |c.stamps| == NBUF && c.bufs[i].key.dev >= 0
  {
    assert BufInv(c.bufs[i], c.disk);
  }
}

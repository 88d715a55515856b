/** The block buffer cache as a value: a table of buffers, the free buffers in the order they were
    released, and the disk behind them.  Device transfers complete within the call that starts them. */
module BufSpec {
  import opened Numbers

  const NBUF := 64

  type Block = seq<Octet>

  datatype Key = Key(dev: int, block: nat)

  /** One buffer header with its flags. */
  datatype Buf = Buf(key: Key, done: bool, busy: bool, wanted: bool, dirty: bool, refs: nat, data: Block)

  /** `stamps` records when each buffer was last released, `clock` the number of releases so far. */
  datatype Cache = Cache(bufs: seq<Buf>, free: seq<nat>, disk: map<Key, Block>, stamps: seq<nat>, clock: nat)

  datatype Got = Buffer(index: nat) | MustSleep(index: nat) | NoneFree


  function OnDisk(disk: map<Key, Block>, k: Key): Block { if k in disk then disk[k] else [] }

  /** The first buffer that holds the block, or the size of the table. */
  function Lookup(bufs: seq<Buf>, k: Key, from: nat): (i: nat)
    requires from <= |bufs|
    ensures from <= i <= |bufs| && (i < |bufs| ==> bufs[i].key == k)
    ensures forall j :: from <= j < i ==> bufs[j].key != k
    decreases |bufs| - from
  {
    if from == |bufs| || bufs[from].key == k then from else Lookup(bufs, k, from + 1)
  }

  /** A sequence without the element `x`. */
  function Without(s: seq<nat>, x: nat): (r: seq<nat>)
    ensures forall y :: y in r <==> y in s && y != x
  {
    if s == [] then [] else if s[0] == x then Without(s[1..], x) else [s[0]] + Without(s[1..], x)
  }

  function WriteBack(c: Cache, i: nat): Cache
    requires i < |c.bufs|
  {
    var b := c.bufs[i];
    c.(bufs := c.bufs[i := b.(dirty := false, done := true, wanted := false)], disk := c.disk[b.key := b.data])
  }

  /** `getblk`: share a cached block, wait for a busy one, or recycle the least recently released. */
  function GetBlk(c: Cache, k: Key): (Cache, Got)
    requires |c.bufs| == NBUF && forall m :: 0 <= m < |c.free| ==> c.free[m] < NBUF
  {
    var i := Lookup(c.bufs, k, 0);
    if i < NBUF then
      var b := c.bufs[i];
      if b.busy then (c.(bufs := c.bufs[i := b.(wanted := true)]), MustSleep(i))
      else (c.(bufs := c.bufs[i := b.(refs := b.refs + 1)],
               free := if b.refs == 0 then Without(c.free, i) else c.free), Buffer(i))
    else if c.free == [] then (c, NoneFree)
    else
      var v := c.free[0];
      var c' := if c.bufs[v].dirty then WriteBack(c, v) else c;
      (c'.(bufs := c'.bufs[v := Buf(k, false, true, false, false, 1, c'.bufs[v].data)], free := c.free[1..]), Buffer(v))
  }

  /** `bread`: the buffer, filled from the device unless it is already valid. */
  function Bread(c: Cache, k: Key): (Cache, Got)
    requires |c.bufs| == NBUF && forall m :: 0 <= m < |c.free| ==> c.free[m] < NBUF
  {
    var (c', g) := GetBlk(c, k);
    if g.Buffer? && !c'.bufs[g.index].done
    then
      var b := c'.bufs[g.index].(data := OnDisk(c'.disk, k), done := true, wanted := false);
      (c'.(bufs := c'.bufs[g.index := b]), g)
    else (c', g)
  }

  /** `brelse`: drop a reference; the last one writes a dirty buffer back and queues it as free. */
  function Brelse(c: Cache, i: nat): Cache
    requires i < |c.bufs| && c.bufs[i].refs > 0 && |c.stamps| == |c.bufs|
  {
    var b := c.bufs[i].(wanted := false, busy := false, refs := c.bufs[i].refs - 1);
    var c1 := c.(bufs := c.bufs[i := b]);
    if b.refs > 0 then c1
    else
      var c2 := if b.dirty then WriteBack(c1, i) else c1;
      c2.(free := c.free + [i], stamps := c.stamps[i := c.clock], clock := c.clock + 1)
  }

  /** The client of a held buffer changes its contents in place. */
  function Modify(c: Cache, i: nat, data: Block, dirty: bool): Cache
    requires i < |c.bufs|
  {
    c.(bufs := c.bufs[i := c.bufs[i].(data := data, dirty := c.bufs[i].dirty || dirty)])
  }

  // ------------------------------------------------------------------ the invariant

  /** What one buffer must satisfy: free ones are clean copies of the disk, held ones name a device. */
  predicate BufInv(b: Buf, disk: map<Key, Block>) {
    && (b.refs == 0 ==> !b.dirty && !b.busy && (b.done && b.key.dev >= 0 ==> b.data == OnDisk(disk, b.key)))
    && (b.refs > 0 ==> b.key.dev >= 0)
  }

  ghost predicate OneBufferPerBlock(bufs: seq<Buf>) {
    forall i, j :: 0 <= i < j < |bufs| && bufs[i].key.dev >= 0 ==> bufs[i].key != bufs[j].key
  }

  /** Released one after the other. */
  ghost predicate Rising(free: seq<nat>, stamps: seq<nat>) {
    forall m, n :: 0 <= m < n < |free| && free[m] < |stamps| && free[n] < |stamps| ==> stamps[free[m]] < stamps[free[n]]
  }

  /** The ring holds exactly the unreferenced buffers, in the order they were released. */
  ghost predicate FreeInOrder(c: Cache) {
    && |c.stamps| == |c.bufs|
    && (forall m :: 0 <= m < |c.free| ==> c.free[m] < |c.bufs|)
    && (forall i :: 0 <= i < |c.bufs| ==> (i in c.free <==> c.bufs[i].refs == 0))
    && Rising(c.free, c.stamps)
    && (forall i :: 0 <= i < |c.stamps| ==> c.stamps[i] < c.clock)
  }

  ghost predicate Inv(c: Cache) {
    && |c.bufs| == NBUF
    && FreeInOrder(c)
    && OneBufferPerBlock(c.bufs)
    && forall i :: 0 <= i < NBUF ==> BufInv(c.bufs[i], c.disk)
  }

  /** What a reader of the block sees: the cached copy when it is valid, else the disk. */
  function View(c: Cache, k: Key): Block
  {
    var i := Lookup(c.bufs, k, 0);
    if i < |c.bufs| && c.bufs[i].done then c.bufs[i].data else OnDisk(c.disk, k)
  }

  // ------------------------------------------------------------------ proofs

  lemma LookupIs(bufs: seq<Buf>, k: Key, i: nat)
    requires OneBufferPerBlock(bufs) && i < |bufs| && bufs[i].key == k && k.dev >= 0
    ensures Lookup(bufs, k, 0) == i
  {
  }

  /** In a ring without repetitions the element goes and everything else stays in place. */
  lemma {:induction false} WithoutIs(s: seq<nat>, k: nat)
    requires k < |s| && forall i, j :: 0 <= i < j < |s| ==> s[i] != s[j]
    ensures Without(s, s[k]) == s[..k] + s[k + 1..]
  {
    if k == 0 {
      WithoutAbsent(s[1..], s[0]);
    } else {
      WithoutIs(s[1..], k - 1);
    }
  }

  lemma {:induction false} WithoutAbsent(s: seq<nat>, x: nat)
    requires x !in s
    ensures Without(s, x) == s
  {
    if s != [] { WithoutAbsent(s[1..], x); }
  }

  lemma {:induction false} WithoutRising(s: seq<nat>, x: nat, stamps: seq<nat>)
    requires Rising(s, stamps) && forall m :: 0 <= m < |s| ==> s[m] < |stamps|
    ensures Rising(Without(s, x), stamps) && forall m :: 0 <= m < |Without(s, x)| ==> Without(s, x)[m] < |stamps|
  {
    if s != [] {
      var t := s[1..];
      RisingTail(s, stamps);
      WithoutRising(t, x, stamps);
      var r := Without(t, x);
      forall m | 0 <= m < |r|
        ensures stamps[s[0]] < stamps[r[m]]
      {
        hide Without, Rising;
        assert r[m] in t;
        var n :| 0 <= n < |t| && t[n] == r[m];
        FirstIsLeast(s, stamps, n + 1);
      }
      if s[0] != x { RisingFront(s[0], r, stamps); }
    }
  }

  lemma RisingTail(s: seq<nat>, stamps: seq<nat>)
    requires Rising(s, stamps) && s != [] && forall m :: 0 <= m < |s| ==> s[m] < |stamps|
    ensures Rising(s[1..], stamps) && forall m :: 0 <= m < |s[1..]| ==> s[1..][m] < |stamps|
  {
    assert forall m :: 0 <= m < |s[1..]| ==> s[1..][m] == s[m + 1];
  }

  lemma FirstIsLeast(s: seq<nat>, stamps: seq<nat>, n: nat)
    requires Rising(s, stamps) && 0 < n < |s| && forall m :: 0 <= m < |s| ==> s[m] < |stamps|
    ensures stamps[s[0]] < stamps[s[n]]
  {
  }

  lemma RisingFront(a: nat, r: seq<nat>, stamps: seq<nat>)
    requires Rising(r, stamps) && a < |stamps|
        && forall m :: 0 <= m < |r| ==> r[m] < |stamps| && stamps[a] < stamps[r[m]]
    ensures Rising([a] + r, stamps) && forall m :: 0 <= m < |[a] + r| ==> ([a] + r)[m] < |stamps|
  {
  }

  lemma {:induction false} SameKeysSameLookup(bufs: seq<Buf>, bufs': seq<Buf>, k: Key, from: nat)
    requires from <= |bufs| == |bufs'| && forall i :: 0 <= i < |bufs| ==> bufs[i].key == bufs'[i].key
    ensures Lookup(bufs, k, from) == Lookup(bufs', k, from)
    decreases |bufs| - from
  {
    if from < |bufs| && bufs[from].key != k { SameKeysSameLookup(bufs, bufs', k, from + 1); }
  }

  /** The buffers differ in buffer `i` only, which keeps its key. */
  ghost predicate SameBut(bufs: seq<Buf>, bufs': seq<Buf>, i: nat) {
    i < |bufs| == |bufs'| && bufs' == bufs[i := bufs'[i]] && bufs'[i].key == bufs[i].key
  }

  lemma SameButUnique(bufs: seq<Buf>, bufs': seq<Buf>, i: nat)
    requires SameBut(bufs, bufs', i) && OneBufferPerBlock(bufs)
    ensures OneBufferPerBlock(bufs')
  {
  }

  lemma SameButView(c: Cache, c': Cache, i: nat, k: Key)
    requires SameBut(c.bufs, c'.bufs, i) && (k != c.bufs[i].key ==> OnDisk(c'.disk, k) == OnDisk(c.disk, k))
    requires k == c.bufs[i].key ==> OneBufferPerBlock(c.bufs) && k.dev >= 0
    ensures View(c', k) == if k != c.bufs[i].key then View(c, k)
                           else if c'.bufs[i].done then c'.bufs[i].data else OnDisk(c'.disk, k)
  {
    SameKeysSameLookup(c.bufs, c'.bufs, k, 0);
    if k == c.bufs[i].key { LookupIs(c.bufs, k, i); }
  }

  /** The invariant after a change to buffer `i`, the disk left as it was. */
  lemma BufferChanged(c: Cache, c': Cache, i: nat)
    requires Inv(c) && SameBut(c.bufs, c'.bufs, i) && c'.disk == c.disk
    requires BufInv(c'.bufs[i], c.disk) && FreeInOrder(c')
    ensures Inv(c')
  {
    hide FreeInOrder;
    SameButUnique(c.bufs, c'.bufs, i);
    hide OneBufferPerBlock;
    forall j | 0 <= j < NBUF
      ensures BufInv(c'.bufs[j], c'.disk)
    {
      assert BufInv(c.bufs[j], c.disk);
    }
  }

  /** Taking buffer `i` off the ring, or keeping a held one off it. */
  lemma FreeWithout(c: Cache, c': Cache, i: nat)
    requires FreeInOrder(c) && SameBut(c.bufs, c'.bufs, i) && c'.stamps == c.stamps && c'.clock == c.clock
    requires c'.bufs[i].refs > 0 && c'.free == Without(c.free, i)
    ensures FreeInOrder(c')
  {
    WithoutRising(c.free, i, c.stamps);
  }

  lemma FreeSame(c: Cache, c': Cache, i: nat)
    requires FreeInOrder(c) && SameBut(c.bufs, c'.bufs, i) && c'.stamps == c.stamps && c'.clock == c.clock
    requires (c'.bufs[i].refs == 0 <==> c.bufs[i].refs == 0) && c'.free == c.free
    ensures FreeInOrder(c')
  {
    hide Rising;
  }

  /** A hit or a sleep changes only the reference count and the wanted flag of one buffer. */
  lemma HitKeepsInv(c: Cache, k: Key)
    requires Inv(c) && k.dev >= 0 && Lookup(c.bufs, k, 0) < NBUF
    ensures Inv(GetBlk(c, k).0)
  {
    var i := Lookup(c.bufs, k, 0);
    var c' := GetBlk(c, k).0;
    assert BufInv(c.bufs[i], c.disk);
    if c.bufs[i].refs == 0 { FreeWithout(c, c', i); } else { FreeSame(c, c', i); }
    hide FreeInOrder, OneBufferPerBlock, Lookup, Without;
    BufferChanged(c, c', i);
  }

  /** No free buffer is dirty: recycling one never has to write it first. */
  lemma VictimClean(c: Cache)
    requires Inv(c) && c.free != []
    ensures var v := c.free[0]; v < NBUF && c.bufs[v].refs == 0 && !c.bufs[v].dirty && !c.bufs[v].busy
    ensures forall j :: 0 <= j < NBUF && c.bufs[j].refs == 0 ==> c.stamps[c.free[0]] <= c.stamps[j]
  {
    var v := c.free[0];
    assert v in c.free;
    assert BufInv(c.bufs[v], c.disk);
    forall j | 0 <= j < NBUF && c.bufs[j].refs == 0
      ensures c.stamps[v] <= c.stamps[j]
    {
      assert j in c.free;
      var n :| 0 <= n < |c.free| && c.free[n] == j;
    }
  }

  /** A miss recycles the least recently released buffer under its new name. */
  lemma MissKeepsInv(c: Cache, k: Key)
    requires Inv(c) && k.dev >= 0 && Lookup(c.bufs, k, 0) == NBUF && c.free != []
    ensures var (c', g) := GetBlk(c, k); Inv(c') && g == Buffer(c.free[0]) && c'.disk == c.disk
  {
    VictimClean(c);
    var v := c.free[0];
    var c' := GetBlk(c, k).0;
    MissFree(c, c', v);
    hide FreeInOrder, Without, Rising;
    forall j | 0 <= j < NBUF
      ensures BufInv(c'.bufs[j], c'.disk)
    {
      assert BufInv(c.bufs[j], c.disk);
    }
    assert OneBufferPerBlock(c'.bufs);
  }

  lemma MissFree(c: Cache, c': Cache, v: nat)
    requires FreeInOrder(c) && c.free != [] && v == c.free[0] && |c'.bufs| == |c.bufs|
    requires c'.bufs == c.bufs[v := c'.bufs[v]] && c'.bufs[v].refs > 0 && c'.free == c.free[1..]
    requires c'.stamps == c.stamps && c'.clock == c.clock
    ensures FreeInOrder(c')
  {
    assert forall m :: 0 <= m < |c'.free| ==> c'.free[m] == c.free[m + 1];
    assert v !in c'.free;
    forall i | 0 <= i < |c'.bufs|
      ensures i in c'.free <==> c'.bufs[i].refs == 0
    {
      assert i in c.free <==> i == v || i in c'.free;
    }
  }

  lemma GetBlkKeepsInv(c: Cache, k: Key)
    requires Inv(c) && k.dev >= 0
    ensures Inv(GetBlk(c, k).0)
  {
    assert |c.bufs| == NBUF && 0 <= Lookup(c.bufs, k, 0) <= NBUF;
    hide Inv, FreeInOrder, OneBufferPerBlock, Lookup, Without;
    if Lookup(c.bufs, k, 0) < NBUF { HitKeepsInv(c, k); } else if c.free != [] { MissKeepsInv(c, k); }
  }

  /** `getblk` hands out the block asked for, and no reader of any block sees a difference. */
  lemma GetBlkKeepsView(c: Cache, k: Key, q: Key)
    requires Inv(c) && k.dev >= 0 && q.dev >= 0
    ensures var (c', g) := GetBlk(c, k);
      && View(c', q) == View(c, q)
      && (g.Buffer? ==> g.index < NBUF && c'.bufs[g.index].key == k && c'.bufs[g.index].refs > 0)
  {
    var i := Lookup(c.bufs, k, 0);
    var (c', g) := GetBlk(c, k);
    if i < NBUF {
      hide Inv, FreeInOrder;
      assert OneBufferPerBlock(c.bufs) by { InvUnique(c); }
      SameButView(c, c', i, q);
    } else if c.free != [] {
      VictimClean(c);
      MissView(c, c', k, q);
    }
  }

  lemma InvUnique(c: Cache)
    requires Inv(c)
    ensures OneBufferPerBlock(c.bufs)
  {
  }

  /** Recycling a clean buffer loses nothing: its old block is on the disk, its new one is not yet valid. */
  lemma MissView(c: Cache, c': Cache, k: Key, q: Key)
    requires Inv(c) && Inv(c') && k.dev >= 0 && q.dev >= 0 && c'.disk == c.disk && c.free != []
    requires c.free[0] < NBUF && c.bufs[c.free[0]].refs == 0 && c'.bufs == c.bufs[c.free[0] := c'.bufs[c.free[0]]]
    requires c'.bufs[c.free[0]].key == k && !c'.bufs[c.free[0]].done
    requires Lookup(c.bufs, k, 0) == NBUF
    ensures View(c', q) == View(c, q)
  {
    var v := c.free[0];
    assert BufInv(c.bufs[v], c.disk);
    InvUnique(c);
    InvUnique(c');
    hide Inv, FreeInOrder;
    var i := Lookup(c.bufs, q, 0);
    if q == k {
      LookupIs(c'.bufs, k, v);
    } else if i < NBUF && i != v {
      LookupIs(c'.bufs, q, i);
    }
  }

  lemma BreadKeepsInv(c: Cache, k: Key)
    requires Inv(c) && k.dev >= 0
    ensures Inv(Bread(c, k).0)
  {
    var (c1, g) := GetBlk(c, k);
    GetBlkKeepsInv(c, k);
    GetBlkKeepsView(c, k, k);
    hide Lookup, Without, GetBlk, View;
    if g.Buffer? {
      var i, c' := g.index, Bread(c, k).0;
      assert BufInv(c1.bufs[i], c1.disk);
      if !c1.bufs[i].done {
        FreeSame(c1, c', i);
        BufferChanged(c1, c', i);
      }
    }
  }

  /** `bread` yields exactly what a reader of the block should see, and disturbs no other view. */
  lemma BreadYieldsView(c: Cache, k: Key, q: Key)
    requires Inv(c) && k.dev >= 0 && q.dev >= 0
    ensures var (c', g) := Bread(c, k);
      && View(c', q) == View(c, q)
      && (g.Buffer? ==> g.index < NBUF && c'.bufs[g.index].key == k && c'.bufs[g.index].done
                        && c'.bufs[g.index].refs > 0 && c'.bufs[g.index].data == View(c, k))
  {
    var (c1, g) := GetBlk(c, k);
    GetBlkKeepsInv(c, k);
    GetBlkKeepsView(c, k, k);
    GetBlkKeepsView(c, k, q);
    InvUnique(c1);
    hide GetBlk, Inv;
    if g.Buffer? {
      var i, c' := g.index, Bread(c, k).0;
      LookupIs(c1.bufs, k, i);
      if !c1.bufs[i].done { SameButView(c1, c', i, q); }
    }
  }

  /** Writing a held buffer back: the disk now has its contents, every other block is untouched. */
  lemma WriteBackKeepsInv(c: Cache, i: nat)
    requires Inv(c) && i < NBUF && c.bufs[i].refs > 0
    ensures Inv(WriteBack(c, i))
  {
    var c' := WriteBack(c, i);
    assert BufInv(c.bufs[i], c.disk);
    FreeSame(c, c', i);
    SameButUnique(c.bufs, c'.bufs, i);
    hide FreeInOrder;
    forall j | 0 <= j < NBUF
      ensures BufInv(c'.bufs[j], c'.disk)
    {
      assert BufInv(c.bufs[j], c.disk);
    }
  }

  lemma WriteBackView(c: Cache, i: nat, q: Key)
    requires Inv(c) && i < NBUF && c.bufs[i].refs > 0 && q.dev >= 0
    ensures View(WriteBack(c, i), q) == if q == c.bufs[i].key then c.bufs[i].data else View(c, q)
    ensures OnDisk(WriteBack(c, i).disk, q) == if q == c.bufs[i].key then c.bufs[i].data else OnDisk(c.disk, q)
  {
    InvUnique(c);
    hide Inv;
    SameButView(c, WriteBack(c, i), i, q);
  }

  /** The last release of a buffer is in order when its contents are on the disk or will be put there. */
  predicate Settled(c: Cache, i: nat)
    requires i < |c.bufs|
  {
    var b := c.bufs[i];
    b.refs == 1 && !b.dirty && b.done ==> b.data == OnDisk(c.disk, b.key)
  }

  lemma BrelseShared(c: Cache, i: nat)
    requires Inv(c) && i < NBUF && c.bufs[i].refs > 1
    ensures Inv(Brelse(c, i))
  {
    var c' := Brelse(c, i);
    assert BufInv(c.bufs[i], c.disk);
    FreeSame(c, c', i);
    BufferChanged(c, c', i);
  }

  /** Appending the buffer just released keeps the ring in release order. */
  lemma FreeAppend(c: Cache, c': Cache, i: nat)
    requires FreeInOrder(c) && i < |c.bufs| && c.bufs[i].refs > 0
    requires SameBut(c.bufs, c'.bufs, i) && c'.bufs[i].refs == 0 && c'.free == c.free + [i]
    requires c'.stamps == c.stamps[i := c.clock] && c'.clock == c.clock + 1
    ensures FreeInOrder(c')
  {
    assert i !in c.free;
    assert forall m :: 0 <= m < |c.free| ==> c.free[m] in c.free && c.free[m] != i;
    assert forall j :: j in c'.free <==> j in c.free || j == i;
  }

  lemma BrelseLast(c: Cache, i: nat)
    requires Inv(c) && i < NBUF && c.bufs[i].refs == 1 && Settled(c, i)
    ensures Inv(Brelse(c, i))
  {
    var c' := Brelse(c, i);
    assert BufInv(c.bufs[i], c.disk);
    assert SameBut(c.bufs, c'.bufs, i);
    FreeAppend(c, c', i);
    SameButUnique(c.bufs, c'.bufs, i);
    hide FreeInOrder;
    forall j | 0 <= j < NBUF
      ensures BufInv(c'.bufs[j], c'.disk)
    {
      assert BufInv(c.bufs[j], c.disk);
    }
  }

  lemma BrelseKeepsInv(c: Cache, i: nat)
    requires Inv(c) && i < NBUF && c.bufs[i].refs > 0 && Settled(c, i)
    ensures Inv(Brelse(c, i))
  {
    if c.bufs[i].refs > 1 { BrelseShared(c, i); } else { BrelseLast(c, i); }
  }

  /** Releasing a buffer changes no view; what a dirty one held is on the disk afterwards. */
  lemma BrelseView(c: Cache, i: nat, q: Key)
    requires Inv(c) && i < NBUF && c.bufs[i].refs > 0 && q.dev >= 0 && (c.bufs[i].dirty ==> c.bufs[i].done)
    ensures View(Brelse(c, i), q) == View(c, q)
    ensures c.bufs[i].refs == 1 && c.bufs[i].dirty ==> OnDisk(Brelse(c, i).disk, c.bufs[i].key) == c.bufs[i].data
  {
    InvUnique(c);
    hide Inv;
    if q == c.bufs[i].key { LookupIs(c.bufs, q, i); }
    SameButView(c, Brelse(c, i), i, q);
  }

  /** A block nobody holds reads as what is on the disk: the last contents written back. */
  lemma UnheldIsOnDisk(c: Cache, k: Key)
    requires Inv(c) && k.dev >= 0
    requires forall i :: 0 <= i < NBUF && c.bufs[i].key == k ==> c.bufs[i].refs == 0
    ensures View(c, k) == OnDisk(c.disk, k)
  {
    var i := Lookup(c.bufs, k, 0);
    if i < NBUF { assert BufInv(c.bufs[i], c.disk); }
  }

  /** In-place changes are visible to every later reader through the cache. */
  lemma ModifyView(c: Cache, i: nat, data: Block, dirty: bool, q: Key)
    requires Inv(c) && i < NBUF && c.bufs[i].refs > 0 && c.bufs[i].done && q.dev >= 0
    ensures Inv(Modify(c, i, data, dirty))
    ensures View(Modify(c, i, data, dirty), q) == if q == c.bufs[i].key then data else View(c, q)
  {
    var c' := Modify(c, i, data, dirty);
    InvUnique(c);
    assert BufInv(c.bufs[i], c.disk);
    FreeSame(c, c', i);
    BufferChanged(c, c', i);
    hide Inv;
    SameButView(c, c', i, q);
  }

  // ------------------------------------------------------------------ start-up

  const NO_BUF := Buf(Key(NO_DEV, 0), false, false, false, false, 0, [])

  function Initial(disk: map<Key, Block>): Cache {
    Cache(seq(NBUF, _ => NO_BUF), seq(NBUF, i => i), disk, seq(NBUF, i => i), NBUF)
  }

  lemma InitialInv(disk: map<Key, Block>)
    ensures Inv(Initial(disk))
  {
    var c := Initial(disk);
    forall i | 0 <= i < NBUF
      ensures i in c.free
    {
      assert c.free[i] == i;
    }
  }
}

/** Whole runs of the buffer cache: whatever is cached, recycled, written back and read again in between,
    a block is what was last put into it. */
module BufRun {
  import opened BufSpec

  datatype Event =
    | Get(k: Key) | Read(k: Key) | Change(i: nat, data: Block, dirty: bool) | Write(i: nat) | Release(i: nat)

  /** When the event can happen: blocks of a device, buffers that are held, and a changed buffer is marked
      or written before it is let go. */
  predicate Enabled(c: Cache, e: Event) {
    && |c.bufs| == NBUF && |c.stamps| == NBUF && (forall m :: 0 <= m < |c.free| ==> c.free[m] < NBUF)
    && match e
       case Get(k) => k.dev >= 0
       case Read(k) => k.dev >= 0
       case Change(i, _, _) => i < NBUF && c.bufs[i].refs > 0 && c.bufs[i].done
       case Write(i) => i < NBUF && c.bufs[i].refs > 0 && c.bufs[i].done
       case Release(i) => i < NBUF && c.bufs[i].refs > 0 && Settled(c, i) && (c.bufs[i].dirty ==> c.bufs[i].done)
  }

  function Step(c: Cache, e: Event): Cache
    requires Enabled(c, e)
  {
    match e
    case Get(k) => GetBlk(c, k).0
    case Read(k) => Bread(c, k).0
    case Change(i, data, dirty) => Modify(c, i, data, dirty)
    case Write(i) => WriteBack(c, i)
    case Release(i) => Brelse(c, i)
  }

  /** On a plain disk only a change of the block matters. */
  function DiskStep(c: Cache, e: Event, q: Key, contents: Block): Block
    requires Enabled(c, e)
  {
    if e.Change? && c.bufs[e.i].key == q then e.data else contents
  }

  lemma StepRefines(c: Cache, e: Event, q: Key)
    requires Inv(c) && Enabled(c, e) && q.dev >= 0
    ensures Inv(Step(c, e)) && View(Step(c, e), q) == DiskStep(c, e, q, View(c, q))
  {
    if e.Get? { GetBlkKeepsInv(c, e.k); GetBlkKeepsView(c, e.k, q); }
    else if e.Read? { BreadKeepsInv(c, e.k); BreadYieldsView(c, e.k, q); }
    else if e.Change? { ModifyView(c, e.i, e.data, e.dirty, q); }
    else if e.Release? { BrelseKeepsInv(c, e.i); BrelseView(c, e.i, q); }
    else {
      WriteBackKeepsInv(c, e.i);
      WriteBackView(c, e.i, q);
      HeldView(c, e.i);
    }
    hide Inv, GetBlk, Bread, Brelse, Modify, WriteBack;
  }

  lemma HeldView(c: Cache, i: nat)
    requires Inv(c) && i < NBUF && c.bufs[i].refs > 0 && c.bufs[i].done
    ensures View(c, c.bufs[i].key) == c.bufs[i].data
  {
    assert BufInv(c.bufs[i], c.disk);
    LookupIs(c.bufs, c.bufs[i].key, i);
  }

  ghost predicate Run(c: Cache, es: seq<Event>, c': Cache)
    decreases |es|
  {
    if es == [] then c' == c else Enabled(c, es[0]) && Run(Step(c, es[0]), es[1..], c')
  }

  /** The block on the plain disk after the run. */
  function OnPlainDisk(c: Cache, es: seq<Event>, q: Key, contents: Block): Block
    decreases |es|
  {
    if es == [] || !Enabled(c, es[0]) then contents
    else OnPlainDisk(Step(c, es[0]), es[1..], q, DiskStep(c, es[0], q, contents))
  }

  /** The cache refines a plain disk over any run of `getblk`, `bread`, changes, `bwrite` and `brelse`. */
  lemma {:induction false} RunRefines(c: Cache, es: seq<Event>, c': Cache, q: Key)
    requires Inv(c) && Run(c, es, c') && q.dev >= 0
    ensures Inv(c') && View(c', q) == OnPlainDisk(c, es, q, View(c, q))
    decreases |es|
  {
    if es != [] {
      StepRefines(c, es[0], q);
      hide Inv, Step, View;
      RunRefines(Step(c, es[0]), es[1..], c', q);
    }
  }

  // ------------------------------------------------------------------ who holds a buffer

  /** What a caller of `getblk` or `bread` comes back with. */
  function Obtained(c: Cache, e: Event): Got
    requires Enabled(c, e)
  {
    match e
    case Get(k) => GetBlk(c, k).1
    case Read(k) => Bread(c, k).1
    case _ => NoneFree
  }

  /** Callers that have obtained buffer `i` over the run, less those that have released it. */
  function Holders(c: Cache, es: seq<Event>, i: nat): int
    decreases |es|
  {
    if es == [] || !Enabled(c, es[0]) then 0
    else
      (if Obtained(c, es[0]) == Buffer(i) then 1 else if es[0] == Release(i) then -1 else 0)
      + Holders(Step(c, es[0]), es[1..], i)
  }

  lemma CountStep(c: Cache, e: Event, i: nat)
    requires Inv(c) && Enabled(c, e) && i < NBUF
    ensures |Step(c, e).bufs| == NBUF
    ensures Step(c, e).bufs[i].refs
         == c.bufs[i].refs + (if Obtained(c, e) == Buffer(i) then 1 else if e == Release(i) then -1 else 0)
  {
    if (e.Get? || e.Read?) && Lookup(c.bufs, e.k, 0) == NBUF && c.free != [] { VictimClean(c); }
    hide Inv, Lookup, Without, OnDisk;
  }

  /** The count of a buffer goes with its holders. */
  lemma {:induction false} RunCounts(c: Cache, es: seq<Event>, c': Cache, i: nat)
    requires Inv(c) && Run(c, es, c') && i < NBUF
    ensures Inv(c') && c'.bufs[i].refs == c.bufs[i].refs + Holders(c, es, i)
    decreases |es|
  {
    if es != [] {
      StepRefines(c, es[0], Key(0, 0));
      CountStep(c, es[0], i);
      hide Inv, Step, Obtained, Enabled;
      RunCounts(Step(c, es[0]), es[1..], c', i);
      assert Inv(c') ==> |c'.bufs| == NBUF by { InvSize(c'); }
    }
  }

  lemma InvSize(c: Cache)
    ensures Inv(c) ==> |c.bufs| == NBUF
  {
  }

  /** From start-up on, over any run, each buffer's count is the number of its holders, and the ring has
      exactly those that nobody holds. */
  lemma HoldersCounted(disk: map<Key, Block>, es: seq<Event>, c: Cache, i: nat)
    requires Run(Initial(disk), es, c) && i < NBUF
    ensures Inv(c) && c.bufs[i].refs == Holders(Initial(disk), es, i)
    ensures i in c.free <==> Holders(Initial(disk), es, i) == 0
  {
    InitialInv(disk);
    assert Initial(disk).bufs[i].refs == 0;
    hide Initial, Run, Holders;
    RunCounts(Initial(disk), es, c, i);
  }

  /** Obtaining a buffer and releasing it leaves every count, and who is on the ring, as it was. */
  lemma GetThenRelease(c: Cache, e: Event, i: nat, j: nat)
    requires Inv(c) && Enabled(c, e) && Obtained(c, e) == Buffer(i) && j < NBUF
    requires Enabled(Step(c, e), Release(i))
    ensures var c' := Step(Step(c, e), Release(i));
      Inv(c') && c'.bufs[j].refs == c.bufs[j].refs && (j in c'.free <==> j in c.free)
  {
    StepRefines(c, e, Key(0, 0));
    StepRefines(Step(c, e), Release(i), Key(0, 0));
    CountStep(c, e, j);
    CountStep(Step(c, e), Release(i), j);
    var c' := Step(Step(c, e), Release(i));
    hide Step, Enabled, Obtained;
    RingIsUnheld(c, j);
    RingIsUnheld(c', j);
  }

  lemma RingIsUnheld(c: Cache, j: nat)
    requires Inv(c) && j < NBUF
    ensures |c.bufs| == NBUF && (j in c.free <==> c.bufs[j].refs == 0)
  {
  }

  /** `getblk` of a block that is cached waits for its buffer or shares it. */
  lemma GetCached(c: Cache, k: Key, i: nat)
    requires Inv(c) && k.dev >= 0 && i < NBUF && c.bufs[i].key == k
    ensures var (c', g) := GetBlk(c, k);
      && c'.disk == c.disk && g == (if c.bufs[i].busy then MustSleep(i) else Buffer(i))
      && c'.bufs == c.bufs[i := if c.bufs[i].busy then c.bufs[i].(wanted := true)
                               else c.bufs[i].(refs := c.bufs[i].refs + 1)]
  {
    InvUnique(c);
    LookupIs(c.bufs, k, i);
    hide Inv, OneBufferPerBlock, Without;
  }

  /** `getblk` of any other takes the buffer released longest ago, or finds that all are held. */
  lemma GetUncached(c: Cache, k: Key)
    requires Inv(c) && k.dev >= 0 && forall i :: 0 <= i < NBUF ==> c.bufs[i].key != k
    ensures var (c', g) := GetBlk(c, k);
      if forall i :: 0 <= i < NBUF ==> c.bufs[i].refs > 0 then g == NoneFree && c' == c
      else
        && g.Buffer? && g.index < NBUF && c.bufs[g.index].refs == 0 && c'.disk == c.disk
        && (forall j :: 0 <= j < NBUF && c.bufs[j].refs == 0 ==> c.stamps[g.index] <= c.stamps[j])
        && c'.bufs == c.bufs[g.index := c'.bufs[g.index]] && c'.bufs[g.index].key == k && c'.bufs[g.index].busy
        && !c'.bufs[g.index].done && !c'.bufs[g.index].dirty
  {
    if c.free != [] {
      VictimClean(c);
      hide Inv;
    } else {
      forall i | 0 <= i < NBUF
        ensures c.bufs[i].refs > 0
      {
        RingIsUnheld(c, i);
      }
      hide Inv;
    }
  }

  /** Whether buffer `i` has been recycled for its block and not released since. */
  function BeingFilled(c: Cache, es: seq<Event>, i: nat, was: bool): bool
    decreases |es|
  {
    if es == [] || !Enabled(c, es[0]) then was
    else
      var e := es[0];
      BeingFilled(Step(c, e), es[1..], i,
                  if Obtained(c, e) == Buffer(i) && i < NBUF && c.bufs[i].key != e.k then true
                  else if e == Release(i) then false else was)
  }

  lemma BusyStep(c: Cache, e: Event, i: nat)
    requires Inv(c) && Enabled(c, e) && i < NBUF
    ensures |Step(c, e).bufs| == NBUF
    ensures Obtained(c, e) == Buffer(i) ==> e.Get? || e.Read?
    ensures Step(c, e).bufs[i].busy ==
              if Obtained(c, e) == Buffer(i) && c.bufs[i].key != e.k then true
              else if e == Release(i) then false else c.bufs[i].busy
  {
    if e.Get? || e.Read? {
      GetBusy(c, e.k, i);
      ReadIsGet(c, e.k, i);
    }
    hide Inv, GetBlk, Bread, OnDisk, Without;
  }

  lemma GetBusy(c: Cache, k: Key, i: nat)
    requires Inv(c) && k.dev >= 0 && i < NBUF
    ensures var (c', g) := GetBlk(c, k);
      && |c'.bufs| == NBUF && (g.Buffer? ==> g.index < NBUF)
      && c'.bufs[i].busy == if g == Buffer(i) && c.bufs[i].key != k then true else c.bufs[i].busy
  {
    var j := Lookup(c.bufs, k, 0);
    if j < NBUF { GetCached(c, k, j); } else { GetUncached(c, k); }
    hide GetBlk, Lookup, OneBufferPerBlock, FreeInOrder;
  }

  lemma ReadIsGet(c: Cache, k: Key, i: nat)
    requires Inv(c) && k.dev >= 0 && i < NBUF
    requires |GetBlk(c, k).0.bufs| == NBUF && (GetBlk(c, k).1.Buffer? ==> GetBlk(c, k).1.index < NBUF)
    ensures var (c', g) := Bread(c, k);
      g == GetBlk(c, k).1 && |c'.bufs| == NBUF && c'.bufs[i].busy == GetBlk(c, k).0.bufs[i].busy
  {
    hide GetBlk, OnDisk;
  }

  /** A buffer just recycled is nobody else's until its first release: over any run it makes others wait
      exactly so long. */
  lemma {:induction false} BusyIsBeingFilled(c: Cache, es: seq<Event>, c': Cache, i: nat)
    requires Inv(c) && Run(c, es, c') && i < NBUF
    ensures Inv(c') && |c'.bufs| == NBUF && c'.bufs[i].busy == BeingFilled(c, es, i, c.bufs[i].busy)
    decreases |es|
  {
    InvSize(c');
    if es != [] {
      StepRefines(c, es[0], Key(0, 0));
      BusyStep(c, es[0], i);
      hide Inv, Step, Obtained, Enabled;
      BusyIsBeingFilled(Step(c, es[0]), es[1..], c', i);
    }
  }

  // ------------------------------------------------------------------ who is recycled

  /** At event `n` the last holder of a buffer may let it go. */
  function Noted(c: Cache, e: Event, times: seq<nat>, n: nat): seq<nat>
    requires Enabled(c, e)
  {
    if e.Release? && e.i < |times| && c.bufs[e.i].refs == 1 then times[e.i := n] else times
  }

  /** When each buffer was last let go by its last holder, counting events from `n` on. */
  function LetGo(c: Cache, es: seq<Event>, times: seq<nat>, n: nat): seq<nat>
    decreases |es|
  {
    if es == [] || !Enabled(c, es[0]) then times
    else LetGo(Step(c, es[0]), es[1..], Noted(c, es[0], times, n), n + 1)
  }

  ghost predicate SameOrder(stamps: seq<nat>, clock: nat, times: seq<nat>, n: nat) {
    && |stamps| == |times| == NBUF
    && (forall i :: 0 <= i < NBUF ==> stamps[i] < clock && times[i] < n)
    && forall i, j :: 0 <= i < NBUF && 0 <= j < NBUF ==> (stamps[i] < stamps[j] <==> times[i] < times[j])
  }

  lemma OrderStep(c: Cache, e: Event, times: seq<nat>, n: nat)
    requires Inv(c) && Enabled(c, e) && SameOrder(c.stamps, c.clock, times, n)
    ensures SameOrder(Step(c, e).stamps, Step(c, e).clock, Noted(c, e, times, n), n + 1)
  {
    hide Inv, Without, Lookup, OnDisk;
  }

  lemma {:induction false} RunOrder(c: Cache, es: seq<Event>, c': Cache, times: seq<nat>, n: nat)
    requires Inv(c) && Run(c, es, c') && SameOrder(c.stamps, c.clock, times, n)
    ensures Inv(c') && SameOrder(c'.stamps, c'.clock, LetGo(c, es, times, n), n + |es|)
    decreases |es|
  {
    hide Inv, Step, Enabled, SameOrder, Noted;
    if es != [] {
      StepRefines(c, es[0], Key(0, 0));
      OrderStep(c, es[0], times, n);
      RunOrder(Step(c, es[0]), es[1..], c', Noted(c, es[0], times, n), n + 1);
    }
  }

  /** Over any run from start-up, a block that is not cached takes, of all buffers nobody holds, the one let go
      longest ago; those never used come first, in the order of the table. */
  lemma LongestLetGo(disk: map<Key, Block>, es: seq<Event>, c: Cache, k: Key)
    requires Run(Initial(disk), es, c) && Inv(c) && k.dev >= 0
    requires (forall i :: 0 <= i < NBUF ==> c.bufs[i].key != k) && GetBlk(c, k).1.Buffer?
    ensures var times, v := LetGo(Initial(disk), es, seq(NBUF, i => i), NBUF), GetBlk(c, k).1.index;
      && |times| == NBUF && v < NBUF && c.bufs[v].refs == 0
      && forall j :: 0 <= j < NBUF && j != v && c.bufs[j].refs == 0 ==> times[v] < times[j]
  {
    InitialInv(disk);
    InitialOrder(disk);
    RunOrder(Initial(disk), es, c, seq(NBUF, i => i), NBUF);
    GetUncached(c, k);
    var v := GetBlk(c, k).1.index;
    InvSize(c);
    hide Inv, GetBlk, Run, LetGo, Initial;
    forall j | 0 <= j < NBUF && j != v && c.bufs[j].refs == 0
      ensures c.stamps[v] < c.stamps[j]
    {
      RingIsUnheld(c, v);
      RingIsUnheld(c, j);
      OnRing(c, v, j);
    }
  }

  lemma InitialOrder(disk: map<Key, Block>)
    ensures SameOrder(Initial(disk).stamps, Initial(disk).clock, seq(NBUF, i => i), NBUF)
  {
  }

  lemma OnRing(c: Cache, v: nat, j: nat)
    requires Inv(c) && v in c.free && j in c.free && v != j && c.stamps[v] <= c.stamps[j]
    ensures c.stamps[v] < c.stamps[j]
  {
    var m :| 0 <= m < |c.free| && c.free[m] == v;
    var n :| 0 <= n < |c.free| && c.free[n] == j;
    assert m != n;
  }
}

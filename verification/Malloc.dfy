/** The storage allocator of the C library: `malloc`, `free` and `morecore` over a circular
    free list whose links live in the managed memory itself. */
module Malloc {
  import opened HeapSpec
  import opened Wrappers
  import opened Numbers

  const UNIT_BYTES := 8                // sizeof(Header) on a 32-bit machine
  const NALLOC := 1024                 // minimum number of units to request
  const INT_MODULUS := 0x8000_0000

  /** What `malloc` returns; Astray when `sbrk` has been handed no positive count, after which the library
      takes units it does not have. */
  datatype Given = Given(addr: nat) | NoMemory | Astray

  datatype More = More(p: nat) | NoSpace | Misled

  /** One unit of memory, seen as a header: the link and the size of a block. */
  datatype Unit = Unit(ptr: nat, size: nat)

  /** The header of block `i` holds its size and links to the next block of the cycle. */
  ghost predicate LinkedAt(m: seq<Unit>, bs: seq<Block>, i: nat)
    requires i < |bs|
  {
    bs[i].End() <= |m| && bs[i].addr < |m| && m[bs[i].addr] == Unit(bs[Succ(i, |bs|)].addr, bs[i].size)
  }

  /** The circular list stored in memory visits exactly the blocks of `bs`, in order. */
  ghost predicate Linked(m: seq<Unit>, bs: seq<Block>) {
    forall i :: 0 <= i < |bs| ==> LinkedAt(m, bs, i)
  }

  /** No word of any block in `live` differs between the two memories. */
  ghost predicate Untouched(m: seq<Unit>, m': seq<Unit>, live: set<Block>) {
    |m'| == |m| && forall b, u: nat :: b in live && b.Has(u) && u < |m| ==> m'[u] == m[u]
  }

  /** Every live block lies below `top` and still has its size in its header. */
  ghost predicate LiveHeaders(m: seq<Unit>, live: set<Block>, top: nat) {
    top <= |m| && forall b :: b in live ==> 0 < b.size && b.End() <= top && m[b.addr].size == b.size
  }

  lemma LiveUntouched(m: seq<Unit>, m': seq<Unit>, live: set<Block>, top: nat, x: nat, y: nat)
    requires |m'| == |m| && LiveHeaders(m, live, top)
    requires forall u :: 0 <= u < |m| && u != x && u != y ==> m'[u] == m[u]
    requires forall b :: b in live ==> !b.Has(x) && !b.Has(y)
    ensures Untouched(m, m', live) && LiveHeaders(m', live, top)
  {
  }

  /** A free block's header lies in no live block. */
  lemma FreeHeaderNotLive(bs: seq<Block>, live: set<Block>, owned: set<nat>, i: nat)
    requires Ordered(bs) && Partition(bs, live, owned) && i < |bs|
    ensures forall c :: c in live ==> !c.Has(bs[i].addr)
  {
  }

  lemma TakenNotLive(bs: seq<Block>, live: set<Block>, owned: set<nat>, k: nat, n: nat)
    requires Partition(bs, live, owned) && k < |bs| && 0 < n <= bs[k].size
    requires Ordered(bs) && k > 0
    ensures forall c :: c in live ==> !c.Has(Taken(bs, k, n).addr) && !c.Has(bs[k].addr) && !c.Has(bs[k - 1].addr)
  {
    FreeHeaderNotLive(bs, live, owned, k - 1);
    assert forall c :: c in live ==> c.Apart(bs[k]);
  }

  lemma LinksAround(m: seq<Unit>, bs: seq<Block>, k: nat)
    requires Linked(m, bs) && 0 < k < |bs|
    ensures LinkedAt(m, bs, k) && LinkedAt(m, bs, k - 1)
  {
  }

  lemma OthersApart(live: set<Block>, owned: set<nat>, bs: seq<Block>, b: Block)
    requires Partition(bs, live, owned) && b in live
    ensures forall c :: c in live - {b} ==> !c.Has(b.addr)
  {
  }

  /** Units needed for `nbytes` bytes and a header, in 32-bit unsigned arithmetic. */
  function UnitsFor(nbytes: nat): (n: nat)
    ensures n > 0
  {
    (nbytes + UNIT_BYTES - 1) % UINT_MODULUS / UNIT_BYTES + 1
  }

  /** The block is large enough for the request exactly when the rounding does not wrap. */
  lemma UnitsForSuffice(nbytes: nat)
    requires nbytes < UINT_MODULUS
    ensures (UnitsFor(nbytes) - 1) * UNIT_BYTES >= nbytes <==> nbytes <= UINT_MODULUS - UNIT_BYTES
    ensures nbytes <= UINT_MODULUS - UNIT_BYTES ==> (UnitsFor(nbytes) - 1) * UNIT_BYTES < nbytes + UNIT_BYTES
  {
  }

  /** Units asked of the system for a request of `nunits`. */
  function Asked(nunits: nat): nat { if nunits < NALLOC then NALLOC else nunits }

  /** The increment that reaches `sbrk`: the byte count cut to 32 bits and taken as a signed `int`. */
  function Increment(nunits: nat): int {
    var bytes := Asked(nunits) * UNIT_BYTES % UINT_MODULUS;
    if bytes < INT_MODULUS then bytes else bytes - UINT_MODULUS
  }

  /** `sbrk` is asked for the bytes of the block exactly when they are fewer than 2^31, which is to say for
      requests of at most 0x7FFFFFF0 bytes and those whose rounding wraps; otherwise it is handed zero or a
      negative number, succeeds, and gives no memory. */
  lemma IncrementExact(nbytes: nat)
    requires nbytes < UINT_MODULUS
    ensures var n := UnitsFor(nbytes);
      && (Increment(n) > 0 <==> Increment(n) == Asked(n) * UNIT_BYTES)
      && (Increment(n) > 0 <==> Asked(n) * UNIT_BYTES < INT_MODULUS)
      && (Increment(n) > 0 <==> nbytes <= 0x7FFF_FFF0 || nbytes > UINT_MODULUS - UNIT_BYTES)
  {
    var n := UnitsFor(nbytes);
    if nbytes <= UINT_MODULUS - UNIT_BYTES {
      assert (nbytes + UNIT_BYTES - 1) % UINT_MODULUS == nbytes + UNIT_BYTES - 1;
      assert n == (nbytes + 7) / 8 + 1 <= 0x2000_0000;
    } else {
      assert (nbytes + UNIT_BYTES - 1) % UINT_MODULUS == nbytes + UNIT_BYTES - 1 - UINT_MODULUS;
      assert n == 1;
    }
  }

  /** Two requests whose size does not wrap and for which `sbrk` is handed -8 and 0. */
  lemma IncrementsAstray()
    ensures (UnitsFor(0xFFFF_FFF0) - 1) * UNIT_BYTES >= 0xFFFF_FFF0 && Increment(UnitsFor(0xFFFF_FFF0)) == -8
    ensures (UnitsFor(0xFFFF_FFF8) - 1) * UNIT_BYTES >= 0xFFFF_FFF8 && Increment(UnitsFor(0xFFFF_FFF8)) == 0
  {
  }

  /** First fit at or after block `j` among the next `left` blocks of the cycle. */
  function Search(bs: seq<Block>, j: nat, left: nat, n: nat): (k: Option<nat>)
    requires j < |bs|
    ensures k.Some? ==> k.value < |bs| && bs[k.value].size >= n
    decreases left
  {
    if left == 0 then None
    else if bs[j].size >= n then Some(j)
    else Search(bs, Succ(j, |bs|), left - 1, n)
  }

  /** Next fit: one whole lap that begins just after the roving pointer. */
  function NextFit(bs: seq<Block>, rover: nat, n: nat): (k: Option<nat>)
    requires rover < |bs|
    ensures k.Some? ==> k.value < |bs| && bs[k.value].size >= n
  {
    Search(bs, Succ(rover, |bs|), |bs|, n)
  }

  /** Number of blocks that a lap visits before block `i`, when it begins after `rover`. */
  function Rank(i: nat, rover: nat, n: nat): nat
    requires i < n && rover < n
  {
    if i > rover then i - rover - 1 else i + n - rover - 1
  }

  /** Every block that the lap visits before block `k` is too small. */
  ghost predicate FirstInLap(bs: seq<Block>, rover: nat, k: nat, n: nat)
    requires rover < |bs| && k < |bs|
  {
    forall i :: 0 <= i < |bs| && Rank(i, rover, |bs|) < Rank(k, rover, |bs|) ==> bs[i].size < n
  }

  /** A lap fails only when no block of the whole list fits, wherever the lap begins. */
  lemma NextFitComplete(bs: seq<Block>, rover: nat, n: nat)
    requires rover < |bs|
    ensures NextFit(bs, rover, n).None? <==> forall i :: 0 <= i < |bs| ==> bs[i].size < n
    ensures NextFit(bs, rover, n).Some? ==> FirstInLap(bs, rover, NextFit(bs, rover, n).value, n)
  {
    SearchComplete(bs, rover, Succ(rover, |bs|), |bs|, n);
  }

  lemma {:induction false} SearchComplete(bs: seq<Block>, rover: nat, j: nat, left: nat, n: nat)
    requires rover < |bs| && j < |bs| && left <= |bs|
    requires left > 0 ==> Rank(j, rover, |bs|) == |bs| - left
    requires forall i :: 0 <= i < |bs| && Rank(i, rover, |bs|) < |bs| - left ==> bs[i].size < n
    ensures var k := Search(bs, j, left, n);
      && (k.None? <==> forall i :: 0 <= i < |bs| ==> bs[i].size < n)
      && (k.Some? ==> FirstInLap(bs, rover, k.value, n))
    decreases left
  {
    if left > 0 && bs[j].size < n {
      SearchComplete(bs, rover, Succ(j, |bs|), left - 1, n);
    }
  }

  /** Replacing blocks `[lo, hi)` by `mid` in memory: only `mid` and its predecessor are rewritten. */
  lemma SpliceLinked(m: seq<Unit>, m': seq<Unit>, bs: seq<Block>, lo: nat, hi: nat, mid: Block)
    requires 0 < lo <= hi <= |bs| && Linked(m, bs) && |m'| == |m|
    requires forall i :: (0 <= i < lo - 1 || hi <= i < |bs|) && bs[i].addr < |m| ==> m'[bs[i].addr] == m[bs[i].addr]
    requires bs[lo - 1].End() <= |m| && bs[lo - 1].addr < |m|
    requires m'[bs[lo - 1].addr] == Unit(mid.addr, bs[lo - 1].size)
    requires mid.End() <= |m| && mid.addr < |m|
    requires m'[mid.addr] == Unit(if hi < |bs| then bs[hi].addr else bs[0].addr, mid.size)
    ensures Linked(m', Splice(bs, lo, hi, mid))
  {
    var ns := Splice(bs, lo, hi, mid);
    forall i | 0 <= i < |ns|
      ensures LinkedAt(m', ns, i)
    {
      assert i < lo - 1 ==> LinkedAt(m, bs, i);
      assert i > lo ==> LinkedAt(m, bs, i + hi - lo - 1);
    }
  }

  /** The headers that joining `b` at gap `g` leaves alone. */
  ghost predicate OtherHeaders(bs: seq<Block>, g: nat, b: Block)
    requires g < |bs|
  {
    forall i :: 0 <= i < |bs| && i != g ==> bs[i].addr != bs[g].addr && bs[i].addr != b.addr
  }

  lemma HeadersDiffer(bs: seq<Block>, g: nat, b: Block)
    requires Ordered(bs) && Fits(bs, g, b)
    ensures OtherHeaders(bs, g, b)
    ensures bs[g].addr < b.addr && (bs[g].End() == b.addr ==> g > 0)
  {
  }

  /** The two header words that joining or linking `b` after block `g` must write. */
  ghost predicate Relinked(m: seq<Unit>, bs: seq<Block>, g: nat, b: Block)
    requires g < |bs| && bs[g].addr < |m| && b.addr < |m|
  {
    var up := g + 1 < |bs| && b.End() == bs[g + 1].addr;
    var next := bs[Succ(if up then g + 1 else g, |bs|)].addr;
    var size := b.size + if up then bs[g + 1].size else 0;
    if bs[g].End() == b.addr then m[bs[g].addr] == Unit(next, bs[g].size + size)
    else m[bs[g].addr] == Unit(b.addr, bs[g].size) && m[b.addr] == Unit(next, size)
  }

  /** Relinking around gap `g` in memory stores exactly the merged list. */
  lemma JoinedLinks(m: seq<Unit>, m': seq<Unit>, bs: seq<Block>, g: nat, b: Block)
    requires Linked(m, bs) && Fits(bs, g, b) && |m'| == |m| && b.End() <= |m|
    requires OtherHeaders(bs, g, b) && (bs[g].End() == b.addr ==> g > 0)
    requires forall u :: 0 <= u < |m| && u != b.addr && u != bs[g].addr ==> m'[u] == m[u]
    requires bs[g].addr < |m| && Relinked(m', bs, g, b)
    ensures Linked(m', InsertAt(bs, g, b))
  {
    var low := bs[g].End() == b.addr;
    var up := g + 1 < |bs| && b.End() == bs[g + 1].addr;
    var lo, hi := if low then g else g + 1, if up then g + 2 else g + 1;
    assert low ==> LinkedAt(m, bs, g - 1);
    assert LinkedAt(m, bs, g);
    assert up ==> LinkedAt(m, bs, g + 1);
    SpliceLinked(m, m', bs, lo, hi, Joined(bs, g, b));
  }

  /** Unlinking block `k` in memory: only its predecessor's link is rewritten. */
  lemma UnlinkedLinks(m: seq<Unit>, m': seq<Unit>, bs: seq<Block>, k: nat)
    requires Linked(m, bs) && 0 < k < |bs| && bs[k - 1].addr < |m|
    requires m' == m[bs[k - 1].addr := Unit(bs[Succ(k, |bs|)].addr, bs[k - 1].size)]
    requires forall i :: 0 <= i < |bs| && i != k - 1 ==> bs[i].addr != bs[k - 1].addr
    ensures Linked(m', bs[..k] + bs[k + 1..])
  {
    var ns := bs[..k] + bs[k + 1..];
    forall i | 0 <= i < |ns|
      ensures LinkedAt(m', ns, i)
    {
      assert LinkedAt(m, bs, if i >= k then i + 1 else i);
    }
  }

  /** Shrinking block `k` in memory: its own size is rewritten and a header appears inside it. */
  lemma ShrunkLinks(m: seq<Unit>, m': seq<Unit>, bs: seq<Block>, k: nat, n: nat)
    requires Linked(m, bs) && k < |bs| && 0 < n < bs[k].size && |m'| == |m|
    requires forall u :: 0 <= u < |m| && u != bs[k].End() - n ==>
               m'[u] == if u == bs[k].addr then Unit(m[u].ptr, bs[k].size - n) else m[u]
    requires forall i :: 0 <= i < |bs| && i != k ==> bs[i].addr != bs[k].addr && bs[i].addr != bs[k].End() - n
    ensures Linked(m', Take(bs, k, n))
  {
    var ns := Take(bs, k, n);
    forall i | 0 <= i < |ns|
      ensures LinkedAt(m', ns, i)
    {
      assert LinkedAt(m, bs, i);
    }
  }

  lemma AddLiveHeader(m: seq<Unit>, live: set<Block>, top: nat, b: Block)
    requires LiveHeaders(m, live, top) && 0 < b.size && b.End() <= top && m[b.addr].size == b.size
    ensures LiveHeaders(m, live + {b}, top)
  {
  }

  lemma AddressesDiffer(bs: seq<Block>, k: nat, n: nat)
    requires Ordered(bs) && k < |bs| && 0 < n <= bs[k].size
    ensures forall i :: 0 <= i < |bs| && i != k ==> bs[i].addr != bs[k].addr && bs[i].addr != bs[k].End() - n
    ensures 0 < k && forall i :: 0 <= i < |bs| && i != k - 1 ==> bs[i].addr != bs[k - 1].addr
  {
  }

  /** Units fresh from the system: clear of every block, so their header can be written at once. */
  lemma FreshBlock(m: seq<Unit>, m': seq<Unit>, bs: seq<Block>, live: set<Block>, owned: set<nat>, top: nat, b: Block)
    requires Ordered(bs) && Linked(m, bs) && LiveHeaders(m, live, top) && 0 < top <= b.addr && 0 < b.size
    requires b.End() <= |m| && forall i :: 0 <= i < |bs| ==> bs[i].End() <= top
    requires |m'| == |m| && forall u :: 0 <= u < |m| && u != b.addr ==> m'[u] == m[u]
    requires Partition(bs, live, owned) && forall u :: u in owned ==> 0 < u < top
    ensures Freeable(bs, b) && Linked(m', bs)
    ensures forall c :: c in live ==> b.Apart(c) && !c.Has(b.addr) && !c.Has(bs[Gap(bs, b.addr)].addr)
    ensures forall i :: 0 <= i < |Insert(bs, b)| ==> Insert(bs, b)[i].End() <= b.End()
    ensures forall u :: u in owned + UnitsOf(b) ==> 0 < u < b.End()
  {
    hide Covers, Ascending, LiveHeaders;
    FreshLinked(m, m', bs, top, b);
    hide Linked;
    FreeHeaderNotLive(bs, live, owned, Gap(bs, b.addr));
    GapFits(bs, b);
    InsertEnds(bs, b, b.End());
    hide Insert, Gap;
    FreshApart(m, live, top, b);
  }

  lemma FreshLinked(m: seq<Unit>, m': seq<Unit>, bs: seq<Block>, top: nat, b: Block)
    requires Linked(m, bs) && 0 < top <= b.addr && Ordered(bs)
    requires forall i :: 0 <= i < |bs| ==> bs[i].End() <= top
    requires |m'| == |m| && forall u :: 0 <= u < |m| && u != b.addr ==> m'[u] == m[u]
    ensures Linked(m', bs)
  {
    hide Ascending;
    forall i | 0 <= i < |bs|
      ensures LinkedAt(m', bs, i)
    {
      assert LinkedAt(m, bs, i);
      assert i > 0 ==> bs[i].size > 0;
    }
  }

  lemma FreshApart(m: seq<Unit>, live: set<Block>, top: nat, b: Block)
    requires LiveHeaders(m, live, top) && top <= b.addr
    ensures forall c :: c in live ==> b.Apart(c) && !c.Has(b.addr)
  {
  }

  lemma RaisedUntouched(m: seq<Unit>, m': seq<Unit>, live: set<Block>, top: nat, b: Block, y: nat)
    requires |m'| == |m| && LiveHeaders(m, live, top) && top <= b.addr && b.End() <= |m|
    requires forall u :: 0 <= u < |m| && u != b.addr && u != y ==> m'[u] == m[u]
    requires forall c :: c in live ==> !c.Has(b.addr) && !c.Has(y)
    ensures Untouched(m, m', live) && LiveHeaders(m', live, b.End())
  {
    LiveUntouched(m, m', live, top, b.addr, y);
  }

  lemma UntouchedTwice(m0: seq<Unit>, m1: seq<Unit>, m2: seq<Unit>, live: set<Block>)
    requires Untouched(m0, m1, live) && Untouched(m1, m2, live)
    ensures Untouched(m0, m2, live)
  {
  }

  /** Once a block of at least `n` units has been inserted, the next lap finds a fit from anywhere. */
  lemma GrownFits(bs: seq<Block>, b: Block, rover: nat, n: nat)
    requires Ordered(bs) && Freeable(bs, b) && b.size >= n && rover < |Insert(bs, b)|
    ensures NextFit(Insert(bs, b), rover, n).Some?
  {
    InsertMakesRoom(bs, b);
    NextFitComplete(Insert(bs, b), rover, n);
  }

  /** The search for `n` units has passed every block of the lap before block `j`; `left` remain. */
  ghost predicate Lap(bs: seq<Block>, rover: nat, n: nat, j: nat, left: nat) {
    && rover < |bs| && j < |bs| && 0 < left <= |bs|
    && Rank(j, rover, |bs|) == |bs| - left
    && NextFit(bs, rover, n) == Search(bs, j, left, n)
  }

  lemma LapStart(bs: seq<Block>, rover: nat, n: nat)
    requires rover < |bs|
    ensures Lap(bs, rover, n, Succ(rover, |bs|), |bs|)
  {
  }

  lemma LapStep(bs: seq<Block>, rover: nat, n: nat, j: nat, left: nat)
    requires Lap(bs, rover, n, j, left) && bs[j].size < n && j != rover
    ensures left > 1 && Lap(bs, rover, n, Succ(j, |bs|), left - 1)
  {
  }

  lemma LapHit(bs: seq<Block>, rover: nat, n: nat, j: nat, left: nat)
    requires Lap(bs, rover, n, j, left) && bs[j].size >= n && n > 0 && Ordered(bs)
    ensures j > 0 && NextFit(bs, rover, n) == Some(j)
  {
  }

  lemma LapOver(bs: seq<Block>, rover: nat, n: nat, left: nat)
    requires Lap(bs, rover, n, rover, left) && bs[rover].size < n
    ensures NextFit(bs, rover, n) == None
  {
    assert left == 1;
  }

  /** Where the search stands: before any request to the system, or after the only one. */
  ghost predicate Stage(asked: bool, bs0: seq<Block>, from: nat, owned0: set<nat>, grant: Option<nat>, n: nat,
                        bs: seq<Block>, rover: nat, owned: set<nat>)
  {
    && from < |bs0|
    && if asked then
         && NextFit(bs0, from, n).None? && grant.Some? && Increment(n) > 0
         && bs == Insert(bs0, NewBlock(grant, n)) && rover == Gap(bs0, grant.value)
         && owned == owned0 + UnitsOf(NewBlock(grant, n))
         && rover < |bs| && NextFit(bs, rover, n).Some?
       else bs == bs0 && rover == from && owned == owned0
  }

  /** A served request: the first fitting block of the lap lost its tail to the new live block. */
  ghost predicate Served(bs: seq<Block>, from: nat, n: nat, live0: set<Block>,
                         bs': seq<Block>, rover': nat, live': set<Block>, r: Given)
  {
    && from < |bs| && NextFit(bs, from, n).Some?
    && var k := NextFit(bs, from, n).value;
    && 0 < k && bs' == Take(bs, k, n) && rover' == k - 1
    && live' == live0 + {Taken(bs, k, n)} && Taken(bs, k, n) !in live0
    && r == Given(Taken(bs, k, n).addr + 1)
  }

  /** What one call of `malloc` does: served from the list, misled by `sbrk`, refused, or served after one request. */
  ghost predicate MallocSpec(bs: seq<Block>, from: nat, live0: set<Block>, owned0: set<nat>, n: nat, grant: Option<nat>,
                             bs': seq<Block>, rover': nat, live': set<Block>, owned': set<nat>, r: Given)
  {
    && from < |bs|
    && if NextFit(bs, from, n).Some? then
         Served(bs, from, n, live0, bs', rover', live', r) && owned' == owned0
       else if Increment(n) <= 0 then
         r == Astray && bs' == bs && rover' == from && live' == live0 && owned' == owned0
       else if grant.None? then
         r == NoMemory && bs' == bs && rover' == from && live' == live0 && owned' == owned0
       else
         && Served(Insert(bs, NewBlock(grant, n)), Gap(bs, grant.value), n, live0, bs', rover', live', r)
         && owned' == owned0 + UnitsOf(NewBlock(grant, n))
  }

  /** A lap that failed is the first one, and the request it causes makes the next lap succeed. */
  lemma LapFailed(asked: bool, bs0: seq<Block>, from: nat, live: set<Block>, owned0: set<nat>,
      grant: Option<nat>, n: nat,
                  bs: seq<Block>, rover: nat, owned: set<nat>)
    requires Stage(asked, bs0, from, owned0, grant, n, bs, rover, owned)
    requires rover < |bs| && NextFit(bs, rover, n).None?
    ensures !asked && bs == bs0 && rover == from && owned == owned0
    ensures Increment(n) <= 0 ==> MallocSpec(bs0, from, live, owned0, n, grant, bs, rover, live, owned, Astray)
    ensures Increment(n) > 0 && grant.None? ==>
        MallocSpec(bs0, from, live, owned0, n, grant, bs, rover, live, owned, NoMemory)
  {
  }

  lemma StageStart(bs: seq<Block>, rover: nat, owned: set<nat>, grant: Option<nat>, n: nat)
    requires rover < |bs|
    ensures Stage(false, bs, rover, owned, grant, n, bs, rover, owned)
  {
  }

  lemma StageServed(asked: bool, bs0: seq<Block>, from: nat, live: set<Block>, owned0: set<nat>,
      grant: Option<nat>, n: nat,
                    bs: seq<Block>, rover: nat, owned: set<nat>, k: nat)
    requires Stage(asked, bs0, from, owned0, grant, n, bs, rover, owned)
    requires rover < |bs| && NextFit(bs, rover, n) == Some(k) && 0 < k
    ensures Taken(bs, k, n) !in live ==> MallocSpec(bs0, from, live, owned0, n, grant,
                       Take(bs, k, n), k - 1, live + {Taken(bs, k, n)}, owned, Given(Taken(bs, k, n).addr + 1))
  {
    hide HeapSpec.Insert;
    hide HeapSpec.Gap;
    hide HeapSpec.Take;
    hide NextFit;
  }

  lemma AskedOnce(bs0: seq<Block>, from: nat, owned0: set<nat>, grant: Option<nat>, n: nat,
                  bs: seq<Block>, rover: nat, owned: set<nat>)
    requires from < |bs0| && NextFit(bs0, from, n).None? && grant.Some? && Ordered(bs0) && n > 0 && Increment(n) > 0
    requires Freeable(bs0, NewBlock(grant, n)) && rover < |bs|
    requires bs == Insert(bs0, NewBlock(grant, n)) && rover == Gap(bs0, grant.value)
    requires owned == owned0 + UnitsOf(NewBlock(grant, n))
    ensures Stage(true, bs0, from, owned0, grant, n, bs, rover, owned)
  {
    GrownFits(bs0, NewBlock(grant, n), rover, n);
  }

  /** The list at start-up: base alone, linked to itself. */
  lemma BaseAlone(m: seq<Unit>, m': seq<Unit>, live: set<Block>, top: nat)
    requires |m| > 0 && m' == m[0 := Unit(0, 0)] && live == {} && LiveHeaders(m, live, top)
    ensures Linked(m', [Block(0, 0)]) && LiveHeaders(m', live, top) && Untouched(m, m', live)
  {
    assert LinkedAt(m', [Block(0, 0)], 0);
  }

  lemma SameAddressSameIndex(bs: seq<Block>, i: nat, j: nat)
    requires Ordered(bs) && i < |bs| && j < |bs| && bs[i].addr == bs[j].addr
    ensures i == j
  {
  }

  /** The two cursors of the search: `p` on block `j`, `prevp` on the block before it. */
  ghost predicate At(bs: seq<Block>, j: nat, prevp: nat, p: nat) {
    j < |bs| && p == bs[j].addr && prevp == bs[if j > 0 then j - 1 else |bs| - 1].addr
  }

  lemma HeaderAt(m: seq<Unit>, bs: seq<Block>, j: nat, prevp: nat, p: nat)
    requires Linked(m, bs) && At(bs, j, prevp, p)
    ensures j < |bs| && p < |m| && p == bs[j].addr && m[p].size == bs[j].size
    ensures 0 < j ==> prevp == bs[j - 1].addr
  {
    assert LinkedAt(m, bs, j);
  }

  lemma NextAt(m: seq<Unit>, bs: seq<Block>, j: nat)
    requires Linked(m, bs) && j < |bs|
    ensures bs[j].addr < |m| && At(bs, Succ(j, |bs|), bs[j].addr, m[bs[j].addr].ptr)
  {
    assert LinkedAt(m, bs, j);
  }

  /** Writing inside a live block's payload leaves the list and every header alone. */
  lemma StoreLinked(m: seq<Unit>, m': seq<Unit>, bs: seq<Block>, live: set<Block>, owned: set<nat>, top: nat,
      b: Block, a: nat)
    requires Ordered(bs) && Partition(bs, live, owned) && Linked(m, bs) && LiveHeaders(m, live, top)
    requires b in live && b.addr < a < b.End() && |m'| == |m| && a < |m| && m' == m[a := m'[a]]
    ensures Linked(m', bs) && LiveHeaders(m', live, top)
  {
    hide Covers, Ascending;
    assert Freeable(bs, b);
    forall i | 0 <= i < |bs|
      ensures LinkedAt(m', bs, i)
    {
      assert LinkedAt(m, bs, i) && b.Apart(bs[i]);
    }
    hide Freeable, Linked;
    forall c | c in live
      ensures c.addr != a
    {
      assert c == b || c.Apart(b);
    }
  }

  /** The two tests of the search of `free`, between a block at `p` and its successor at `next`. */
  predicate Stops(a: nat, p: nat, next: nat) { (a > p && a < next) || (p >= next && (a > p || a < next)) }

  /** They succeed at the gap of `b` and nowhere else on the cycle. */
  lemma StopsAtGap(bs: seq<Block>, b: Block, i: nat)
    requires Ordered(bs) && Freeable(bs, b) && i < |bs|
    ensures Stops(b.addr, bs[i].addr, bs[Succ(i, |bs|)].addr) <==> i == Gap(bs, b.addr)
  {
    var g, n := Gap(bs, b.addr), |bs|;
    GapFits(bs, b);
    hide Ascending;
    if i > 0 { InOrder(bs, 0, i); }
    if i + 1 < n { InOrder(bs, i, i + 1); }
    if i < g { InOrder(bs, i, g); }
    if i + 1 < g { InOrder(bs, i + 1, g); }
    if g + 1 < i { InOrder(bs, g + 1, i); }
    assert b.Apart(bs[i]);
  }

  lemma StopsIs(a: nat, p: nat, next: nat)
    ensures Stops(a, p, next) <==> (a > p && a < next) || (p >= next && (a > p || a < next))
  {
  }

  lemma LinkedFrom(m: seq<Unit>, bs: seq<Block>, i: nat)
    requires Linked(m, bs) && i < |bs|
    ensures LinkedAt(m, bs, i)
  {
  }

  function NewBlock(grant: Option<nat>, nunits: nat): Block
    requires grant.Some?
  {
    Block(grant.value, Asked(nunits))
  }

  class Heap {
    const mem: array<Unit>             // the address space, unit by unit; unit 0 is `base`
    var freep: Option<nat>             // None is the null pointer
    ghost var free: seq<Block>         // base and the free blocks, in address order
    ghost var rover: nat               // index in `free` of the block at `freep`
    ghost var live: set<Block>         // blocks handed out and not yet freed
    ghost var owned: set<nat>          // units obtained from sbrk so far
    ghost var top: nat                 // every unit obtained lies below `top`

    /** The list structure alone: what `free` relies on and restores. */
    ghost predicate Chained()
      reads this, mem
    {
      && Ordered(free)
      && Linked(mem[..], free)
      && rover < |free|
      && freep == Some(free[rover].addr)
    }

    ghost predicate Valid()
      reads this, mem
    {
      && 0 < top <= mem.Length
      && Ordered(free) && Partition(free, live, owned)
      && (forall u :: u in owned ==> 0 < u < top)
      && LiveHeaders(mem[..], live, top)
      && (forall i :: 0 <= i < |free| ==> free[i].End() <= top)
      && (if freep.None? then free == [Block(0, 0)] && rover == 0 && live == {} && owned == {} else Chained())
    }

    /** What the system promises of sbrk when it is asked for memory: fresh units above everything obtained before. */
    ghost predicate GrantOk(grant: Option<nat>, nunits: nat)
      reads this
    {
      grant.Some? && Increment(nunits) > 0 ==> top <= grant.value && NewBlock(grant, nunits).End() <= mem.Length
    }

    constructor (units: nat)
      requires units > 0
      ensures Valid() && live == {} && owned == {} && fresh(mem) && mem.Length == units
    {
      mem := new Unit[units](i => Unit(0, 0));
      freep := None;
      free, rover, live, owned, top := [Block(0, 0)], 0, {}, {}, 1;
    }

    /** The search loop of `free`: it reaches the unique gap from any roving pointer. */
    method FindGap(bp: nat, ghost b: Block) returns (p: nat)
      requires Chained() && b.addr == bp && Freeable(free, b)
      ensures p == free[Gap(free, bp)].addr
    {
      hide Ordered, Freeable, Linked, Stops, Gap;
      ghost var g := Gap(free, bp);
      p := freep.value;
      ghost var i: nat := rover;
      LinkedFrom(mem[..], free, i);
      while !(bp > p && bp < mem[p].ptr)
        invariant i < |free| && p == free[i].addr && LinkedAt(mem[..], free, i)
        decreases if i <= g then g - i else |free| - i + g
      {
        StopsAtGap(free, b, i);
        StopsIs(bp, p, mem[p].ptr);
        if p >= mem[p].ptr && (bp > p || bp < mem[p].ptr) {
          break;
        }
        p := mem[p].ptr;
        i := Succ(i, |free|);
        LinkedFrom(mem[..], free, i);
      }
      StopsAtGap(free, b, i);
      StopsIs(bp, p, mem[p].ptr);
    }

    /** The second half of `free`: join block `bp` to its neighbours or link it after `p`. */
    method Join(bp: nat, p: nat, ghost bs: seq<Block>, ghost g: nat)
      requires bp < mem.Length && g < |bs| && p == bs[g].addr < bp
      requires Linked(mem[..], bs) && OtherHeaders(bs, g, Block(bp, mem[bp].size))
      requires bs[0].addr == 0 && mem[bp].size > 0
      modifies mem
      ensures Relinked(mem[..], bs, g, Block(bp, old(mem[bp].size)))
      ensures forall u :: 0 <= u < mem.Length && u != bp && u != p ==> mem[u] == old(mem[u])
    {
      assert LinkedAt(mem[..], bs, g) && LinkedAt(mem[..], bs, Succ(g, |bs|));
      if bp + mem[bp].size == mem[p].ptr {
        mem[bp] := Unit(mem[bp].ptr, mem[bp].size + mem[mem[p].ptr].size);
        mem[bp] := Unit(mem[mem[p].ptr].ptr, mem[bp].size);
      } else {
        mem[bp] := Unit(mem[p].ptr, mem[bp].size);
      }
      if p + mem[p].size == bp {
        mem[p] := Unit(mem[p].ptr, mem[p].size + mem[bp].size);
        mem[p] := Unit(mem[bp].ptr, mem[p].size);
      } else {
        mem[p] := Unit(bp, mem[p].size);
      }
    }

    /** The body of `free`: search for the gap, then join or link on both sides. */
    method LinkIn(bp: nat)
      requires Chained()
      requires bp < mem.Length && Freeable(free, Block(bp, mem[bp].size)) && bp + mem[bp].size <= mem.Length
      modifies mem, `freep, `free, `rover
      ensures Chained()
      ensures free == Insert(old(free), Block(bp, old(mem[bp].size)))
      ensures rover == Gap(old(free), bp)
      ensures forall u :: 0 <= u < mem.Length && u != bp && u != old(free)[rover].addr ==> mem[u] == old(mem[u])
    {
      ghost var b, g, bs, m := Block(bp, mem[bp].size), Gap(free, bp), free, mem[..];
      GapFits(bs, b);
      HeadersDiffer(bs, g, b);
      var p := FindGap(bp, b);
      assert LinkedAt(m, bs, g);
      Join(bp, p, bs, g);
      freep := Some(p);
      free := Insert(bs, b);
      rover := g;
      InsertOrdered(bs, b);
      JoinedLinks(m, mem[..], bs, g, b);
    }

    /** `free`: the payload pointer is one unit past the header of a live block. */
    method Free(ap: nat)
      requires Valid()
      requires 0 < ap <= mem.Length && Block(ap - 1, mem[ap - 1].size) in live
      modifies mem, `freep, `free, `rover, `live
      ensures Valid()
      ensures free == Insert(old(free), Block(ap - 1, old(mem[ap - 1].size)))
      ensures live == old(live) - {Block(ap - 1, old(mem[ap - 1].size))}
      ensures rover == Gap(old(free), ap - 1)
      ensures Untouched(old(mem[..]), mem[..], live)
    {
      hide HeapSpec.Ordered;
      hide HeapSpec.Partition;
      hide HeapSpec.Insert;
      hide Linked;
      var bp := ap - 1;
      ghost var b, bs, m, others := Block(bp, mem[bp].size), free, mem[..], live - {Block(bp, mem[bp].size)};
      PartitionFree(bs, live, owned, b);
      OthersApart(live, owned, bs, b);
      GapFits(bs, b);
      InsertEnds(bs, b, top);
      FreeHeaderNotLive(bs, live, owned, Gap(bs, bp));
      LinkIn(bp);
      live := others;
      LiveUntouched(m, mem[..], others, top, bp, bs[rover].addr);
    }

    /** An exact fit leaves the list: the predecessor's link steps over it. */
    method Unlink(prevp: nat, p: nat, ghost k: nat)
      requires Chained() && 0 < k < |free| && prevp == free[k - 1].addr && p == free[k].addr
      requires p < mem.Length && mem[p].size == free[k].size
      modifies mem
      ensures Linked(mem[..], free[..k] + free[k + 1..])
      ensures forall u :: 0 <= u < mem.Length && u != prevp ==> mem[u] == old(mem[u])
    {
      hide Linked;
      ghost var m := mem[..];
      LinksAround(m, free, k);
      AddressesDiffer(free, k, free[k].size);
      hide HeapSpec.Ordered;
      mem[prevp] := Unit(mem[p].ptr, mem[prevp].size);
      UnlinkedLinks(m, mem[..], free, k);
    }

    /** A larger block keeps its head; its tail becomes the new block at `h`. */
    method Shrink(p: nat, nunits: nat, ghost k: nat) returns (h: nat)
      requires Chained() && 0 < k < |free| && p == free[k].addr && 0 < nunits < free[k].size
      modifies mem
      ensures h == free[k].End() - nunits < mem.Length && mem[h].size == nunits
      ensures Linked(mem[..], Take(free, k, nunits))
      ensures forall u :: 0 <= u < mem.Length && u != p && u != h ==> mem[u] == old(mem[u])
    {
      hide Linked;
      ghost var m := mem[..];
      LinksAround(m, free, k);
      AddressesDiffer(free, k, nunits);
      hide HeapSpec.Ordered;
      mem[p] := Unit(mem[p].ptr, mem[p].size - nunits);
      h := p + mem[p].size;
      mem[h] := Unit(mem[h].ptr, nunits);
      ShrunkLinks(m, mem[..], free, k, nunits);
    }

    /** Cut `nunits` from the tail of free block `k`, whose predecessor is at `prevp`. */
    method Carve(prevp: nat, p: nat, nunits: nat, ghost k: nat) returns (h: nat)
      requires Valid() && freep.Some? && 0 < k < |free|
      requires prevp == free[k - 1].addr && p == free[k].addr && 0 < nunits <= free[k].size
      modifies mem, `freep, `free, `rover, `live
      ensures Valid() && freep.Some?
      ensures free == Take(old(free), k, nunits) && rover == k - 1
      ensures live == old(live) + {Taken(old(free), k, nunits)} && h == Taken(old(free), k, nunits).addr
      ensures Taken(old(free), k, nunits) !in old(live)
      ensures Untouched(old(mem[..]), mem[..], old(live))
    {
      hide HeapSpec.Partition;
      hide HeapSpec.Ordered;
      hide Linked;
      ghost var bs, m := free, mem[..];
      LinksAround(m, bs, k);
      TakenNotLive(bs, live, owned, k, nunits);
      AddressesDiffer(bs, k, nunits);
      TakeOrdered(bs, k, nunits);
      PartitionTake(bs, live, owned, k, nunits);
      TakeEnds(bs, k, nunits, top);
      h := p;
      if mem[p].size == nunits {
        Unlink(prevp, p, k);
        LiveUntouched(m, mem[..], live, top, prevp, prevp);
      } else {
        h := Shrink(p, nunits, k);
        LiveUntouched(m, mem[..], live, top, p, h);
      }
      hide Untouched;
      AddLiveHeader(mem[..], live, top, Taken(bs, k, nunits));
      hide LiveHeaders;
      assert Take(bs, k, nunits)[k - 1] == bs[k - 1];
      hide HeapSpec.Take;
      freep := Some(prevp);
      free := Take(bs, k, nunits);
      rover := k - 1;
      live := live + {Taken(bs, k, nunits)};
    }

    /** The granted half of `morecore`: write the header of the new block and free it. */
    method Extend(up: nat, nu: nat)
      requires Valid() && freep.Some? && 0 < nu && top <= up && up + nu <= mem.Length
      modifies mem, `freep, `free, `rover, `owned, `top
      ensures Valid() && freep.Some? && Untouched(old(mem[..]), mem[..], live)
      ensures Freeable(old(free), Block(up, nu))
      ensures free == Insert(old(free), Block(up, nu)) && rover == Gap(old(free), up)
      ensures owned == old(owned) + UnitsOf(Block(up, nu)) && top == up + nu
    {
      hide HeapSpec.Ordered;
      hide HeapSpec.Partition;
      hide HeapSpec.Freeable;
      hide HeapSpec.Insert;
      hide HeapSpec.Gap;
      hide HeapSpec.UnitsOf;
      hide Linked;
      hide LiveHeaders;
      hide Untouched;
      ghost var b, bs, m := Block(up, nu), free, mem[..];
      mem[up] := Unit(mem[up].ptr, nu);
      FreshBlock(m, mem[..], bs, live, owned, top, b);
      PartitionGrow(bs, live, owned, b);
      LinkIn(up);
      owned := owned + UnitsOf(b);
      RaisedUntouched(m, mem[..], live, top, b, bs[rover].addr);
      top := b.End();
    }

    /** `morecore`: `grant` is where sbrk places the new units, None when it refuses. */
    method Morecore(nunits: nat, grant: Option<nat>) returns (r: More)
      requires Valid() && freep.Some? && nunits > 0 && GrantOk(grant, nunits)
      modifies mem, `freep, `free, `rover, `owned, `top
      ensures Valid() && freep.Some?
      ensures r == if Increment(nunits) <= 0 then Misled else if grant.None? then NoSpace else More(freep.value)
      ensures Untouched(old(mem[..]), mem[..], live)
      ensures !r.More? ==> mem[..] == old(mem[..]) && unchanged(`freep, `free, `rover, `owned, `top)
      ensures r.More? ==>
        && Freeable(old(free), NewBlock(grant, nunits))
        && free == Insert(old(free), NewBlock(grant, nunits)) && rover == Gap(old(free), grant.value)
        && owned == old(owned) + UnitsOf(NewBlock(grant, nunits))
    {
      hide HeapSpec.Insert;
      hide HeapSpec.Gap;
      hide HeapSpec.Freeable;
      var nu := Asked(nunits);
      if Increment(nunits) <= 0 {
        return Misled;
      }
      if grant.None? {
        return NoSpace;
      }
      Extend(grant.value, nu);
      r := More(freep.value);
    }

    lemma ListFacts()
      requires Valid() && freep.Some?
      ensures Linked(mem[..], free) && Ordered(free) && rover < |free| && freep == Some(free[rover].addr)
    {
    }

    /** The first call of `malloc` links `base` to itself. */
    method StartUp()
      requires Valid()
      modifies mem, `freep
      ensures Valid() && freep.Some? && Untouched(old(mem[..]), mem[..], live)
    {
      if freep.None? {
        ghost var m := mem[..];
        mem[0] := Unit(0, 0);
        freep := Some(0);
        BaseAlone(m, mem[..], live, top);
      }
    }

    /** `malloc`: next fit from the roving pointer, asking the system for more at most once. */
    method Allocate(nbytes: nat, grant: Option<nat>) returns (r: Given)
      requires Valid() && nbytes < UINT_MODULUS && GrantOk(grant, UnitsFor(nbytes))
      modifies mem, `freep, `free, `rover, `live, `owned, `top
      ensures Valid() && freep.Some?
      ensures Untouched(old(mem[..]), mem[..], old(live))
      ensures MallocSpec(old(free), old(rover), old(live), old(owned), UnitsFor(nbytes), grant, free, rover,
          live, owned, r)
    {
      hide HeapSpec.Ordered;
      hide HeapSpec.Partition;
      hide HeapSpec.Freeable;
      hide HeapSpec.Insert;
      hide HeapSpec.Gap;
      hide HeapSpec.UnitsOf;
      hide Linked;
      hide LiveHeaders;
      hide Untouched;
      hide UnitsFor;
      hide Increment;
      hide NextFit;
      hide Lap;
      hide Stage;
      hide MallocSpec;
      hide At;
      hide HeapSpec.Take;
      hide Valid;
      hide Chained;
      var nunits := UnitsFor(nbytes);
      ghost var m0, bs0, from := mem[..], free, rover;
      ghost var asked := false;
      StartUp();
      ListFacts();
      var prevp := freep.value;
      NextAt(mem[..], free, rover);
      var p := mem[prevp].ptr;
      ghost var j: nat, left: nat := Succ(rover, |free|), |free|;
      LapStart(free, rover, nunits);
      assert Stage(asked, bs0, from, owned, grant, nunits, free, rover, owned) by {
        StageStart(bs0, from, owned, grant, nunits);
      }
      while true
        invariant Valid() && freep.Some? && live == old(live)
        invariant Untouched(m0, mem[..], live)
        invariant Stage(asked, bs0, from, old(owned), grant, nunits, free, rover, owned)
        invariant !asked ==> top == old(top)
        invariant Lap(free, rover, nunits, j, left)
        invariant At(free, j, prevp, p)
        decreases !asked, left
      {
        ghost var m := mem[..];
        ListFacts();
        HeaderAt(m, free, j, prevp, p);
        NextAt(m, free, j);
        if mem[p].size >= nunits {
          LapHit(free, rover, nunits, j, left);
          StageServed(asked, bs0, from, live, old(owned), grant, nunits, free, rover, owned, j);
          var h := Carve(prevp, p, nunits, j);
          UntouchedTwice(m0, m, mem[..], old(live));
          return Given(h + 1);
        }
        if p == freep.value {
          SameAddressSameIndex(free, j, rover);
          LapOver(free, rover, nunits, left);
          LapFailed(asked, bs0, from, live, old(owned), grant, nunits, free, rover, owned);
          var more := Morecore(nunits, grant);
          if more.Misled? {
            return Astray;
          }
          if more.NoSpace? {
            return NoMemory;
          }
          asked := true;
          UntouchedTwice(m0, m, mem[..], live);
          ListFacts();
          AskedOnce(bs0, from, old(owned), grant, nunits, free, rover, owned);
          p := more.p;
          j, left := rover, |free|;
          NextAt(mem[..], free, j);
          LapStart(free, rover, nunits);
        } else {
          LapStep(free, rover, nunits, j, left);
          left := left - 1;
        }
        prevp := p;
        p := mem[p].ptr;
        j := Succ(j, |free|);
      }
    }

    /** The client may write any word of a live block's payload; nothing else depends on it. */
    method Store(a: nat, u: Unit, ghost b: Block)
      requires Valid() && b in live && b.addr < a < b.End()
      modifies mem
      ensures Valid() && mem[..] == old(mem[..])[a := u]
    {
      mem[a] := u;
      StoreLinked(old(mem[..]), mem[..], free, live, owned, top, b, a);
    }
  }
}

/** The abstract free list of the storage allocator: an address-ordered sequence of
    blocks, with the two operations `malloc` and `free` perform on it.  Addresses count
    header-sized units (8 bytes each); address 0 stands for the static header `base`,
    which lies below the heap. */
module HeapSpec {

  datatype Block = Block(addr: nat, size: nat) {
    function End(): nat { addr + size }
    predicate Has(u: nat) { addr <= u < End() }
    predicate Below(that: Block) { End() < that.addr }
    predicate Apart(that: Block) { End() <= that.addr || that.End() <= addr }
  }

  /** `base` first, then the free blocks in address order, no two of them touching. */
  ghost predicate Ordered(bs: seq<Block>) {
    && |bs| > 0
    && bs[0] == Block(0, 0)
    && (forall i :: 0 < i < |bs| ==> bs[i].size > 0)
    && Ascending(bs)
  }

  /** Each block ends before the later ones begin, with something in between. */
  ghost predicate Ascending(bs: seq<Block>) {
    forall i, j :: 0 <= i < j < |bs| ==> bs[i].Below(bs[j])
  }

  lemma InOrder(bs: seq<Block>, i: nat, j: nat)
    requires Ascending(bs) && i < j < |bs|
    ensures bs[i].End() < bs[j].addr
  {
    assert bs[i].Below(bs[j]);
  }

  ghost predicate InFree(bs: seq<Block>, u: nat) {
    exists i :: 0 <= i < |bs| && bs[i].Has(u)
  }

  ghost predicate InLive(live: set<Block>, u: nat) {
    exists b :: b in live && b.Has(u)
  }

  /** A block clear of `base` and of every free block: what may be handed to `free`. */
  ghost predicate Freeable(bs: seq<Block>, b: Block) {
    b.addr > 0 && b.size > 0 && forall i :: 0 <= i < |bs| ==> b.Apart(bs[i])
  }

  /** Every unit obtained from the system is in a free or a live block, and there are no others. */
  ghost predicate Covers(bs: seq<Block>, live: set<Block>, owned: set<nat>) {
    forall u :: u in owned <==> InFree(bs, u) || InLive(live, u)
  }

  ghost predicate ClearOfFree(bs: seq<Block>, live: set<Block>) {
    forall b :: b in live ==> Freeable(bs, b)
  }

  ghost predicate Parted(live: set<Block>) {
    forall b, c :: b in live && c in live && b != c ==> b.Apart(c)
  }

  /** Free and live blocks exactly partition the units obtained from the system. */
  ghost predicate Partition(bs: seq<Block>, live: set<Block>, owned: set<nat>) {
    Covers(bs, live, owned) && ClearOfFree(bs, live) && Parted(live)
  }

  /** Index of the last block that starts below `a`: the place where a block at `a` belongs. */
  function Gap(bs: seq<Block>, a: nat): (g: nat)
    requires |bs| > 0
    ensures g < |bs|
    ensures forall i :: 0 < i <= g ==> bs[i].addr < a
    ensures g + 1 < |bs| ==> a <= bs[g + 1].addr
  {
    if |bs| == 1 || a <= bs[1].addr then 0 else 1 + Gap(bs[1..], a)
  }

  /** `bs` with the blocks of `[lo, hi)` replaced by `mid`. */
  function Splice(bs: seq<Block>, lo: nat, hi: nat, mid: Block): (ns: seq<Block>)
    requires lo <= hi <= |bs|
    ensures |ns| == |bs| - (hi - lo) + 1
    ensures forall i :: 0 <= i < lo ==> ns[i] == bs[i]
    ensures ns[lo] == mid
    ensures forall i :: lo < i < |ns| ==> ns[i] == bs[i + hi - lo - 1]
  {
    bs[..lo] + [mid] + bs[hi..]
  }

  /** The block that `b` becomes when it joins the neighbours it touches around gap `g`. */
  function Joined(bs: seq<Block>, g: nat, b: Block): Block
    requires g < |bs|
  {
    var low := bs[g].End() == b.addr;
    var up := g + 1 < |bs| && b.End() == bs[g + 1].addr;
    Block(if low then bs[g].addr else b.addr,
          (if low then bs[g].size else 0) + b.size + (if up then bs[g + 1].size else 0))
  }

  function InsertAt(bs: seq<Block>, g: nat, b: Block): seq<Block>
    requires g < |bs|
  {
    Splice(bs,
           if bs[g].End() == b.addr then g else g + 1,
           if g + 1 < |bs| && b.End() == bs[g + 1].addr then g + 2 else g + 1,
           Joined(bs, g, b))
  }

  /** The free list after freeing `b`: inserted at its gap and merged with both neighbours. */
  function Insert(bs: seq<Block>, b: Block): seq<Block>
    requires |bs| > 0
  {
    InsertAt(bs, Gap(bs, b.addr), b)
  }

  /** The free list after `n` units are cut from the tail of block `k`. */
  function Take(bs: seq<Block>, k: nat, n: nat): seq<Block>
    requires k < |bs| && n <= bs[k].size
  {
    if bs[k].size == n then bs[..k] + bs[k + 1..] else bs[k := Block(bs[k].addr, bs[k].size - n)]
  }

  function Taken(bs: seq<Block>, k: nat, n: nat): Block
    requires k < |bs| && n <= bs[k].size
  {
    Block(bs[k].End() - n, n)
  }

  lemma {:induction false} GapUnique(bs: seq<Block>, a: nat, g: nat)
    requires Ordered(bs) && g < |bs| && a > 0
    requires bs[g].addr < a && (g + 1 < |bs| ==> a <= bs[g + 1].addr)
    ensures Gap(bs, a) == g
  {
  }

  lemma NonEmpty(bs: seq<Block>)
    requires Ordered(bs)
    ensures |bs| > 0
  {
  }

  lemma SpliceOrdered(bs: seq<Block>, lo: nat, hi: nat, mid: Block)
    requires Ordered(bs) && 0 < lo <= hi <= |bs| && mid.size > 0
    requires bs[lo - 1].End() < mid.addr
    requires hi < |bs| ==> mid.End() < bs[hi].addr
    ensures Ordered(Splice(bs, lo, hi, mid))
  {
    var ns := Splice(bs, lo, hi, mid);
    assert Ascending(ns) by {
      forall i: nat, j: nat | i < j < |ns|
        ensures ns[i].Below(ns[j])
      {
        SplicePair(bs, lo, hi, mid, i, j);
      }
    }
    hide Ascending;
  }

  lemma SplicePair(bs: seq<Block>, lo: nat, hi: nat, mid: Block, i: nat, j: nat)
    requires Ascending(bs) && 0 < lo <= hi <= |bs| && bs[lo - 1].End() < mid.addr
    requires hi < |bs| ==> mid.End() < bs[hi].addr
    requires i < j < |Splice(bs, lo, hi, mid)|
    ensures Splice(bs, lo, hi, mid)[i].Below(Splice(bs, lo, hi, mid)[j])
  {
    hide Ascending;
    var shift := hi - lo - 1;
    if j < lo {
      InOrder(bs, i, j);
    } else if j == lo {
      if i < lo - 1 { InOrder(bs, i, lo - 1); }
    } else if i == lo {
      if hi < j + shift { InOrder(bs, hi, j + shift); }
    } else {
      InOrder(bs, if i < lo then i else i + shift, j + shift);
    }
  }

  lemma SpliceUnits(bs: seq<Block>, lo: nat, hi: nat, mid: Block, u: nat)
    requires lo <= hi <= |bs|
    ensures InFree(Splice(bs, lo, hi, mid), u) <==>
            mid.Has(u) || exists i :: 0 <= i < |bs| && !(lo <= i < hi) && bs[i].Has(u)
  {
    var ns := Splice(bs, lo, hi, mid);
    if InFree(ns, u) {
      var j :| 0 <= j < |ns| && ns[j].Has(u);
      if j < lo { assert bs[j].Has(u); }
      if j > lo { assert bs[j + hi - lo - 1].Has(u); }
    }
    if mid.Has(u) { assert ns[lo].Has(u); }
    if i :| 0 <= i < |bs| && !(lo <= i < hi) && bs[i].Has(u) {
      assert ns[if i < lo then i else i - hi + lo + 1].Has(u);
    }
  }

  /** Gap `g` is where `b` lies: clear of the blocks on either side of it. */
  ghost predicate Fits(bs: seq<Block>, g: nat, b: Block) {
    && g < |bs| && b.size > 0 && b.addr > 0
    && bs[g].End() <= b.addr
    && (g + 1 < |bs| ==> b.End() <= bs[g + 1].addr)
  }

  lemma GapFits(bs: seq<Block>, b: Block)
    requires Ordered(bs) && Freeable(bs, b)
    ensures Fits(bs, Gap(bs, b.addr), b)
  {
    hide Ascending;
    var g := Gap(bs, b.addr);
    assert b.Apart(bs[g]);
    assert g + 1 < |bs| ==> b.Apart(bs[g + 1]);
  }

  lemma InsertAtOrdered(bs: seq<Block>, g: nat, b: Block)
    requires Ordered(bs) && Fits(bs, g, b)
    ensures Ordered(InsertAt(bs, g, b))
  {
    var low := bs[g].End() == b.addr;
    var up := g + 1 < |bs| && b.End() == bs[g + 1].addr;
    var lo, hi := if low then g else g + 1, if up then g + 2 else g + 1;
    hide Ascending;
    if low { InOrder(bs, g - 1, g); }
    if up && g + 2 < |bs| { InOrder(bs, g + 1, g + 2); }
    SpliceOrdered(bs, lo, hi, Joined(bs, g, b));
  }

  lemma InsertAtUnits(bs: seq<Block>, g: nat, b: Block, u: nat)
    requires Ordered(bs) && Fits(bs, g, b)
    ensures InFree(InsertAt(bs, g, b), u) <==> InFree(bs, u) || b.Has(u)
  {
    var low := bs[g].End() == b.addr;
    var up := g + 1 < |bs| && b.End() == bs[g + 1].addr;
    var lo, hi := if low then g else g + 1, if up then g + 2 else g + 1;
    var mid := Joined(bs, g, b);
    hide Ascending, Joined;
    assert mid == Joined(bs, g, b);
    SpliceUnits(bs, lo, hi, mid, u);
    if i :| 0 <= i < |bs| && bs[i].Has(u) && lo <= i < hi { assert i == g || i == g + 1; }
    JoinedUnits(bs, g, b, u);
  }

  lemma JoinedUnits(bs: seq<Block>, g: nat, b: Block, u: nat)
    requires g < |bs|
    ensures Joined(bs, g, b).Has(u) <==>
              || b.Has(u) || (bs[g].End() == b.addr && bs[g].Has(u))
              || (g + 1 < |bs| && b.End() == bs[g + 1].addr && bs[g + 1].Has(u))
  {
  }

  lemma InsertOrdered(bs: seq<Block>, b: Block)
    requires Ordered(bs) && Freeable(bs, b)
    ensures Ordered(Insert(bs, b))
  {
    GapFits(bs, b);
    InsertAtOrdered(bs, Gap(bs, b.addr), b);
  }

  lemma InsertUnits(bs: seq<Block>, b: Block, u: nat)
    requires Ordered(bs) && Freeable(bs, b)
    ensures InFree(Insert(bs, b), u) <==> InFree(bs, u) || b.Has(u)
  {
    GapFits(bs, b);
    InsertAtUnits(bs, Gap(bs, b.addr), b, u);
  }

  lemma TakeOrdered(bs: seq<Block>, k: nat, n: nat)
    requires Ordered(bs) && 0 < k < |bs| && 0 < n <= bs[k].size
    ensures Ordered(Take(bs, k, n))
    ensures Freeable(Take(bs, k, n), Taken(bs, k, n))
  {
    hide Ascending;
    InOrder(bs, 0, k);
    var ns := Take(bs, k, n);
    forall i: nat | i < |ns|
      ensures Taken(bs, k, n).Apart(ns[i]) && (i > 0 ==> ns[i].size > 0)
    {
      TakeClear(bs, k, n, i);
    }
    assert Ascending(ns) by { TakeAscending(bs, k, n); }
  }

  /** Where block `i` of the list after a cut was before it. */
  function Before(bs: seq<Block>, k: nat, n: nat, i: nat): nat
    requires k < |bs|
  {
    if bs[k].size == n && i >= k then i + 1 else i
  }

  lemma TakeAscending(bs: seq<Block>, k: nat, n: nat)
    requires Ascending(bs) && k < |bs| && n <= bs[k].size
    ensures Ascending(Take(bs, k, n))
  {
    var ns := Take(bs, k, n);
    forall i: nat, j: nat | i < j < |ns|
      ensures ns[i].Below(ns[j])
    {
      hide Ascending;
      InOrder(bs, Before(bs, k, n, i), Before(bs, k, n, j));
    }
  }

  lemma TakeClear(bs: seq<Block>, k: nat, n: nat, i: nat)
    requires Ordered(bs) && 0 < k < |bs| && 0 < n <= bs[k].size && i < |Take(bs, k, n)|
    ensures Taken(bs, k, n).Apart(Take(bs, k, n)[i]) && (i > 0 ==> Take(bs, k, n)[i].size > 0)
  {
    hide Ascending;
    var was := Before(bs, k, n, i);
    if was < k { InOrder(bs, was, k); } else if was > k { InOrder(bs, k, was); }
  }

  lemma TakeUnits(bs: seq<Block>, k: nat, n: nat, u: nat)
    requires Ordered(bs) && 0 < k < |bs| && 0 < n <= bs[k].size
    ensures InFree(bs, u) <==> InFree(Take(bs, k, n), u) || Taken(bs, k, n).Has(u)
  {
    var ns, b := Take(bs, k, n), Taken(bs, k, n);
    TakeOrdered(bs, k, n);
    FreeUndoesMalloc(bs, k, n);
    InsertUnits(ns, b, u);
  }

  lemma ExactThenInsertAt(bs: seq<Block>, k: nat)
    requires 0 < k < |bs| && bs[k - 1].End() < bs[k].addr
    requires k + 1 < |bs| ==> bs[k].End() < bs[k + 1].addr
    ensures InsertAt(bs[..k] + bs[k + 1..], k - 1, bs[k]) == bs
  {
  }

  lemma TailThenInsertAt(bs: seq<Block>, k: nat, n: nat)
    requires k < |bs| && n < bs[k].size
    requires k + 1 < |bs| ==> bs[k].End() < bs[k + 1].addr
    ensures InsertAt(Take(bs, k, n), k, Taken(bs, k, n)) == bs
  {
  }

  lemma InsertIsAt(bs: seq<Block>, b: Block, g: nat)
    requires Ordered(bs) && Fits(bs, g, b)
    ensures Insert(bs, b) == InsertAt(bs, g, b)
  {
    GapUnique(bs, b.addr, g);
  }

  /** Freeing a block straight after allocating it restores the free list exactly. */
  lemma FreeUndoesMalloc(bs: seq<Block>, k: nat, n: nat)
    requires Ordered(bs) && 0 < k < |bs| && 0 < n <= bs[k].size
    ensures Insert(Take(bs, k, n), Taken(bs, k, n)) == bs
  {
    TakeOrdered(bs, k, n);
    if bs[k].size == n { ExactRestores(bs, k); } else { TailRestores(bs, k, n); }
  }

  lemma ExactRestores(bs: seq<Block>, k: nat)
    requires Ordered(bs) && 0 < k < |bs| && Ordered(bs[..k] + bs[k + 1..])
    ensures Insert(bs[..k] + bs[k + 1..], bs[k]) == bs
  {
    hide Ascending, InsertAt, Insert;
    InOrder(bs, k - 1, k);
    if k + 1 < |bs| { InOrder(bs, k, k + 1); }
    ExactThenInsertAt(bs, k);
    InsertIsAt(bs[..k] + bs[k + 1..], bs[k], k - 1);
  }

  lemma TailRestores(bs: seq<Block>, k: nat, n: nat)
    requires Ordered(bs) && 0 < k < |bs| && 0 < n < bs[k].size && Ordered(Take(bs, k, n))
    ensures Insert(Take(bs, k, n), Taken(bs, k, n)) == bs
  {
    hide Ascending, InsertAt, Insert;
    if k + 1 < |bs| { InOrder(bs, k, k + 1); }
    TailThenInsertAt(bs, k, n);
    InsertIsAt(Take(bs, k, n), Taken(bs, k, n), k);
  }

  /** Two live blocks may be freed in either order: the resulting free list is the same. */
  lemma FreesCommute(bs: seq<Block>, b: Block, c: Block)
    requires Ordered(bs) && Freeable(bs, b) && Freeable(bs, c) && b.Apart(c)
    ensures Insert(Insert(bs, b), c) == Insert(Insert(bs, c), b)
  {
    hide Ordered, Insert, InFree, Freeable;
    NonEmpty(bs);
    InsertOrdered(bs, b);
    InsertOrdered(bs, c);
    NonEmpty(Insert(bs, b));
    NonEmpty(Insert(bs, c));
    InsertBoth(bs, b, c);
    InsertBoth(bs, c, b);
    OrderedUnique(Insert(Insert(bs, b), c), Insert(Insert(bs, c), b));
  }

  lemma InsertBoth(bs: seq<Block>, b: Block, c: Block)
    requires Ordered(bs) && Freeable(bs, b) && Freeable(bs, c) && b.Apart(c)
    ensures Ordered(Insert(Insert(bs, b), c))
    ensures forall u: nat :: InFree(Insert(Insert(bs, b), c), u) <==> InFree(bs, u) || b.Has(u) || c.Has(u)
  {
    hide Ordered, Insert, InFree, Freeable;
    NonEmpty(bs);
    InsertKeepsFreeable(bs, b, c);
    InsertOrdered(bs, b);
    NonEmpty(Insert(bs, b));
    InsertOrdered(Insert(bs, b), c);
    forall u: nat
      ensures InFree(Insert(Insert(bs, b), c), u) <==> InFree(bs, u) || b.Has(u) || c.Has(u)
    {
      InsertUnits(bs, b, u);
      InsertUnits(Insert(bs, b), c, u);
    }
  }

  lemma InsertKeepsFreeable(bs: seq<Block>, b: Block, c: Block)
    requires Ordered(bs) && Freeable(bs, b) && Freeable(bs, c) && b.Apart(c)
    ensures Freeable(Insert(bs, b), c)
  {
    InsertOrdered(bs, b);
    var ns := Insert(bs, b);
    forall i | 0 <= i < |ns|
      ensures c.Apart(ns[i])
    {
      var u := if c.addr <= ns[i].addr then ns[i].addr else c.addr;
      InsertUnits(bs, b, u);
      assert ns[i].Has(u) ==> InFree(ns, u);
      assert InFree(bs, u) ==> !c.Has(u);
    }
  }

  lemma OrderedUnique(x: seq<Block>, y: seq<Block>)
    requires Ordered(x) && Ordered(y)
    requires forall u: nat :: InFree(x, u) <==> InFree(y, u)
    ensures x == y
  {
    assert x[..1] == [Block(0, 0)] == y[..1];
    UnitsDetermineList(x, y, 1);
    assert x == x[..1] + x[1..] && y == y[..1] + y[1..];
  }

  /** An ordered list of non-touching blocks is determined by the units it covers. */
  lemma {:induction false} UnitsDetermineList(x: seq<Block>, y: seq<Block>, i: nat)
    requires Ordered(x) && Ordered(y) && 1 <= i <= |x| && i <= |y|
    requires x[..i] == y[..i]
    requires forall u: nat :: InFree(x, u) <==> InFree(y, u)
    ensures x[i..] == y[i..]
    decreases |x| - i
  {
    if i < |x| { UnitsStart(x, y, i); }
    if i < |y| { UnitsStart(y, x, i); }
    if i < |x| {
      UnitsEnd(x, y, i);
      UnitsEnd(y, x, i);
      assert x[..i + 1] == x[..i] + [x[i]] && y[..i + 1] == y[..i] + [y[i]];
      UnitsDetermineList(x, y, i + 1);
      assert x[i..] == [x[i]] + x[i + 1..] && y[i..] == [y[i]] + y[i + 1..];
    }
  }

  lemma UnitsStart(x: seq<Block>, y: seq<Block>, i: nat)
    requires Ordered(x) && Ordered(y) && 1 <= i < |x| && i <= |y|
    requires x[..i] == y[..i]
    requires forall u: nat :: InFree(x, u) <==> InFree(y, u)
    ensures i < |y| && y[i].addr <= x[i].addr
  {
    var u := x[i].addr;
    assert x[i].Has(u);
    assert InFree(y, u);
    var j :| 0 <= j < |y| && y[j].Has(u);
    assert j >= i by { assert forall k :: 0 <= k < i ==> x[..i][k] == y[..i][k]; }
    assert i < j ==> y[i].End() < y[j].addr;
  }

  lemma UnitsEnd(x: seq<Block>, y: seq<Block>, i: nat)
    requires Ordered(x) && Ordered(y) && 1 <= i < |x| && i < |y|
    requires x[i].addr == y[i].addr
    requires forall u: nat :: InFree(x, u) <==> InFree(y, u)
    ensures y[i].size <= x[i].size
  {
    var u := x[i].End();
    assert !InFree(x, u);
    assert y[i].Has(u) ==> InFree(y, u);
  }

  function UnitsOf(b: Block): set<nat> { set u {:trigger b.Has(u)} | b.addr <= u < b.End() }

  lemma PartitionTake(bs: seq<Block>, live: set<Block>, owned: set<nat>, k: nat, n: nat)
    requires Ordered(bs) && Partition(bs, live, owned)
    requires 0 < k < |bs| && 0 < n <= bs[k].size
    ensures Partition(Take(bs, k, n), live + {Taken(bs, k, n)}, owned)
    ensures Taken(bs, k, n) !in live
  {
    var ns, t := Take(bs, k, n), Taken(bs, k, n);
    TakeOrdered(bs, k, n);
    assert t !in live by { TakenClear(bs, live, k, n, t); }
    hide Ordered, Freeable, InFree, InLive, Take, Taken;
    forall u: nat
      ensures u in owned <==> InFree(ns, u) || InLive(live + {t}, u)
    {
      TakeUnits(bs, k, n, u);
      InLiveAdd(live, t, u);
    }
    forall b | b in live
      ensures Freeable(ns, b) && b.Apart(t) && t.Apart(b)
    {
      TakenClear(bs, live, k, n, b);
      TakeFreeable(bs, k, n, b);
    }
  }

  /** A live block is clear of the part of a free block that is handed out. */
  lemma TakenClear(bs: seq<Block>, live: set<Block>, k: nat, n: nat, b: Block)
    requires ClearOfFree(bs, live) && k < |bs| && 0 < n <= bs[k].size
    ensures b in live ==> b.Apart(Taken(bs, k, n)) && Taken(bs, k, n).Apart(b) && b != Taken(bs, k, n)
  {
    if b in live { assert b.Apart(bs[k]) && b.size > 0; }
  }

  lemma TakeFreeable(bs: seq<Block>, k: nat, n: nat, b: Block)
    requires Freeable(bs, b) && k < |bs| && n <= bs[k].size
    ensures Freeable(Take(bs, k, n), b)
  {
    forall i: nat | i < |Take(bs, k, n)|
      ensures b.Apart(Take(bs, k, n)[i])
    {
      assert b.Apart(bs[Before(bs, k, n, i)]);
    }
  }

  lemma InLiveAdd(live: set<Block>, t: Block, u: nat)
    ensures InLive(live + {t}, u) <==> InLive(live, u) || t.Has(u)
  {
  }

  /** Freeing a live block moves its units from the live side to the free side. */
  lemma PartitionFree(bs: seq<Block>, live: set<Block>, owned: set<nat>, b: Block)
    requires Ordered(bs) && Partition(bs, live, owned) && b in live
    ensures Freeable(bs, b) && Partition(Insert(bs, b), live - {b}, owned)
  {
    hide Ordered, Insert, InFree, InLive, Freeable;
    NonEmpty(bs);
    forall u: nat
      ensures u in owned <==> InFree(Insert(bs, b), u) || InLive(live - {b}, u)
    {
      InsertUnits(bs, b, u);
      InLiveAdd(live - {b}, b, u);
      assert live - {b} + {b} == live;
    }
    forall c: Block | c in live && c != b
      ensures Freeable(Insert(bs, b), c)
    {
      InsertKeepsFreeable(bs, b, c);
    }
  }

  /** Freeing a block of units just obtained from the system. */
  lemma PartitionGrow(bs: seq<Block>, live: set<Block>, owned: set<nat>, b: Block)
    requires Ordered(bs) && Partition(bs, live, owned) && Freeable(bs, b)
    requires forall c :: c in live ==> b.Apart(c)
    ensures Partition(Insert(bs, b), live, owned + UnitsOf(b))
  {
    hide Ordered, Insert, InFree, InLive, Freeable;
    NonEmpty(bs);
    forall u: nat
      ensures u in owned + UnitsOf(b) <==> InFree(Insert(bs, b), u) || InLive(live, u)
    {
      InsertUnits(bs, b, u);
    }
    forall c: Block | c in live
      ensures Freeable(Insert(bs, b), c)
    {
      InsertKeepsFreeable(bs, b, c);
    }
  }

  /** After inserting `b`, some block holds all of it; the others are bounded by what was there. */
  lemma InsertMakesRoom(bs: seq<Block>, b: Block)
    requires Ordered(bs) && Freeable(bs, b)
    ensures exists i :: 0 <= i < |Insert(bs, b)| && Insert(bs, b)[i].size >= b.size
  {
    var g := Gap(bs, b.addr);
    var at := if bs[g].End() == b.addr then g else g + 1;
    assert Insert(bs, b)[at] == Joined(bs, g, b);
  }

  lemma InsertEnds(bs: seq<Block>, b: Block, top: nat)
    requires |bs| > 0 && b.End() <= top && forall i :: 0 <= i < |bs| ==> bs[i].End() <= top
    requires bs[Gap(bs, b.addr)].End() <= b.addr
    ensures forall i :: 0 <= i < |Insert(bs, b)| ==> Insert(bs, b)[i].End() <= top
  {
  }

  lemma TakeEnds(bs: seq<Block>, k: nat, n: nat, top: nat)
    requires 0 < k < |bs| && n <= bs[k].size && forall i :: 0 <= i < |bs| ==> bs[i].End() <= top
    ensures forall i :: 0 <= i < |Take(bs, k, n)| ==> Take(bs, k, n)[i].End() <= top
    ensures k - 1 < |Take(bs, k, n)| && Take(bs, k, n)[k - 1] == bs[k - 1]
  {
  }

  /** What is taken is the end of the block; what is left of it begins where it began. */
  lemma TailTaken(bs: seq<Block>, k: nat, n: nat)
    requires k < |bs| && n <= bs[k].size
    ensures Taken(bs, k, n).size == n && Taken(bs, k, n).End() == bs[k].End()
    ensures n < bs[k].size ==>
              && |Take(bs, k, n)| == |bs| && Take(bs, k, n)[k].addr == bs[k].addr
              && Take(bs, k, n)[k].End() == Taken(bs, k, n).addr
              && forall i :: 0 <= i < |bs| && i != k ==> Take(bs, k, n)[i] == bs[i]
    ensures n == bs[k].size ==> Take(bs, k, n) == bs[..k] + bs[k + 1..]
  {
  }
}

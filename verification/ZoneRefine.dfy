/** The bitmap of the zone map stands for the set of taken zones the file system layer works with. */
module ZoneRefine {
  import opened Bitmap
  import opened Numbers
  import FsSpec

  predicate ZoneTaken(m: seq<Octet>, first: nat, y: nat)
    requires 0 < first
  {
    first - 1 <= y < first - 1 + 8 * |m| && Taken(m, y - (first - 1))
  }

  /** The zones marked in the map; bit 0 is the block before the data zones. */
  function TakenZones(m: seq<Octet>, first: nat): set<nat>
    requires 0 < first
  {
    set y: nat | y < first - 1 + 8 * |m| && ZoneTaken(m, first, y)
  }

  lemma {:induction false} HeadOfFree(taken: set<nat>, from: nat, n: nat, z: nat)
    requires from <= z <= n && (forall y :: from <= y < z ==> y in taken) && (z < n ==> z !in taken)
    ensures FsSpec.FreeFrom(taken, from, n) == [] <==> z == n
    ensures z < n ==> FsSpec.FreeFrom(taken, from, n) != [] && FsSpec.FreeFrom(taken, from, n)[0] == z
    decreases z - from
  {
    if from < z { HeadOfFree(taken, from + 1, n, z); }
  }

  lemma InTaken(m: seq<Octet>, first: nat, z: nat)
    requires 0 < first && z < 8 * |m|
    ensures first - 1 + z in TakenZones(m, first) <==> Taken(m, z)
  {
  }

  /** The zone the bitmap scan finds is the one the file system layer takes next, and marking it adds it
      to the set.  The bits past the last zone `n` and bit 0 have been set when the file system was made. */
  lemma BallocRefines(m: seq<Octet>, first: nat, n: nat)
    requires 0 < first <= n <= first - 1 + 8 * |m| && 0 < |m| && Taken(m, 0)
    requires forall z: nat :: n - (first - 1) <= z < 8 * |m| ==> Taken(m, z)
    ensures var z := FirstFree(m, 0);
            var free := FsSpec.FreeFrom(TakenZones(m, first), first, n);
            if z == 8 * |m| then free == []
            else
              && free != [] && free[0] == first - 1 + z < n
              && TakenZones(SetBit(m, z), first) == TakenZones(m, first) + {first - 1 + z}
  {
    hide Taken, SetBit;
    var z, taken := FirstFree(m, 0), TakenZones(m, first);
    var stop := if z < 8 * |m| then first - 1 + z else n;
    assert z == 8 * |m| || z < n - (first - 1);
    forall y | first <= y < stop
      ensures y in taken
    {
      InTaken(m, first, y - (first - 1));
      assert Taken(m, y - (first - 1));
    }
    if z < 8 * |m| {
      InTaken(m, first, z);
      SetZone(m, first, z);
    }
    HeadOfFree(taken, first, n, stop);
  }

  lemma SetZone(m: seq<Octet>, first: nat, z: nat)
    requires 0 < first && z < 8 * |m|
    ensures TakenZones(SetBit(m, z), first) == TakenZones(m, first) + {first - 1 + z}
  {
    assert |SetBit(m, z)| == |m|;
    hide Taken, SetBit;
    forall y: nat
      ensures y in TakenZones(SetBit(m, z), first) <==> y in TakenZones(m, first) + {first - 1 + z}
    {
      if first - 1 <= y < first - 1 + 8 * |m| {
        var v := y - (first - 1);
        SetTakes(m, z, v);
        InTaken(m, first, v);
        InTaken(SetBit(m, z), first, v);
      }
    }
  }

  /** Clearing the bit of a zone takes it, and nothing else, out of the set. */
  lemma BfreeRefines(m: seq<Octet>, first: nat, z: nat)
    requires 0 < first && z < 8 * |m|
    ensures TakenZones(ClearBit(m, z), first) == TakenZones(m, first) - {first - 1 + z}
  {
    assert |ClearBit(m, z)| == |m|;
    hide Taken, ClearBit;
    forall y: nat
      ensures y in TakenZones(ClearBit(m, z), first) <==> y in TakenZones(m, first) - {first - 1 + z}
    {
      if first - 1 <= y < first - 1 + 8 * |m| {
        var v := y - (first - 1);
        ClearFrees(m, z, v);
        InTaken(m, first, v);
        InTaken(ClearBit(m, z), first, v);
      }
    }
  }

  /** The map has a bit for each of the zones. */
  predicate InMap(m: seq<Octet>, first: nat, zs: seq<nat>)
    requires 0 < first
  {
    forall i :: 0 <= i < |zs| ==> first - 1 <= zs[i] < first - 1 + 8 * |m|
  }

  /** The map once the zones `zs` have been freed, one after the other. */
  function Freed(m: seq<Octet>, first: nat, zs: seq<nat>): seq<Octet>
    requires 0 < first && InMap(m, first, zs)
    decreases |zs|
  {
    if zs == [] then m else Freed(ClearBit(m, zs[0] - (first - 1)), first, zs[1..])
  }

  lemma {:induction false} FreedRefines(m: seq<Octet>, first: nat, zs: seq<nat>)
    requires 0 < first && InMap(m, first, zs)
    ensures TakenZones(Freed(m, first, zs), first) == TakenZones(m, first) - (set z | z in zs)
    decreases |zs|
  {
    hide TakenZones, ClearBit;
    if zs != [] {
      var m', z := ClearBit(m, zs[0] - (first - 1)), zs[0];
      SameSize(m, z - (first - 1));
      BfreeRefines(m, first, z - (first - 1));
      assert TakenZones(m', first) == TakenZones(m, first) - {z};
      FreedRefines(m', first, zs[1..]);
      OneAndRest(TakenZones(m, first), zs);
    }
  }

  lemma SameSize(m: seq<Octet>, u: nat)
    requires u < 8 * |m|
    ensures |ClearBit(m, u)| == |m|
  {
  }

  lemma OneAndRest(taken: set<nat>, zs: seq<nat>)
    requires zs != []
    ensures taken - (set z | z in zs) == taken - {zs[0]} - (set z | z in zs[1..])
  {
    assert zs == [zs[0]] + zs[1..];
  }

  /** With the map of physical pages, whose bit `u` is page `u`: allocation adds the page to the set of
      allocated pages and release takes it out. */
  lemma PagesRefine(m: seq<Octet>, page: nat)
    requires page < 8 * |m|
    ensures page in TakenZones(m, 1) <==> Taken(m, page)
    ensures TakenZones(SetBit(m, page), 1) == TakenZones(m, 1) + {page}
    ensures TakenZones(ClearBit(m, page), 1) == TakenZones(m, 1) - {page}
  {
    InTaken(m, 1, page);
    SetZone(m, 1, page);
    BfreeRefines(m, 1, page);
  }
}

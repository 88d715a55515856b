/** Page tables and the operations on address spaces, over the memory they are kept in. */
module Vm {
  import opened VmSpec
  import opened VmImage
  import R = VmRun

  class Vm {
    var mem: seq<Frame>
    var taken: set<nat>
    var dirs: map<nat, nat>
    var brk: map<nat, nat>
    const kernelTable: nat
    ghost var lost: set<nat>           // allocated pages no table refers to
    ghost const start: R.Kernel        // how the kernel found memory
    ghost var moves: seq<R.Move>       // all that has been done to it since

    function Now(): State
      reads this
    {
      State(mem, taken, dirs, brk)
    }

    ghost predicate Valid()
      reads this
    {
      && kernelTable < 0x10_0000 && Accounted(Now(), lost)
      && Accounted(start.s, start.lost) && start.s.dirs == map[] && R.Leads(start, moves, R.Kernel(Now(), lost))
    }

    /** Every page is allocated. */
    ghost predicate Full()
      reads this
    {
      forall y: nat :: y < |mem| ==> y in taken
    }

    /** Memory as the kernel finds it: some pages are its own, page 0 among them, and no process exists. */
    constructor (mem: seq<Frame>, kernel: set<nat>, kernelTable: nat)
      requires 0 in kernel && kernelTable < 0x10_0000 && |mem| <= MAX_PAGES
          && forall x :: 0 <= x < |mem| ==> |mem[x]| == PAGE_WORDS
      ensures Valid() && Inv(Now(), lost) && taken == kernel && dirs == map[] && this.mem == mem
    {
      this.mem, taken, dirs, brk, lost := mem, kernel, map[], map[], kernel;
      start, moves := R.Kernel(State(mem, kernel, map[], map[]), kernel), [];
      this.kernelTable := kernelTable;
    }

    /** `vmm_alloc_page`: some page that is not allocated.  0 stands for the code's out-of-memory panic. */
    method AllocPage() returns (x: nat)
      requires Valid()
      modifies this`taken, this`lost, this`moves
      ensures Valid() && SameImages(old(Now()), Now())
      ensures x == 0 ==> Now() == old(Now()) && Full()
      ensures x != 0 ==> x !in old(taken) && x < |mem| && taken == old(taken) + {x} && lost == old(lost) + {x}
    {
      if y: nat :| y < |mem| && y !in taken {
        TakePage(Now(), lost, y);
        R.LeadsOn(start, moves, R.Kernel(Now(), lost), R.Take(y));
        hide R.Leads;
        moves := moves + [R.Take(y)];
        x := y;
        taken, lost := taken + {x}, lost + {x};
      } else {
        x := 0;
      }
    }

    /** `vmm_free_page`; the page is allocated, so the panic of the code is not reached. */
    method FreePage(x: nat)
      requires Valid() && x in lost && x != 0
      modifies this`taken, this`lost, this`moves
      ensures Valid() && SameImages(old(Now()), Now()) && x in old(taken) && taken == old(taken) - {x}
          && lost == old(lost) - {x}
    {
      VmSpec.FreePage(Now(), lost, x);
      R.LeadsOn(start, moves, R.Kernel(Now(), lost), R.Give(x));
      hide R.Leads;
      moves := moves + [R.Give(x)];
      taken, lost := taken - {x}, lost - {x};
    }

    /** Fill a page that is at hand, through the kernel's temporary mapping. */
    method FillPage(x: nat, fr: Frame)
      requires Valid() && x in lost && 0 < x < |mem| && |fr| == PAGE_WORDS
      modifies this`mem, this`moves
      ensures Valid() && Now() == Put(old(Now()), x, fr) && SameImages(old(Now()), Now())
      ensures forall q: nat, v: nat :: v < USER_PAGES ==> Extract(Now(), q, v) == Extract(old(Now()), q, v)
    {
      WriteLost(Now(), lost, x, fr);
      R.LeadsOn(start, moves, R.Kernel(Now(), lost), R.Fill(x, fr));
      hide R.Leads;
      moves := moves + [R.Fill(x, fr)];
      mem := mem[x := fr];
    }

    /** A process writes one of its pages. */
    method WriteUser(p: nat, vp: nat, fr: Frame)
      requires Valid() && vp < USER_PAGES && Image(Now(), p, vp) != [] && |fr| == PAGE_WORDS
      modifies this`mem, this`moves
      ensures Valid() && Paints(old(Now()), Now(), p, vp, fr) && Untouched(old(Now()), Now(), lost)
      ensures Stays(old(Now()), Now(), p, vp, vp)
    {
      Mapped(Now(), lost, p, vp);
      OwnedNotLost(Now(), lost, p, vp);
      VmSpec.WriteUser(Now(), lost, p, vp, fr);
      R.LeadsOn(start, moves, R.Kernel(Now(), lost), R.Poke(p, vp, fr));
      hide R.Leads;
      moves := moves + [R.Poke(p, vp, fr)];
      mem := mem[Extract(Now(), p, vp) := fr];
    }

    /** `pmap_create`; false is the out-of-memory panic. */
    method PmapCreate(p: nat) returns (ok: bool)
      requires Valid() && p !in dirs
      modifies this
      ensures ok ==> Valid() && lost == old(lost) && SameImages(old(Now()), Now())
      ensures ok ==> dirs.Keys == old(dirs).Keys + {p} && brk == old(brk)[p := TEXT] && |mem| == |old(mem)|
      ensures ok ==> forall v: nat :: v < USER_PAGES ==> Image(Now(), p, v) == []
      ensures !ok ==> Full()
    {
      var d := AllocPage();
      if d == 0 {
        return false;
      }
      assert d !in old(lost);
      FillPage(d, EmptyDir(kernelTable, d));
      NewDir(Now(), lost, p, d, kernelTable, TEXT);
      R.LeadsOn(start, moves, R.Kernel(Now(), lost), R.NewSpace(p, d, kernelTable));
      hide Accounted, Image, R.Leads;
      moves := moves + [R.NewSpace(p, d, kernelTable)];
      dirs, brk, lost := dirs[p := d], brk[p := TEXT], LostBy(lost, 0, d);
      assert lost == old(lost);
      ok := true;
    }

    /** The page table for `vp`, taken and cleared when the directory has none yet. */
    method NeedTable(p: nat, vp: nat) returns (ok: bool)
      requires Valid() && p in dirs && vp < USER_PAGES
      modifies this
      ensures ok ==> Valid() && lost == old(lost) && SameImages(old(Now()), Now()) && dirs == old(dirs)
      ensures ok ==> brk == old(brk) && |mem| == |old(mem)|
      ensures ok ==> TabOf(Now(), p, vp / PAGE_WORDS) != 0
      ensures ok ==> forall q: nat, v: nat :: v < USER_PAGES ==> Extract(Now(), q, v) == Extract(old(Now()), q, v)
      ensures ok ==> Untouched(old(Now()), Now(), lost)
      ensures !ok ==> Full()
    {
      hide R.Leads;
      TablesNotLost(Now(), lost, p, vp);
      var pd := vp / PAGE_WORDS;
      if TabOf(Now(), p, pd) != 0 {
        return true;
      }
      var t := AllocPage();
      if t == 0 {
        return false;
      }
      FillPage(t, Zeros());
      HangTable(p, pd, t);
      assert lost == old(lost);
      ok := true;
    }

    /** A cleared page goes into the directory as a table. */
    method HangTable(p: nat, pd: nat, t: nat)
      requires Valid() && p in dirs && pd < SYS_INDEX && TabOf(Now(), p, pd) == 0
      requires t in lost && 0 < t < |mem| && mem[t] == Zeros()
      modifies this
      ensures Valid() && lost == LostBy(old(lost), 0, t) && SameImages(old(Now()), Now())
      ensures dirs == old(dirs) && brk == old(brk) && |mem| == |old(mem)| && TabOf(Now(), p, pd) == t
      ensures forall q: nat, v: nat :: v < USER_PAGES ==> Extract(Now(), q, v) == Extract(old(Now()), q, v)
      ensures Untouched(old(Now()), Now(), old(lost))
    {
      hide R.Leads;
      SetPde(Now(), lost, p, pd, t);
      assert PageAt(Now(), Dir(p)) == dirs[p];
      HangLeads(start, moves, Now(), lost, p, pd, t);
      hide Accounted, Image;
      moves := moves + [R.HangTable(p, pd, t)];
      mem := mem[dirs[p] := SetWord(mem[dirs[p]], pd, Entry(t))];
      lost := LostBy(lost, 0, t);
    }

    /** `pmap_enter`: page `x` of memory becomes page `vp` of the process; a page that was there is nobody's. */
    method PmapEnter(p: nat, vp: nat, x: nat) returns (ok: bool)
      requires Valid() && p in dirs && vp < USER_PAGES && x in lost && 0 < x < |mem|
      modifies this
      ensures ok ==> Valid() && Paints(old(Now()), Now(), p, vp, old(mem)[x])
      ensures ok ==> lost == LostBy(old(lost), Extract(old(Now()), p, vp), x)
      ensures ok ==> Untouched(old(Now()), Now(), old(lost)) && Stays(old(Now()), Now(), p, vp, vp + 1)
      ensures !ok ==> Full()
    {
      hide R.Leads;
      ghost var s := Now();
      ok := NeedTable(p, vp);
      if !ok {
        return;
      }
      ghost var s1 := Now();
      var t := TabOf(Now(), p, vp / PAGE_WORDS);
      EntryMaps(s1, lost, p, vp, x);
      TablesNotLost(s1, lost, p, vp);
      EntryLeads(start, moves, s1, lost, p, vp, x);
      hide Accounted, Image, SameImages, Paints, Extract;
      moves := moves + [R.SetEntry(p, vp, x)];
      mem := mem[t := SetWord(mem[t], vp % PAGE_WORDS, Entry(x))];
      lost := LostBy(lost, Extract(s1, p, vp), x);
      PaintsAfterSame(s, s1, Now(), p, vp, s1.mem[x]);
    }

    /** `pmap_remove` of one page: it is no longer mapped, and nobody's until it is freed. */
    method PmapRemove(p: nat, vp: nat)
      requires Valid() && vp < USER_PAGES && Image(Now(), p, vp) != []
      modifies this
      ensures Valid() && taken == old(taken) && Paints(old(Now()), Now(), p, vp, [])
      ensures lost == old(lost) + {Extract(old(Now()), p, vp)} && Untouched(old(Now()), Now(), old(lost))
      ensures Stays(old(Now()), Now(), p, vp, vp + 1)
    {
      Mapped(Now(), lost, p, vp);
      TablesNotLost(Now(), lost, p, vp);
      var t := TabOf(Now(), p, vp / PAGE_WORDS);
      SetPte(Now(), lost, p, vp, 0);
      R.LeadsOn(start, moves, R.Kernel(Now(), lost), R.SetEntry(p, vp, 0));
      hide Accounted, Image, R.Leads;
      moves := moves + [R.SetEntry(p, vp, 0)];
      lost := LostBy(lost, Extract(Now(), p, vp), 0);
      mem := mem[t := SetWord(mem[t], vp % PAGE_WORDS, 0)];
    }

    /** `pmap_destroy`: the tables and the directory are freed, each of them allocated until then. */
    method PmapDestroy(p: nat)
      requires Valid() && p in dirs && forall v: nat :: v < USER_PAGES ==> Image(Now(), p, v) == []
      modifies this
      ensures Valid() && SameImages(old(Now()), Now()) && lost == old(lost) && dirs == old(dirs) - {p}
          && brk == old(brk)
    {
      ghost var s := Now();
      NothingMapped(s, lost, p);
      DropDir(s, lost, p);
      R.LeadsOn(start, moves, R.Kernel(s, lost), R.DropSpace(p));
      hide Accounted, Image, Shaped, R.Leads;
      var pd := 0;
      NoTables(s, p);
      while pd < SYS_INDEX
        invariant pd <= SYS_INDEX && mem == s.mem && dirs == s.dirs && brk == s.brk && lost == old(lost)
            && moves == old(moves)
        invariant taken == s.taken - TablePages(s, p, pd)
      {
        NextTable(s, lost, p, pd);
        var t := PageOf(WordAt(Now(), dirs[p], pd));
        if t != 0 {
          assert t in taken;
          taken := taken - {t};
        }
        pd := pd + 1;
      }
      NextTable(s, lost, p, SYS_INDEX - 1);
      assert dirs[p] in taken;
      taken := taken - {dirs[p]};
      dirs := dirs - {p};
      moves := moves + [R.DropSpace(p)];
    }

    // ---------------------------------------------------------------- the program break

    /** One page more, cleared; a page that was there is nobody's. */
    method GrowOne(p: nat, vp: nat) returns (ok: bool)
      requires Valid() && p in dirs && vp < USER_PAGES
      modifies this
      ensures ok ==> Valid() && Paints(old(Now()), Now(), p, vp, Zeros()) && Untouched(old(Now()), Now(), old(lost))
      ensures ok ==> lost == LostBy(old(lost), Extract(old(Now()), p, vp), 0)
      ensures ok ==> Stays(old(Now()), Now(), p, vp, vp + 1)
      ensures !ok ==> Full()
    {
      hide Full, R.Leads;
      ghost var s := Now();
      var x := AllocPage();
      if x == 0 {
        return false;
      }
      assert forall q: nat, v: nat :: v < USER_PAGES ==> Extract(Now(), q, v) == Extract(s, q, v);
      FillPage(x, Zeros());
      ghost var s1 := Now();
      NewNotLost(s, old(lost), x);
      hide Accounted, Image, Extract;
      ok := PmapEnter(p, vp, x);
      if ok {
        assert SameImages(s, s1);
        PaintsAfterSame(s, s1, Now(), p, vp, Zeros());
        assert lost == LostBy(old(lost), Extract(s, p, vp), 0);
      }
    }

    /** One page less, and free again. */
    method ShrinkOne(p: nat, vp: nat)
      requires Valid() && vp < USER_PAGES && Image(Now(), p, vp) != []
      modifies this
      ensures Valid() && lost == old(lost) && Paints(old(Now()), Now(), p, vp, []) && Untouched(old(Now()), Now(), lost)
      ensures Stays(old(Now()), Now(), p, vp, vp + 1)
      ensures taken == old(taken) - {Extract(old(Now()), p, vp)}
    {
      ghost var s := Now();
      Mapped(s, lost, p, vp);
      var x := Extract(Now(), p, vp);
      OwnedNotLost(s, lost, p, vp);
      hide Accounted, Image, R.Leads;
      PmapRemove(p, vp);
      ghost var s1 := Now();
      FreePage(x);
      SameAfterPaints(s, s1, Now(), p, vp, []);
      assert lost == old(lost);
    }

    /** `proc_break`, for any address: the break moves to the next page boundary, and pages appear zeroed or
        are freed.  An address that wraps when it is rounded sends the shrinking loop from page 0 on, which
        frees page 0 of memory twice: a panic. */
    method ProcBreak(p: nat, addr: nat) returns (r: BreakResult)
      requires Valid() && Inv(Now(), lost) && p in dirs && addr < 0x1_0000_0000
      modifies this
      ensures r.Moved? ==> Valid() && Inv(Now(), lost) && Broke(old(Now()), old(lost), Now(), lost, p, addr)
      ensures r.Moved? ==> Untouched(old(Now()), Now(), old(lost))
      ensures r.Moved? && old(brk)[p] <= USTACK && brk[p] <= USTACK ==>
                Extract(Now(), p, USTACK) == Extract(old(Now()), p, USTACK)
      ensures p in old(brk) && (BreakPage(old(brk)[p], addr) <= old(brk)[p] && !r.Panic? ==> r.Moved?)
      ensures r.NoMemory? ==> Full()
      ensures r.Panic? <==> addr > LAST_ROUNDED
    {
      ghost var s, lost0 := Now(), lost;
      assert Layout(s, p);
      Holds(s, p, 0);
      IsShaped(s, lost0);
      hide Full, R.Leads, Accounted, Layout, Image, Extract, Resized, Displaced, Untouched;
      if addr == 0 {
        BrokeNothing(s, lost, p);
        SelfUntouched(s, lost);
        return Moved;
      }
      if addr > LAST_ROUNDED {
        FreeFromZero(p);
        return Panic;
      }
      var to := BreakPage(brk[p], addr);
      var ok := MoveBreak(p, to);
      if !ok {
        return NoMemory;
      }
      ResizedInv(s, lost0, Now(), lost, p);
      r := Moved;
    }

    /** The shrinking loop when the new break is 0: nothing is mapped at pages 0 and 1, and freeing page 0 for
        the second time is what ends it. */
    method FreeFromZero(p: nat)
      requires Valid() && Layout(Now(), p)
      modifies this`taken
      ensures taken == old(taken) - {0}
    {
      ghost var s := Now();
      Mapped(s, lost, p, 0);
      Mapped(s, lost, p, 1);
      assert Extract(s, p, 0) == 0 && Extract(s, p, 1) == 0 && 0 in taken;
      hide Accounted, Extract, Image;
      var v := 0;
      var x := Extract(Now(), p, v);
      while x in taken
        invariant v <= 1 && mem == s.mem && dirs == s.dirs && brk == s.brk && x == 0
        invariant taken == if v == 0 then s.taken else s.taken - {0}
        decreases 1 - v
      {
        taken := taken - {x};
        v := v + 1;
        SameExtract(s, Now(), p, v);
        x := Extract(Now(), p, v);
      }
    }

    /** The two loops of `proc_break`. */
    method MoveBreak(p: nat, to: nat) returns (ok: bool)
      requires Valid() && Layout(Now(), p) && TEXT <= to
      modifies this
      ensures to <= old(brk)[p] ==> ok
      ensures ok ==> Valid() && dirs == old(dirs) && brk == old(brk)[p := to] && to <= USER_PAGES
      ensures ok ==> lost == old(lost) + Displaced(old(Now()), p, old(brk)[p], to)
      ensures ok ==> Resized(old(Now()), Now(), p, old(brk)[p], to) && Untouched(old(Now()), Now(), old(lost))
      ensures ok && (USTACK < old(brk)[p] ==> USTACK < to) && !(old(brk)[p] <= USTACK < to) ==>
                Extract(Now(), p, USTACK) == Extract(old(Now()), p, USTACK)
      ensures !ok ==> Full()
    {
      hide Full, Accounted, R.Leads;
      ghost var s := Now();
      IsShaped(s, lost);
      var from := brk[p];
      if to > from {
        ok := GrowTo(p, from, to);
        if !ok {
          return;
        }
      } else {
        ShrinkTo(p, from, to);
      }
      ghost var s1 := Now();
      IsShaped(s1, lost);
      MovedBreak(s, s1, p, from, to);
      SetBreak(p, to);
      ok := true;
      ResizedBrk(s, s1, p, from, to);
    }

    method SetBreak(p: nat, to: nat)
      requires Valid()
      modifies this`brk, this`moves
      ensures Valid() && Now() == old(Now()).(brk := old(brk)[p := to])
    {
      SetBrk(Now(), lost, p, to);
      R.LeadsOn(start, moves, R.Kernel(Now(), lost), R.MoveBrk(p, to));
      hide Accounted, R.Leads;
      moves := moves + [R.MoveBrk(p, to)];
      brk := brk[p := to];
    }

    /** Growth to any page: memory runs out before the space of the process is used up. */
    method GrowTo(p: nat, from: nat, to: nat) returns (ok: bool)
      requires Valid() && Layout(Now(), p) && from == brk[p] <= to
      modifies this
      ensures ok ==> Valid() && PaintsRange(old(Now()), Now(), p, from, to, Zeros()) && to <= USER_PAGES
      ensures ok ==> lost == old(lost) + Displaced(old(Now()), p, from, to)
      ensures ok ==> Untouched(old(Now()), Now(), old(lost)) && Stays(old(Now()), Now(), p, from, to)
      ensures !ok ==> Full()
    {
      hide Full, R.Leads;
      ghost var s, lost0 := Now(), lost;
      StaysNothing(s, p, from);
      PaintsNothing(s, p, from, Zeros());
      SelfUntouched(s, lost0);
      Holds(s, p, 0);
      IsShaped(s, lost0);
      hide Accounted, Image, Extract, Layout, Stays, Untouched, PaintsRange, Displaced;
      assert Displaced(s, p, from, from) == {} by { NoneDisplaced(s, p, from); }
      var v := from;
      while v < to
        invariant from <= v <= to && v <= USER_PAGES && Valid() && lost == lost0 + Displaced(s, p, from, v)
        invariant PaintsRange(s, Now(), p, from, v, Zeros()) && Untouched(s, Now(), lost0)
            && Stays(s, Now(), p, from, v)
        invariant Shaped(Now()) && dirs == s.dirs && brk == s.brk
      {
        ghost var s1 := Now();
        GrownBounded(s, s1, lost, p, from, v);
        ok := GrowOne(p, v);
        if !ok {
          return;
        }
        IsShaped(Now(), lost);
        assert dirs == s.dirs && brk == s.brk by { PaintsKeeps(s1, Now(), p, v); }
        GrownOnce(s, s1, Now(), lost0, p, from, v);
        v := v + 1;
      }
      ok := true;
    }

    method ShrinkTo(p: nat, from: nat, to: nat)
      requires Valid() && Layout(Now(), p) && TEXT <= to <= from == brk[p]
      modifies this
      ensures Valid() && lost == old(lost) && PaintsRange(old(Now()), Now(), p, to, from, [])
          && Untouched(old(Now()), Now(), lost)
      ensures Stays(old(Now()), Now(), p, to, from)
    {
      ghost var s := Now();
      StaysNothing(s, p, to);
      PaintsNothing(s, p, to, []);
      hide Accounted, Image, Shaped, Extract, Stays, R.Leads;
      var v := to;
      while v < from
        invariant to <= v <= from && Valid() && lost == old(lost) && PaintsRange(s, Now(), p, to, v, [])
            && Untouched(s, Now(), lost) && Stays(s, Now(), p, to, v)
      {
        assert Image(s, p, v) != [];
        ghost var s1 := Now();
        ShrinkOne(p, v);
        PaintsMore(s, s1, Now(), p, to, v, []);
        StaysMore(s, s1, Now(), p, to, v);
        v := v + 1;
      }
    }
  }

  datatype BreakResult = Moved | NoMemory | Panic

  lemma SelfUntouched(s: State, lost: set<nat>)
    ensures Untouched(s, s, lost)
  {
  }

  lemma SameExtract(s: State, s': State, p: nat, v: nat)
    requires Shaped(s) && s' == s.(taken := s'.taken) && v < USER_PAGES
    ensures Extract(s', p, v) == Extract(s, p, v)
  {
  }

  lemma PaintsKeeps(s: State, s': State, p: nat, v: nat)
    requires Shaped(s) && Shaped(s') && Paints(s, s', p, v, Zeros())
    ensures s'.dirs == s.dirs && s'.brk == s.brk
  {
  }

  lemma NoneDisplaced(s: State, p: nat, from: nat)
    requires Shaped(s)
    ensures Displaced(s, p, from, from) == {}
  {
  }

  /** As far as the growing loop has come, there is room for one page more in the space of the process. */
  lemma GrownBounded(s: State, s1: State, lost: set<nat>, p: nat, from: nat, v: nat)
    requires Shaped(s) && Layout(s, p) && from == s.brk[p] <= v <= USER_PAGES
    requires Accounted(s1, lost) && PaintsRange(s, s1, p, from, v, Zeros())
    ensures v < USER_PAGES
  {
    assert Shaped(s1);
    hide Accounted;
    forall w: nat | TEXT <= w < v
      ensures Image(s1, p, w) != []
    {
      hide Image;
      assert Image(s1, p, w) == if from <= w < v then Zeros() else Image(s, p, w);
    }
    SpaceBounded(s1, lost, p, v);
  }

  /** One turn of the growing loop. */
  lemma GrownOnce(s: State, s1: State, s2: State, lost: set<nat>, p: nat, from: nat, v: nat)
    requires Accounted(s, lost) && Shaped(s1) && Shaped(s2) && Layout(s, p) && from == s.brk[p] <= v < USER_PAGES
    requires PaintsRange(s, s1, p, from, v, Zeros()) && Untouched(s, s1, lost) && Stays(s, s1, p, from, v)
    requires Paints(s1, s2, p, v, Zeros()) && Untouched(s1, s2, lost + Displaced(s, p, from, v))
        && Stays(s1, s2, p, v, v + 1)
    ensures PaintsRange(s, s2, p, from, v + 1, Zeros()) && Untouched(s, s2, lost) && Stays(s, s2, p, from, v + 1)
    ensures LostBy(lost + Displaced(s, p, from, v), Extract(s1, p, v), 0) == lost + Displaced(s, p, from, v + 1)
  {
    StaysAt(s, s1, p, from, v, v);
    Mapped(s, lost, p, v);
    Holds(s, p, v);
    PaintsMore(s, s1, s2, p, from, v, Zeros());
    StaysMore(s, s1, s2, p, from, v);
    hide Accounted, Layout, Image, Extract, PaintsRange, Stays;
  }

  /** Directories and tables are not among the pages at hand. */
  lemma TablesNotLost(s: State, lost: set<nat>, p: nat, vp: nat)
    requires Accounted(s, lost) && vp < USER_PAGES && p in s.dirs
    ensures s.dirs[p] !in lost && (TabOf(s, p, vp / PAGE_WORDS) != 0 ==> TabOf(s, p, vp / PAGE_WORDS) !in lost)
  {
    assert PageAt(s, Dir(p)) == s.dirs[p] && PageAt(s, Tab(p, vp / PAGE_WORDS)) == TabOf(s, p, vp / PAGE_WORDS);
  }

  lemma EntryLeads(start: R.Kernel, moves: seq<R.Move>, s: State, lost: set<nat>, p: nat, vp: nat, x: nat)
    requires R.Leads(start, moves, R.Kernel(s, lost)) && Shaped(s) && vp < USER_PAGES
    requires 0 < TabOf(s, p, vp / PAGE_WORDS) < |s.mem| && x in lost && 0 < x < |s.mem|
    ensures var t := TabOf(s, p, vp / PAGE_WORDS);
            R.Leads(start, moves + [R.SetEntry(p, vp, x)],
                    R.Kernel(Put(s, t, SetWord(s.mem[t], vp % PAGE_WORDS, Entry(x))),
                        LostBy(lost, Extract(s, p, vp), x)))
  {
    EntryNames(x);
    hide R.Leads, PageOf, Entry, Extract;
    R.LeadsOn(start, moves, R.Kernel(s, lost), R.SetEntry(p, vp, x));
  }

  lemma HangLeads(start: R.Kernel, moves: seq<R.Move>, s: State, lost: set<nat>, p: nat, pd: nat, t: nat)
    requires R.Leads(start, moves, R.Kernel(s, lost)) && Shaped(s) && p in s.dirs && s.dirs[p] < |s.mem|
    requires pd < SYS_INDEX && TabOf(s, p, pd) == 0 && t in lost && 0 < t < |s.mem| && s.mem[t] == Zeros()
    ensures R.Leads(start, moves + [R.HangTable(p, pd, t)],
                    R.Kernel(Put(s, s.dirs[p], SetWord(s.mem[s.dirs[p]], pd, Entry(t))), LostBy(lost, 0, t)))
  {
    hide R.Leads;
    R.LeadsOn(start, moves, R.Kernel(s, lost), R.HangTable(p, pd, t));
  }

  lemma EntryMaps(s: State, lost: set<nat>, p: nat, vp: nat, x: nat)
    requires Accounted(s, lost) && vp < USER_PAGES && TabOf(s, p, vp / PAGE_WORDS) != 0
    requires x in lost && 0 < x < |s.mem|
    ensures TabOf(s, p, vp / PAGE_WORDS) < |s.mem|
    ensures var t := TabOf(s, p, vp / PAGE_WORDS);
            var s' := Put(s, t, SetWord(s.mem[t], vp % PAGE_WORDS, Entry(x)));
            Accounted(s', LostBy(lost, Extract(s, p, vp), x)) && Paints(s, s', p, vp, s.mem[x])
                && Stays(s, s', p, vp, vp + 1)
  {
    EntryNames(x);
    hide PageOf, Entry;
    SetPte(s, lost, p, vp, Entry(x));
  }

  /** A break on a page boundary is kept as it is. */
  lemma BreakAt(brk: nat, page: nat)
    requires TEXT <= page
    ensures BreakPage(brk, page * PAGE_SIZE) == page
  {
  }

  lemma IsShaped(s: State, lost: set<nat>)
    requires Accounted(s, lost)
    ensures Shaped(s)
  {
  }

  lemma NothingMapped(s: State, lost: set<nat>, p: nat)
    requires Accounted(s, lost) && forall v: nat :: v < USER_PAGES ==> Image(s, p, v) == []
    ensures forall v: nat :: v < USER_PAGES ==> Extract(s, p, v) == 0
  {
    forall v: nat | v < USER_PAGES
      ensures Extract(s, p, v) == 0
    {
      Mapped(s, lost, p, v);
    }
  }

  lemma NoTables(s: State, p: nat)
    requires Shaped(s)
    ensures TablePages(s, p, 0) == {}
  {
  }

  lemma NewNotLost(s: State, lost: set<nat>, x: nat)
    requires Accounted(s, lost) && x !in s.taken
    ensures x !in lost
  {
  }

  lemma OwnedNotLost(s: State, lost: set<nat>, p: nat, vp: nat)
    requires Accounted(s, lost) && vp < USER_PAGES && Extract(s, p, vp) != 0
    ensures Extract(s, p, vp) !in lost && Extract(s, p, vp) in s.taken
  {
    assert PageAt(s, User(p, vp)) == Extract(s, p, vp);
  }

  /** A break address of 0 only asks. */
  lemma BrokeNothing(s: State, lost: set<nat>, p: nat)
    requires Shaped(s) && p in s.brk
    ensures Broke(s, lost, s, lost, p, 0)
  {
    assert s.brk == s.brk[p := s.brk[p]];
  }

  lemma MovedBreak(s: State, s1: State, p: nat, from: nat, to: nat)
    requires Shaped(s) && Shaped(s1)
    requires if to > from then PaintsRange(s, s1, p, from, to, Zeros()) else PaintsRange(s, s1, p, to, from, [])
    ensures Resized(s, s1, p, from, to)
  {
    hide Image, Shaped;
  }

  lemma SetBrk(s: State, lost: set<nat>, p: nat, to: nat)
    requires Accounted(s, lost)
    ensures Accounted(s.(brk := s.brk[p := to]), lost)
  {
    SamePages(s, s.(brk := s.brk[p := to]), lost);
  }

  lemma ResizedBrk(s: State, s1: State, p: nat, from: nat, to: nat)
    requires Shaped(s) && Shaped(s1) && Resized(s, s1, p, from, to)
    ensures Shaped(s1.(brk := s1.brk[p := to])) && Resized(s, s1.(brk := s1.brk[p := to]), p, from, to)
  {
    var s2 := s1.(brk := s1.brk[p := to]);
    assert forall q: nat, v: nat :: v < USER_PAGES ==> Image(s2, q, v) == Image(s1, q, v);
    hide Image;
  }

  /** The layout follows the break. */
  lemma ResizedInv(s: State, lost0: set<nat>, s': State, lost: set<nat>, p: nat)
    requires Inv(s, lost0) && p in s.dirs && Accounted(s', lost) && s'.dirs == s.dirs && p in s'.brk
        && s'.brk == s.brk[p := s'.brk[p]]
    requires p in s.brk && Resized(s, s', p, s.brk[p], s'.brk[p]) && TEXT <= s'.brk[p] <= USER_PAGES
    ensures Inv(s', lost)
  {
    assert Layout(s, p);
    forall q | q in s'.dirs
      ensures Layout(s', q)
    {
      assert Layout(s, q);
      hide Image, Accounted;
    }
  }
}

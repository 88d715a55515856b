/** What a process may do with the pages it has: the flags of the entries that lead to them. */
module VmRights {
  import opened VmSpec
  import opened VmRun
  import V = Vm

  /** Present, writable and open to the user: bits 0, 1 and 2 of the word. */
  predicate UserMayWrite(w: Word) { w % 2 == 1 && w / 2 % 2 == 1 && w / 4 % 2 == 1 }

  predicate Right(w: Word) { w == 0 || UserMayWrite(w) }

  /** The directory entry and the table entry for a page of a process. */
  function DirWord(s: State, p: nat, pd: nat): Word
    requires Shaped(s) && pd < SYS_INDEX
  {
    WordAt(s, DirOf(s, p), pd)
  }

  function TabWord(s: State, p: nat, vp: nat): Word
    requires Shaped(s) && vp < USER_PAGES
  {
    WordAt(s, TabOf(s, p, vp / PAGE_WORDS), vp % PAGE_WORDS)
  }

  /** Every entry below the kernel's, in every directory and table, is empty or lets the user write. */
  ghost predicate Rights(s: State) {
    && Shaped(s)
    && (forall p: nat, pd: nat :: pd < SYS_INDEX ==> Right(DirWord(s, p, pd)))
    && (forall p: nat, vp: nat :: vp < USER_PAGES ==> Right(TabWord(s, p, vp)))
  }

  lemma EntryRight(page: nat)
    requires page < 0x10_0000
    ensures UserMayWrite(Entry(page)) && Right(EntryFor(page))
  {
    var w := page * 4096 + 7;
    assert w / 2 == page * 2048 + 3 && w / 4 == page * 1024 + 1;
  }

  /** A page that is no table may hold anything. */
  lemma PutRights(s: State, x: nat, fr: Frame)
    requires Rights(s) && 0 < x < |s.mem| && NoTable(s, x) && |fr| == PAGE_WORDS
    ensures Rights(VmSpec.Put(s, x, fr))
  {
    var s' := VmSpec.Put(s, x, fr);
    forall p: nat, pd: nat | pd < SYS_INDEX
      ensures DirWord(s', p, pd) == DirWord(s, p, pd) && TabOf(s', p, pd) == TabOf(s, p, pd)
    {
      assert DirOf(s, p) != x;
    }
    forall p: nat, vp: nat | vp < USER_PAGES
      ensures TabWord(s', p, vp) == TabWord(s, p, vp)
    {
      assert TabOf(s, p, vp / PAGE_WORDS) != x && TabOf(s', p, vp / PAGE_WORDS) == TabOf(s, p, vp / PAGE_WORDS);
    }
  }

  lemma SetEntryRights(s: State, lost: set<nat>, p: nat, vp: nat, x: nat)
    requires Accounted(s, lost) && Rights(s) && vp < USER_PAGES && 0 < TabOf(s, p, vp / PAGE_WORDS) < |s.mem|
    requires x < 0x10_0000
    ensures var t := TabOf(s, p, vp / PAGE_WORDS);
            Rights(VmSpec.Put(s, t, SetWord(s.mem[t], vp % PAGE_WORDS, EntryFor(x))))
  {
    var t := TabOf(s, p, vp / PAGE_WORDS);
    var s' := VmSpec.Put(s, t, SetWord(s.mem[t], vp % PAGE_WORDS, EntryFor(x)));
    EntryRight(x);
    assert PageAt(s, Tab(p, vp / PAGE_WORDS)) == t;
    forall q: nat, pd: nat | pd < SYS_INDEX
      ensures DirWord(s', q, pd) == DirWord(s, q, pd) && TabOf(s', q, pd) == TabOf(s, q, pd)
    {
      assert PageAt(s, Dir(q)) == DirOf(s, q) && Dir(q) != Tab(p, vp / PAGE_WORDS);
    }
    hide Accounted, Right;
    forall q: nat, v: nat | v < USER_PAGES
      ensures Right(TabWord(s', q, v))
    {
      assert TabOf(s', q, v / PAGE_WORDS) == TabOf(s, q, v / PAGE_WORDS) && Right(TabWord(s, q, v));
    }
  }

  lemma HangRights(s: State, lost: set<nat>, p: nat, pd: nat, t: nat)
    requires Accounted(s, lost) && Rights(s) && p in s.dirs && s.dirs[p] < |s.mem| && pd < SYS_INDEX
    requires t in lost && 0 < t < |s.mem| && s.mem[t] == Zeros()
    ensures Rights(VmSpec.Put(s, s.dirs[p], SetWord(s.mem[s.dirs[p]], pd, Entry(t))))
  {
    var d := s.dirs[p];
    var s' := VmSpec.Put(s, d, SetWord(s.mem[d], pd, Entry(t)));
    EntryRight(t);
    EntryNames(t);
    assert PageAt(s, Dir(p)) == d;
    LostNoTable(s, lost, t);
    forall q: nat, e: nat | e < SYS_INDEX
      ensures TabOf(s, q, e) != d && DirWord(s', q, e) == if q == p && e == pd then Entry(t) else DirWord(s, q, e)
    {
      assert PageAt(s, Tab(q, e)) == TabOf(s, q, e) && PageAt(s, Dir(q)) == DirOf(s, q);
      assert q != p ==> Dir(q) != Dir(p);
    }
    hide Accounted, Right, NoTable;
    forall q: nat, e: nat | e < SYS_INDEX
      ensures Right(DirWord(s', q, e))
    {
      assert Right(DirWord(s, q, e));
    }
    forall q: nat, v: nat | v < USER_PAGES
      ensures Right(TabWord(s', q, v))
    {
      var e := v / PAGE_WORDS;
      assert TabOf(s', q, e) == PageOf(DirWord(s', q, e)) && TabOf(s, q, e) == PageOf(DirWord(s, q, e));
      if q == p && e == pd {
        assert TabWord(s', q, v) == 0;
        NoneRight();
      } else {
        assert TabWord(s', q, v) == TabWord(s, q, v) && Right(TabWord(s, q, v));
      }
    }
  }

  lemma NoneRight()
    ensures Right(0)
  {
  }

  lemma SpaceRights(s: State, p: nat, d: nat, kernelTable: nat, brk: map<nat, nat>)
    requires Rights(s) && 0 < d < |s.mem| && d < 0x10_0000 && kernelTable < 0x10_0000
        && s.mem[d] == EmptyDir(kernelTable, d)
    ensures Rights(s.(dirs := s.dirs[p := d], brk := brk))
  {
    var s' := s.(dirs := s.dirs[p := d], brk := brk);
    hide Right;
    NoneRight();
    forall q: nat, e: nat | e < SYS_INDEX
      ensures Right(DirWord(s', q, e)) && TabOf(s', q, e) == if q == p then 0 else TabOf(s, q, e)
    {
      assert Right(DirWord(s, q, e)) && (q == p ==> DirWord(s', q, e) == 0);
    }
    forall q: nat, v: nat | v < USER_PAGES
      ensures Right(TabWord(s', q, v))
    {
      assert Right(TabWord(s, q, v)) && (q == p ==> TabOf(s', q, v / PAGE_WORDS) == 0);
    }
  }

  lemma DropRights(s: State, p: nat)
    requires Rights(s) && p in s.dirs
    ensures Rights(Dropped(s, p))
  {
    var s' := Dropped(s, p);
    hide Right;
    NoneRight();
    forall q: nat, e: nat | e < SYS_INDEX
      ensures Right(DirWord(s', q, e)) && TabOf(s', q, e) == if q == p then 0 else TabOf(s, q, e)
    {
      assert Right(DirWord(s, q, e));
    }
    forall q: nat, v: nat | v < USER_PAGES
      ensures Right(TabWord(s', q, v))
    {
      assert Right(TabWord(s, q, v)) && (q == p ==> TabOf(s', q, v / PAGE_WORDS) == 0);
    }
  }

  lemma SameRights(s: State, s': State)
    requires Rights(s) && s'.mem == s.mem && s'.dirs == s.dirs
    ensures Rights(s')
  {
    assert forall p: nat, pd: nat :: pd < SYS_INDEX ==> DirWord(s', p, pd) == DirWord(s, p, pd);
    assert forall p: nat, vp: nat :: vp < USER_PAGES ==> TabWord(s', p, vp) == TabWord(s, p, vp);
  }

  lemma MoveKeepsRights(k: Kernel, m: Move)
    requires Accounted(k.s, k.lost) && Rights(k.s) && Enabled(k, m)
    ensures Rights(Apply(k, m).s)
  {
    var s, lost := k.s, k.lost;
    hide Accounted, Rights;
    match m
    case Fill(x, fr) =>
      LostNoTable(s, lost, x);
      PutRights(s, x, fr);
    case SetEntry(p, vp, x) => SetEntryRights(s, lost, p, vp, x);
    case HangTable(p, pd, t) => HangRights(s, lost, p, pd, t);
    case NewSpace(p, d, kernelTable) => SpaceRights(s, p, d, kernelTable, s.brk[p := TEXT]);
    case DropSpace(p) => DropRights(s, p);
    case Poke(p, vp, fr) =>
      UserNoTable(s, lost, p, vp);
      PutRights(s, Extract(s, p, vp), fr);
    case _ => SameRights(s, Apply(k, m).s);
  }

  lemma {:induction false} RunRights(k: Kernel, ms: seq<Move>)
    requires Accounted(k.s, k.lost) && Rights(k.s) && Run(k, ms)
    ensures Rights(After(k, ms).s)
    decreases |ms|
  {
    if ms != [] {
      RunAccounted(k, ms[..|ms| - 1]);
      RunRights(k, ms[..|ms| - 1]);
      MoveKeepsRights(After(k, ms[..|ms| - 1]), ms[|ms| - 1]);
    }
  }

  /** From a machine without processes on, whatever moves are made, both entries that lead to a page of a process
      are present, writable and open to the user. */
  lemma MappedMayBeWritten(k: Kernel, ms: seq<Move>, p: nat, vp: nat)
    requires Accounted(k.s, k.lost) && k.s.dirs == map[] && Run(k, ms) && vp < USER_PAGES
    ensures Shaped(After(k, ms).s)
    ensures var s := After(k, ms).s;
      Extract(s, p, vp) != 0 ==> UserMayWrite(DirWord(s, p, vp / PAGE_WORDS)) && UserMayWrite(TabWord(s, p, vp))
  {
    assert Rights(k.s);
    RunRights(k, ms);
    RunAccounted(k, ms);
    var s := After(k, ms).s;
    hide Run, After, Accounted;
    assert Right(DirWord(s, p, vp / PAGE_WORDS)) && Right(TabWord(s, p, vp));
    assert TabOf(s, p, vp / PAGE_WORDS) == PageOf(DirWord(s, p, vp / PAGE_WORDS));
  }

  /** So it is in the kernel at any time. */
  lemma ProcessMayWrite(vm: V.Vm, p: nat, vp: nat)
    requires vm.Valid() && vp < USER_PAGES
    ensures var s := vm.Now();
      Extract(s, p, vp) != 0 ==> UserMayWrite(DirWord(s, p, vp / PAGE_WORDS)) && UserMayWrite(TabWord(s, p, vp))
  {
    MappedMayBeWritten(vm.start, vm.moves, p, vp);
  }
}

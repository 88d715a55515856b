/** Whole runs of the page-level moves that every operation on address spaces is made of. */
module VmRun {
  import opened VmSpec
  import opened VmImage

  /** Memory, and the allocated pages no table refers to. */
  datatype Kernel = Kernel(s: State, lost: set<nat>)

  datatype Move =
    | Take(x: nat)                           // vmm_alloc_page returns page x
    | Give(x: nat)                           // vmm_free_page of page x
    | Fill(x: nat, fr: Frame)                // the kernel fills a page that is at hand
    | SetEntry(p: nat, vp: nat, x: nat)      // an entry of a page table, for page x or, with 0, for none
    | HangTable(p: nat, pd: nat, t: nat)     // an entry of a page directory
    | NewSpace(p: nat, d: nat, kernelTable: nat)
    | DropSpace(p: nat)                      // tables and directory are freed
    | MoveBrk(p: nat, to: nat)
    | Poke(p: nat, vp: nat, fr: Frame)       // a process writes a page of its own

  predicate Enabled(k: Kernel, m: Move) {
    && Shaped(k.s)
    && match m
       case Take(x) => x < |k.s.mem| && x !in k.s.taken
       case Give(x) => x in k.lost && x != 0
       case Fill(x, fr) => x in k.lost && 0 < x < |k.s.mem| && |fr| == PAGE_WORDS
       case SetEntry(p, vp, x) =>
         && vp < USER_PAGES && 0 < TabOf(k.s, p, vp / PAGE_WORDS) < |k.s.mem|
         && (x != 0 ==> x in k.lost && x < |k.s.mem|)
       case HangTable(p, pd, t) =>
         && p in k.s.dirs && k.s.dirs[p] < |k.s.mem| && pd < SYS_INDEX && TabOf(k.s, p, pd) == 0
         && t in k.lost && 0 < t < |k.s.mem| && k.s.mem[t] == Zeros()
       case NewSpace(p, d, kernelTable) =>
         && p !in k.s.dirs && d in k.lost && 0 < d < |k.s.mem| && kernelTable < 0x10_0000
         && k.s.mem[d] == EmptyDir(kernelTable, d)
       case DropSpace(p) => p in k.s.dirs && NothingMapped(k.s, p, USER_PAGES)
       case MoveBrk(p, to) => true
       case Poke(p, vp, fr) => vp < USER_PAGES && 0 < Extract(k.s, p, vp) < |k.s.mem| && |fr| == PAGE_WORDS
  }

  predicate NothingMapped(s: State, p: nat, n: nat)
    requires Shaped(s) && n <= USER_PAGES
  {
    forall v: nat :: v < n ==> Extract(s, p, v) == 0
  }

  function Apply(k: Kernel, m: Move): Kernel
    requires Enabled(k, m)
  {
    var s := k.s;
    match m
    case Take(x) => Kernel(s.(taken := s.taken + {x}), k.lost + {x})
    case Give(x) => Kernel(s.(taken := s.taken - {x}), k.lost - {x})
    case Fill(x, fr) => Kernel(Put(s, x, fr), k.lost)
    case SetEntry(p, vp, x) =>
      var t := TabOf(s, p, vp / PAGE_WORDS);
      Kernel(Put(s, t, SetWord(s.mem[t], vp % PAGE_WORDS, EntryFor(x))), LostBy(k.lost, Extract(s, p, vp), x))
    case HangTable(p, pd, t) =>
      var d := s.dirs[p];
      Kernel(Put(s, d, SetWord(s.mem[d], pd, Entry(t))), LostBy(k.lost, 0, t))
    case NewSpace(p, d, _) => Kernel(s.(dirs := s.dirs[p := d], brk := s.brk[p := TEXT]), LostBy(k.lost, 0, d))
    case DropSpace(p) => Kernel(Dropped(s, p), k.lost)
    case MoveBrk(p, to) => Kernel(s.(brk := s.brk[p := to]), k.lost)
    case Poke(p, vp, fr) => Kernel(Put(s, Extract(s, p, vp), fr), k.lost)
  }

  /** The pages a move allocates and those it frees. */
  function Allocated(k: Kernel, m: Move): set<nat> { if m.Take? then {m.x} else {} }

  function Freed(k: Kernel, m: Move): set<nat>
    requires Enabled(k, m)
  {
    if m.Give? then {m.x}
    else if m.DropSpace? then TablePages(k.s, m.p, SYS_INDEX) + {k.s.dirs[m.p]}
    else {}
  }

  /** Every move keeps all pages accounted for, and a freed page was allocated until then, an allocated one free. */
  lemma MoveKeeps(k: Kernel, m: Move)
    requires Accounted(k.s, k.lost) && Enabled(k, m)
    ensures Accounted(Apply(k, m).s, Apply(k, m).lost)
    ensures Freed(k, m) <= k.s.taken && Allocated(k, m) !! k.s.taken
    ensures Apply(k, m).s.taken == k.s.taken + Allocated(k, m) - Freed(k, m)
  {
    hide Accounted;
    match m
    case Take(x) => TakePage(k.s, k.lost, x);
    case Give(x) =>
      FreePage(k.s, k.lost, x);
      LostTaken(k);
    case Fill(x, fr) => WriteLost(k.s, k.lost, x, fr);
    case SetEntry(p, vp, x) =>
      EntryNames(x);
      SetPte(k.s, k.lost, p, vp, EntryFor(x));
    case HangTable(p, pd, t) => SetPde(k.s, k.lost, p, pd, t);
    case NewSpace(p, d, kernelTable) => NewDir(k.s, k.lost, p, d, kernelTable, TEXT);
    case DropSpace(p) =>
      DropDir(k.s, k.lost, p);
      DropsTaken(k, p);
    case MoveBrk(p, to) => BrkKeeps(k, p, to);
    case Poke(p, vp, fr) => WriteUser(k.s, k.lost, p, vp, fr);
  }

  lemma LostTaken(k: Kernel)
    requires Accounted(k.s, k.lost)
    ensures k.lost <= k.s.taken
  {
  }

  lemma DropsTaken(k: Kernel, p: nat)
    requires Accounted(k.s, k.lost) && p in k.s.dirs
    ensures TablePages(k.s, p, SYS_INDEX) + {k.s.dirs[p]} <= k.s.taken
  {
    assert PageAt(k.s, Dir(p)) == k.s.dirs[p];
    forall e | 0 <= e < SYS_INDEX && TabOf(k.s, p, e) != 0
      ensures TabOf(k.s, p, e) in k.s.taken
    {
      assert PageAt(k.s, Tab(p, e)) == TabOf(k.s, p, e);
    }
  }

  lemma BrkKeeps(k: Kernel, p: nat, to: nat)
    requires Accounted(k.s, k.lost)
    ensures Accounted(k.s.(brk := k.s.brk[p := to]), k.lost)
  {
    SamePages(k.s, k.s.(brk := k.s.brk[p := to]), k.lost);
  }

  // ------------------------------------------------------------------ runs

  /** The kernel after the moves; a move that is not possible ends the run. */
  function After(k: Kernel, ms: seq<Move>): Kernel
    decreases |ms|
  {
    if ms == [] then k
    else
      var k' := After(k, ms[..|ms| - 1]);
      if Enabled(k', ms[|ms| - 1]) then Apply(k', ms[|ms| - 1]) else k'
  }

  /** Each move is possible where it is made. */
  predicate Run(k: Kernel, ms: seq<Move>)
    decreases |ms|
  {
    ms == [] || (Run(k, ms[..|ms| - 1]) && Enabled(After(k, ms[..|ms| - 1]), ms[|ms| - 1]))
  }

  lemma OneMore(k: Kernel, ms: seq<Move>, m: Move)
    requires Run(k, ms) && Enabled(After(k, ms), m)
    ensures Run(k, ms + [m]) && After(k, ms + [m]) == Apply(After(k, ms), m)
  {
    assert (ms + [m])[..|ms|] == ms;
  }

  /** `k` is reached from `start` by these moves. */
  predicate Leads(start: Kernel, ms: seq<Move>, k: Kernel) { Run(start, ms) && After(start, ms) == k }

  lemma LeadsOn(start: Kernel, ms: seq<Move>, k: Kernel, m: Move)
    requires Leads(start, ms, k) && Enabled(k, m)
    ensures Leads(start, ms + [m], Apply(k, m))
  {
    hide Enabled, Apply;
    OneMore(start, ms, m);
  }

  lemma {:induction false} RunPrefix(k: Kernel, ms: seq<Move>, i: nat)
    requires Run(k, ms) && i <= |ms|
    ensures Run(k, ms[..i])
    decreases |ms|
  {
    if i == |ms| {
      assert ms[..i] == ms;
    } else {
      RunPrefix(k, ms[..|ms| - 1], i);
      assert ms[..|ms| - 1][..i] == ms[..i];
    }
  }

  lemma {:induction false} RunAccounted(k: Kernel, ms: seq<Move>)
    requires Accounted(k.s, k.lost) && Run(k, ms)
    ensures Accounted(After(k, ms).s, After(k, ms).lost)
    decreases |ms|
  {
    if ms != [] {
      var k' := After(k, ms[..|ms| - 1]);
      RunAccounted(k, ms[..|ms| - 1]);
      MoveKeeps(k', ms[|ms| - 1]);
    }
  }

  /** In every state any run reaches, two mapped pages are one physical page only if they are the same page
      of the same process, and a mapped page is allocated and no table or directory of any process. */
  lemma RunIsolates(k: Kernel, ms: seq<Move>, p: nat, v: nat, q: nat, w: nat)
    requires Accounted(k.s, k.lost) && Run(k, ms) && v < USER_PAGES && w < USER_PAGES
    ensures Shaped(After(k, ms).s)
    ensures var s := After(k, ms).s;
      Extract(s, p, v) != 0 ==>
        && (Extract(s, p, v) == Extract(s, q, w) <==> p == q && v == w)
        && Extract(s, p, v) in s.taken && NoTable(s, Extract(s, p, v))
  {
    RunAccounted(k, ms);
    var s, lost := After(k, ms).s, After(k, ms).lost;
    if Extract(s, p, v) != 0 {
      UserNoTable(s, lost, p, v);
      assert PageAt(s, User(p, v)) == Extract(s, p, v);
    }
  }

  /** Over any run no page is freed twice without having been allocated in between. */
  lemma {:induction false} NoDoubleFree(k: Kernel, ms: seq<Move>, i: nat, j: nat, x: nat)
    requires Accounted(k.s, k.lost) && Run(k, ms) && i < j < |ms|
    requires Enabled(After(k, ms[..i]), ms[i]) && x in Freed(After(k, ms[..i]), ms[i])
    requires Enabled(After(k, ms[..j]), ms[j]) && x in Freed(After(k, ms[..j]), ms[j])
    ensures exists n: nat :: i < n < j && ms[n] == Take(x)
  {
    RunPrefix(k, ms, j);
    RunAccounted(k, ms[..j]);
    MoveKeeps(After(k, ms[..j]), ms[j]);
    TakenSince(k, ms, i, j, x);
  }

  lemma StepTaken(k: Kernel, ms: seq<Move>, j: nat)
    requires Accounted(k.s, k.lost) && Run(k, ms) && 0 < j <= |ms|
    ensures Enabled(After(k, ms[..j - 1]), ms[j - 1])
    ensures var k' := After(k, ms[..j - 1]);
      After(k, ms[..j]).s.taken == k'.s.taken + Allocated(k', ms[j - 1]) - Freed(k', ms[j - 1])
  {
    RunPrefix(k, ms, j);
    RunPrefix(k, ms, j - 1);
    assert ms[..j][..j - 1] == ms[..j - 1] && ms[..j][j - 1] == ms[j - 1];
    RunAccounted(k, ms[..j - 1]);
    hide Accounted, Apply, Enabled;
    MoveKeeps(After(k, ms[..j - 1]), ms[j - 1]);
  }

  /** A page that was freed and is allocated again has been taken since. */
  lemma {:induction false} TakenSince(k: Kernel, ms: seq<Move>, i: nat, j: nat, x: nat)
    requires Accounted(k.s, k.lost) && Run(k, ms) && i < j <= |ms| && x in After(k, ms[..j]).s.taken
    requires Enabled(After(k, ms[..i]), ms[i]) && x in Freed(After(k, ms[..i]), ms[i])
    ensures exists n: nat :: i < n < j && ms[n] == Take(x)
    decreases j
  {
    hide Accounted, Run, After, Apply, Enabled, Freed;
    StepTaken(k, ms, j);
    if i < j - 1 && ms[j - 1] != Take(x) {
      TakenSince(k, ms, i, j - 1, x);
    }
  }
}

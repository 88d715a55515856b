/** Physical pages and the two-level tables that map them, all of them in one memory: who owns which page,
    and what each process sees through its tables. */
module VmSpec {

  const PAGE_WORDS := 1024
  const SYS_INDEX := 0x200
  const PTE_MAP_INDEX := 0x3FF
  const USER_PAGES := SYS_INDEX * PAGE_WORDS
  const TEXT := 0x100
  const USTACK := 0x1FF
  const MAX_PAGES := 0x8000            // 128 megabytes

  type Word = w: int | 0 <= w < 0x1_0000_0000
  type Frame = seq<Word>

  /** Memory page by page, the pages marked allocated, and for each process its page directory and the
      page number where its program break stands. */
  datatype State = State(mem: seq<Frame>, taken: set<nat>, dirs: map<nat, nat>, brk: map<nat, nat>)

  /** The places that can refer to a page: a process's directory, its directory's entries below the kernel's,
      and through these the entries of its page tables. */
  datatype Pos = Dir(p: nat) | Tab(p: nat, pd: nat) | User(p: nat, vp: nat)

  function Zeros(): Frame { seq(PAGE_WORDS, _ => 0) }

  /** A table entry with the flags present, writable and user. */
  function Entry(page: nat): Word
    requires page < 0x10_0000
  {
    page * 4096 + 7
  }

  /** What is written for page `page`, or for none. */
  function EntryFor(page: nat): Word
    requires page < 0x10_0000
  {
    if page == 0 then 0 else Entry(page)
  }

  function PageOf(w: Word): nat { if w % 2 == 1 then w / 4096 else 0 }

  lemma EntryNames(page: nat)
    requires page < 0x10_0000
    ensures PageOf(Entry(page)) == page && PageOf(0) == 0 && PageOf(EntryFor(page)) == page
  {
    assert (page * 4096 + 7) / 4096 == page;
  }

  predicate Shaped(s: State) {
    && |s.mem| <= MAX_PAGES
    && (forall x :: 0 <= x < |s.mem| ==> |s.mem[x]| == PAGE_WORDS)
  }

  predicate ValidPos(pos: Pos) { (pos.Tab? ==> pos.pd < SYS_INDEX) && (pos.User? ==> pos.vp < USER_PAGES) }

  function WordAt(s: State, x: nat, i: nat): Word
    requires Shaped(s) && i < PAGE_WORDS
  {
    if 0 < x < |s.mem| then s.mem[x][i] else 0
  }

  function DirOf(s: State, p: nat): nat { if p in s.dirs then s.dirs[p] else 0 }

  function TabOf(s: State, p: nat, pd: nat): nat
    requires Shaped(s) && pd < SYS_INDEX
  {
    PageOf(WordAt(s, DirOf(s, p), pd))
  }

  /** `pmap_extract`, in page numbers; 0 is not mapped. */
  function Extract(s: State, p: nat, vp: nat): nat
    requires Shaped(s) && vp < USER_PAGES
  {
    PageOf(WordAt(s, TabOf(s, p, vp / PAGE_WORDS), vp % PAGE_WORDS))
  }

  function PageAt(s: State, pos: Pos): nat
    requires Shaped(s) && ValidPos(pos)
  {
    match pos
    case Dir(p) => DirOf(s, p)
    case Tab(p, pd) => TabOf(s, p, pd)
    case User(p, vp) => Extract(s, p, vp)
  }

  ghost predicate HasOwner(s: State, x: nat)
    requires Shaped(s)
  {
    exists pos :: ValidPos(pos) && PageAt(s, pos) == x
  }

  /** No page is referred to from two places, and the allocated pages are those referred to and those in
      `lost`: the kernel's own, one in the kernel's hands just now, or one nobody will ever free. */
  ghost predicate Accounted(s: State, lost: set<nat>) {
    && Shaped(s)
    && (forall p :: p in s.dirs ==> s.dirs[p] != 0)
    && (forall pos :: ValidPos(pos) && PageAt(s, pos) != 0 ==>
        PageAt(s, pos) in s.taken - lost && PageAt(s, pos) < |s.mem|)
    && (forall a, b :: ValidPos(a) && ValidPos(b) && a != b && PageAt(s, a) != 0 ==> PageAt(s, a) != PageAt(s, b))
    && 0 in lost && lost <= s.taken
    && (forall x :: x in s.taken - lost ==> HasOwner(s, x))
  }

  /** What the process sees at a page of its address space; nothing where no page is mapped. */
  function Image(s: State, p: nat, vp: nat): Frame
    requires Shaped(s) && vp < USER_PAGES
  {
    var x := Extract(s, p, vp);
    if 0 < x < |s.mem| then s.mem[x] else []
  }

  /** `s'` shows `fr` at the pages `[lo, hi)` of process `p`, and everything else in every process as `s` does. */
  ghost predicate PaintsRange(s: State, s': State, p: nat, lo: nat, hi: nat, fr: Frame)
    requires Shaped(s) && Shaped(s')
  {
    && s'.dirs == s.dirs && s'.brk == s.brk && |s'.mem| == |s.mem|
    && forall q: nat, v: nat :: v < USER_PAGES ==>
        Image(s', q, v) == if q == p && lo <= v < hi then fr else Image(s, q, v)
  }

  ghost predicate Paints(s: State, s': State, p: nat, vp: nat, fr: Frame)
    requires Shaped(s) && Shaped(s')
  {
    PaintsRange(s, s', p, vp, vp + 1, fr)
  }

  /** No image changes. */
  ghost predicate SameImages(s: State, s': State)
    requires Shaped(s) && Shaped(s')
  {
    && |s'.mem| == |s.mem|
    && forall q: nat, v: nat :: v < USER_PAGES ==> Image(s', q, v) == Image(s, q, v)
  }

  /** Outside the pages `[lo, hi)` of process `p` every mapped page is the physical page it was. */
  ghost predicate Stays(s: State, s': State, p: nat, lo: nat, hi: nat)
    requires Shaped(s) && Shaped(s')
  {
    forall q: nat, v: nat :: v < USER_PAGES && !(q == p && lo <= v < hi) ==> Extract(s', q, v) == Extract(s, q, v)
  }

  /** The pages at hand keep their contents. */
  ghost predicate Untouched(s: State, s': State, lost: set<nat>) {
    |s'.mem| == |s.mem| && forall x :: x in lost && x < |s.mem| ==> s'.mem[x] == s.mem[x]
  }

  // ------------------------------------------------------------------ what one memory write does

  function Put(s: State, x: nat, fr: Frame): State
    requires x < |s.mem|
  {
    s.(mem := s.mem[x := fr])
  }

  /** Page `x` is used for neither a directory nor a table. */
  ghost predicate NoTable(s: State, x: nat)
    requires Shaped(s)
  {
    (forall p: nat :: DirOf(s, p) != x) && forall p: nat, pd: nat :: pd < SYS_INDEX ==> TabOf(s, p, pd) != x
  }

  /** Writing a page that is no table moves no page. */
  lemma PutNoTable(s: State, x: nat, fr: Frame)
    requires Shaped(s) && 0 < x < |s.mem| && NoTable(s, x) && |fr| == PAGE_WORDS
    ensures Shaped(Put(s, x, fr))
    ensures forall pos :: ValidPos(pos) ==> PageAt(Put(s, x, fr), pos) == PageAt(s, pos)
  {
    var s' := Put(s, x, fr);
    forall pos | ValidPos(pos)
      ensures PageAt(s', pos) == PageAt(s, pos)
    {
      assert DirOf(s, pos.p) != x;
      if pos.User? {
        var pd := pos.vp / PAGE_WORDS;
        assert TabOf(s, pos.p, pd) != x && TabOf(s', pos.p, pd) == TabOf(s, pos.p, pd);
      }
    }
  }

  /** Where nothing moves, pages stay accounted for. */
  lemma SamePages(s: State, s': State, lost: set<nat>)
    requires Accounted(s, lost) && Shaped(s') && |s'.mem| == |s.mem| && s'.taken == s.taken && s'.dirs == s.dirs
    requires forall pos :: ValidPos(pos) ==> PageAt(s', pos) == PageAt(s, pos)
    ensures Accounted(s', lost)
  {
    forall x | x in s'.taken - lost
      ensures HasOwner(s', x)
    {
      assert HasOwner(s, x);
      var pos :| ValidPos(pos) && PageAt(s, pos) == x;
      assert PageAt(s', pos) == x;
    }
  }

  /** `lost` after one place goes from `before` to `after`. */
  function LostBy(lost: set<nat>, before: nat, after: nat): set<nat> {
    (if after != 0 then lost - {after} else lost) + (if before != 0 then {before} else {})
  }

  /** One place changes, to nothing or to a page that was at hand. */
  lemma Repointed(s: State, s': State, at: Pos, lost: set<nat>)
    requires Accounted(s, lost) && Shaped(s') && |s'.mem| == |s.mem| && s'.taken == s.taken && ValidPos(at)
    requires forall p :: p in s'.dirs ==> s'.dirs[p] != 0
    requires forall pos :: ValidPos(pos) && pos != at ==> PageAt(s', pos) == PageAt(s, pos)
    requires PageAt(s', at) != 0 ==> PageAt(s', at) in lost && PageAt(s', at) < |s.mem|
    ensures Accounted(s', LostBy(lost, PageAt(s, at), PageAt(s', at)))
  {
    var a, b := PageAt(s, at), PageAt(s', at);
    var lost' := LostBy(lost, a, b);
    forall pos | ValidPos(pos) && PageAt(s', pos) != 0
      ensures PageAt(s', pos) in s'.taken - lost' && PageAt(s', pos) < |s'.mem|
      ensures pos != at ==> PageAt(s', pos) != b
    {
      if pos != at { assert PageAt(s, pos) in s.taken - lost; }
    }
    forall x | x in s'.taken - lost'
      ensures HasOwner(s', x)
    {
      if x == b && b != 0 {
        assert PageAt(s', at) == x;
      } else {
        assert HasOwner(s, x);
        var pos :| ValidPos(pos) && PageAt(s, pos) == x;
        assert pos != at;
        assert PageAt(s', pos) == x;
      }
    }
  }

  /** A page in nobody's tables is referred to by no table and is no table. */
  lemma LostNoTable(s: State, lost: set<nat>, x: nat)
    requires Accounted(s, lost) && (x in lost || x !in s.taken) && x != 0
    ensures NoTable(s, x)
    ensures forall q: nat, v: nat :: v < USER_PAGES ==> Extract(s, q, v) != x
  {
    forall q: nat | true ensures DirOf(s, q) != x { assert DirOf(s, q) == PageAt(s, Dir(q)); }
    forall q: nat, pd: nat | pd < SYS_INDEX
      ensures TabOf(s, q, pd) != x
    {
      assert TabOf(s, q, pd) == PageAt(s, Tab(q, pd));
    }
    forall q: nat, v: nat | v < USER_PAGES
      ensures Extract(s, q, v) != x
    {
      assert Extract(s, q, v) == PageAt(s, User(q, v));
    }
  }

  lemma UserNoTable(s: State, lost: set<nat>, p: nat, vp: nat)
    requires Accounted(s, lost) && vp < USER_PAGES && Extract(s, p, vp) != 0
    ensures NoTable(s, Extract(s, p, vp)) && Extract(s, p, vp) < |s.mem|
    ensures forall q: nat, v: nat :: v < USER_PAGES && (q != p || v != vp) ==> Extract(s, q, v) != Extract(s, p, vp)
  {
    var x := Extract(s, p, vp);
    assert PageAt(s, User(p, vp)) == x;
    forall q: nat | true ensures DirOf(s, q) != x { assert DirOf(s, q) == PageAt(s, Dir(q)) && Dir(q) != User(p, vp); }
    forall q: nat, pd: nat | pd < SYS_INDEX
      ensures TabOf(s, q, pd) != x
    {
      assert TabOf(s, q, pd) == PageAt(s, Tab(q, pd)) && Tab(q, pd) != User(p, vp);
    }
    forall q: nat, v: nat | v < USER_PAGES && (q != p || v != vp)
      ensures Extract(s, q, v) != x
    {
      assert Extract(s, q, v) == PageAt(s, User(q, v)) && User(q, v) != User(p, vp);
    }
  }

  /** Writing a page that is at hand shows nowhere. */
  lemma WriteLost(s: State, lost: set<nat>, x: nat, fr: Frame)
    requires Accounted(s, lost) && x in lost && 0 < x < |s.mem| && |fr| == PAGE_WORDS
    ensures Accounted(Put(s, x, fr), lost) && SameImages(s, Put(s, x, fr))
    ensures forall q: nat, v: nat :: v < USER_PAGES ==> Extract(Put(s, x, fr), q, v) == Extract(s, q, v)
  {
    var s' := Put(s, x, fr);
    LostNoTable(s, lost, x);
    PutNoTable(s, x, fr);
    SamePages(s, s', lost);
    forall q: nat, v: nat | v < USER_PAGES
      ensures Extract(s', q, v) == Extract(s, q, v) && Image(s', q, v) == Image(s, q, v)
    {
      assert PageAt(s', User(q, v)) == PageAt(s, User(q, v));
    }
  }

  /** A write to a page of one process shows there and nowhere else, in no process and in no table. */
  lemma WriteUser(s: State, lost: set<nat>, p: nat, vp: nat, fr: Frame)
    requires Accounted(s, lost) && vp < USER_PAGES && Extract(s, p, vp) != 0 && |fr| == PAGE_WORDS
    ensures Extract(s, p, vp) < |s.mem|
    ensures var s' := Put(s, Extract(s, p, vp), fr);
        Accounted(s', lost) && Paints(s, s', p, vp, fr) && Stays(s, s', p, vp, vp)
  {
    UserNoTable(s, lost, p, vp);
    var x := Extract(s, p, vp);
    var s' := Put(s, x, fr);
    PutNoTable(s, x, fr);
    SamePages(s, s', lost);
    forall q: nat, v: nat | v < USER_PAGES
      ensures Image(s', q, v) == (if q == p && v == vp then fr else Image(s, q, v))
          && Extract(s', q, v) == Extract(s, q, v)
    {
      assert PageAt(s', User(q, v)) == PageAt(s, User(q, v));
    }
  }

  // ------------------------------------------------------------------ directories and tables

  function SetWord(fr: Frame, i: nat, w: Word): Frame
    requires i < |fr|
  {
    fr[i := w]
  }

  /** An entry of a page table is written: that one page of the process is remapped. */
  lemma SetPte(s: State, lost: set<nat>, p: nat, vp: nat, w: Word)
    requires Accounted(s, lost) && vp < USER_PAGES && TabOf(s, p, vp / PAGE_WORDS) != 0
    requires PageOf(w) != 0 ==> PageOf(w) in lost && PageOf(w) < |s.mem|
    ensures TabOf(s, p, vp / PAGE_WORDS) < |s.mem|
    ensures var t := TabOf(s, p, vp / PAGE_WORDS);
            var s' := Put(s, t, SetWord(s.mem[t], vp % PAGE_WORDS, w));
      && Accounted(s', LostBy(lost, Extract(s, p, vp), PageOf(w))) && Extract(s', p, vp) == PageOf(w)
      && Paints(s, s', p, vp, if PageOf(w) != 0 then s.mem[PageOf(w)] else []) && Stays(s, s', p, vp, vp + 1)
  {
    var pd := vp / PAGE_WORDS;
    var t := TabOf(s, p, pd);
    assert PageAt(s, Tab(p, pd)) == t;
    var s' := Put(s, t, SetWord(s.mem[t], vp % PAGE_WORDS, w));
    forall q: nat | true
      ensures DirOf(s, q) != t
    {
      assert DirOf(s, q) == PageAt(s, Dir(q)) && Dir(q) != Tab(p, pd);
    }
    forall q: nat, e: nat | e < SYS_INDEX
      ensures TabOf(s', q, e) == TabOf(s, q, e) && (q != p || e != pd ==> TabOf(s, q, e) != t)
    {
      assert TabOf(s, q, e) == PageAt(s, Tab(q, e));
    }
    forall pos | ValidPos(pos) && pos != User(p, vp)
      ensures PageAt(s', pos) == PageAt(s, pos)
    {
      if pos.User? { PteElsewhere(pos.vp, vp); }
    }
    assert PageAt(s', User(p, vp)) == PageOf(w);
    PagesStay(s, s', p, vp);
    Repointed(s, s', User(p, vp), lost);
    PteImages(s, s', lost, p, vp, t, PageOf(w));
  }

  lemma PagesStay(s: State, s': State, p: nat, vp: nat)
    requires Shaped(s) && Shaped(s') && vp < USER_PAGES
    requires forall pos :: ValidPos(pos) && pos != User(p, vp) ==> PageAt(s', pos) == PageAt(s, pos)
    ensures Stays(s, s', p, vp, vp + 1)
  {
    forall q: nat, v: nat | v < USER_PAGES && !(q == p && v == vp)
      ensures Extract(s', q, v) == Extract(s, q, v)
    {
      assert PageAt(s', User(q, v)) == PageAt(s, User(q, v));
    }
  }

  lemma PteElsewhere(v: nat, vp: nat)
    ensures v != vp ==> v / PAGE_WORDS != vp / PAGE_WORDS || v % PAGE_WORDS != vp % PAGE_WORDS
  {
  }

  lemma PteImages(s: State, s': State, lost: set<nat>, p: nat, vp: nat, t: nat, x: nat)
    requires Accounted(s, lost) && Shaped(s') && vp < USER_PAGES && t < |s.mem| == |s'.mem|
        && s' == Put(s, t, s'.mem[t])
    requires TabOf(s, p, vp / PAGE_WORDS) == t != 0 && (x != 0 ==> x in lost && x < |s.mem|)
    requires forall pos :: ValidPos(pos) && pos != User(p, vp) ==> PageAt(s', pos) == PageAt(s, pos)
    requires PageAt(s', User(p, vp)) == x
    ensures Paints(s, s', p, vp, if x != 0 then s.mem[x] else [])
  {
    assert PageAt(s, Tab(p, vp / PAGE_WORDS)) == t;
    forall q: nat, v: nat | v < USER_PAGES
      ensures Image(s', q, v) == if q == p && v == vp then (if x != 0 then s.mem[x] else []) else Image(s, q, v)
    {
      assert PageAt(s', User(q, v)) == Extract(s', q, v) && PageAt(s, User(q, v)) == Extract(s, q, v);
      assert User(q, v) != Tab(p, vp / PAGE_WORDS);
    }
  }

  /** An empty table is hung into a directory: nothing is mapped by it yet. */
  lemma SetPde(s: State, lost: set<nat>, p: nat, pd: nat, t: nat)
    requires Accounted(s, lost) && p in s.dirs && pd < SYS_INDEX && TabOf(s, p, pd) == 0
    requires t in lost && 0 < t < |s.mem| && s.mem[t] == Zeros()
    ensures s.dirs[p] < |s.mem|
    ensures var d := s.dirs[p];
            var s' := Put(s, d, SetWord(s.mem[d], pd, Entry(t)));
      && Accounted(s', LostBy(lost, 0, t)) && TabOf(s', p, pd) == t && SameImages(s, s')
      && forall q: nat, v: nat :: v < USER_PAGES ==> Extract(s', q, v) == Extract(s, q, v)
  {
    var d := s.dirs[p];
    assert PageAt(s, Dir(p)) == d;
    var s' := Put(s, d, SetWord(s.mem[d], pd, Entry(t)));
    assert Shaped(s');
    forall q: nat, e: nat | e < SYS_INDEX
      ensures TabOf(s', q, e) == if q == p && e == pd then t else TabOf(s, q, e)
    {
      PdeTable(s, lost, p, pd, t, q, e);
    }
    forall q: nat, v: nat | v < USER_PAGES
      ensures Extract(s', q, v) == Extract(s, q, v) && Image(s', q, v) == Image(s, q, v)
    {
      PdePage(s, lost, p, pd, t, q, v);
    }
    hide TabOf, Extract, Image, Accounted, Entry;
    assert PageAt(s', Tab(p, pd)) == t && PageAt(s, Tab(p, pd)) == 0;
    assert forall pos :: ValidPos(pos) && pos != Tab(p, pd) ==> PageAt(s', pos) == PageAt(s, pos);
    assert t < |s.mem| && forall q :: q in s'.dirs ==> s'.dirs[q] != 0 by { DirsThere(s, lost); }
    Repointed(s, s', Tab(p, pd), lost);
  }

  lemma DirsThere(s: State, lost: set<nat>)
    requires Accounted(s, lost)
    ensures forall q :: q in s.dirs ==> s.dirs[q] != 0
  {
  }

  lemma PdeTable(s: State, lost: set<nat>, p: nat, pd: nat, t: nat, q: nat, e: nat)
    requires Accounted(s, lost) && p in s.dirs && s.dirs[p] < |s.mem| && pd < SYS_INDEX && e < SYS_INDEX
    requires t in lost && 0 < t < |s.mem|
    ensures Shaped(Put(s, s.dirs[p], SetWord(s.mem[s.dirs[p]], pd, Entry(t))))
    ensures TabOf(Put(s, s.dirs[p], SetWord(s.mem[s.dirs[p]], pd, Entry(t))), q, e) ==
            if q == p && e == pd then t else TabOf(s, q, e)
  {
    EntryNames(t);
    hide PageOf, Entry;
    assert PageAt(s, Dir(p)) == s.dirs[p];
    if q != p && q in s.dirs { assert PageAt(s, Dir(q)) == s.dirs[q] && Dir(q) != Dir(p); }
  }

  lemma PdePage(s: State, lost: set<nat>, p: nat, pd: nat, t: nat, q: nat, v: nat)
    requires Accounted(s, lost) && p in s.dirs && s.dirs[p] < |s.mem| && pd < SYS_INDEX && TabOf(s, p, pd) == 0
    requires t in lost && 0 < t < |s.mem| && s.mem[t] == Zeros() && v < USER_PAGES
    ensures Shaped(Put(s, s.dirs[p], SetWord(s.mem[s.dirs[p]], pd, Entry(t))))
    ensures var s' := Put(s, s.dirs[p], SetWord(s.mem[s.dirs[p]], pd, Entry(t)));
            Extract(s', q, v) == Extract(s, q, v) && Image(s', q, v) == Image(s, q, v)
  {
    var d, e := s.dirs[p], v / PAGE_WORDS;
    EntryNames(t);
    PdeTable(s, lost, p, pd, t, q, e);
    assert PageAt(s, Dir(p)) == d && d != t;
    assert TabOf(s, q, e) == PageAt(s, Tab(q, e)) && Tab(q, e) != Dir(p);
    assert Extract(s, q, v) == PageAt(s, User(q, v)) && User(q, v) != Dir(p);
    assert s.mem[t][v % PAGE_WORDS] == 0;
    hide TabOf, PageOf, Entry, Accounted;
  }

  /** The directory `pmap_create` writes: nothing below the kernel, the kernel's table, and itself. */
  function EmptyDir(kernel: nat, d: nat): Frame
    requires kernel < 0x10_0000 && d < 0x10_0000
  {
    Zeros()[SYS_INDEX := Entry(kernel)][PTE_MAP_INDEX := Entry(d)]
  }

  /** A process gets an address space with nothing in it. */
  lemma NewDir(s: State, lost: set<nat>, p: nat, d: nat, kernel: nat, brk: nat)
    requires Accounted(s, lost) && p !in s.dirs && d in lost && 0 < d < |s.mem| && kernel < 0x10_0000
        && s.mem[d] == EmptyDir(kernel, d)
    ensures var s' := s.(dirs := s.dirs[p := d], brk := s.brk[p := brk]);
      && Accounted(s', LostBy(lost, 0, d)) && SameImages(s, s')
      && forall v: nat :: v < USER_PAGES ==> Image(s', p, v) == []
  {
    var s' := s.(dirs := s.dirs[p := d], brk := s.brk[p := brk]);
    forall q: nat, e: nat | e < SYS_INDEX
      ensures TabOf(s', q, e) == TabOf(s, q, e) && TabOf(s', p, e) == 0
    {
      assert s'.mem[d][e] == 0;
    }
    forall q: nat, v: nat | v < USER_PAGES
      ensures Extract(s', q, v) == Extract(s, q, v) && Extract(s', p, v) == 0
    {
    }
    assert PageAt(s', Dir(p)) == d && PageAt(s, Dir(p)) == 0;
    Repointed(s, s', Dir(p), lost);
  }

  /** The pages of a process's tables below directory entry `n`. */
  function TablePages(s: State, p: nat, n: nat): set<nat>
    requires Shaped(s) && n <= SYS_INDEX
  {
    set e | 0 <= e < n && TabOf(s, p, e) != 0 :: TabOf(s, p, e)
  }

  /** Each table page that is freed when an address space goes is allocated until then. */
  lemma NextTable(s: State, lost: set<nat>, p: nat, e: nat)
    requires Accounted(s, lost) && p in s.dirs && e < SYS_INDEX
    ensures var t := TabOf(s, p, e);
      && TablePages(s, p, e + 1) == TablePages(s, p, e) + (if t != 0 then {t} else {})
      && (t != 0 ==> t in s.taken - TablePages(s, p, e))
    ensures s.dirs[p] in s.taken - TablePages(s, p, e + 1)
  {
    var t := TabOf(s, p, e);
    assert PageAt(s, Tab(p, e)) == t && PageAt(s, Dir(p)) == s.dirs[p];
    forall i | 0 <= i < e && t != 0
      ensures TabOf(s, p, i) != t
    {
      assert PageAt(s, Tab(p, i)) == TabOf(s, p, i) && Tab(p, i) != Tab(p, e);
    }
    forall i | 0 <= i <= e
      ensures TabOf(s, p, i) != s.dirs[p]
    {
      assert PageAt(s, Tab(p, i)) == TabOf(s, p, i) && Tab(p, i) != Dir(p);
    }
  }

  function Dropped(s: State, p: nat): State
    requires Shaped(s) && p in s.dirs
  {
    s.(dirs := s.dirs - {p}, taken := s.taken - TablePages(s, p, SYS_INDEX) - {s.dirs[p]})
  }

  /** An address space with nothing mapped in it goes: its tables and directory are free again. */
  lemma DropDir(s: State, lost: set<nat>, p: nat)
    requires Accounted(s, lost) && p in s.dirs && forall v: nat :: v < USER_PAGES ==> Extract(s, p, v) == 0
    ensures Accounted(Dropped(s, p), lost) && SameImages(s, Dropped(s, p))
  {
    var s' := Dropped(s, p);
    forall pos | ValidPos(pos)
      ensures PageAt(s', pos) == if pos.p == p then 0 else PageAt(s, pos)
    {
    }
    assert forall e :: 0 <= e < SYS_INDEX && TabOf(s, p, e) != 0 ==> TabOf(s, p, e) in TablePages(s, p, SYS_INDEX);
    forall pos | ValidPos(pos) && PageAt(s', pos) != 0
      ensures PageAt(s', pos) in s'.taken
    {
      DropOther(s, lost, p, pos);
    }
    forall x | x in s'.taken - lost
      ensures HasOwner(s', x)
    {
      assert HasOwner(s, x);
      var pos :| ValidPos(pos) && PageAt(s, pos) == x;
      assert PageAt(s', pos) == x;
    }
    forall x | x in lost
      ensures x in s'.taken
    {
      if x != 0 { DropLost(s, lost, p, x); }
    }
  }

  lemma DropOther(s: State, lost: set<nat>, p: nat, pos: Pos)
    requires Accounted(s, lost) && p in s.dirs && ValidPos(pos) && pos.p != p && PageAt(s, pos) != 0
    ensures PageAt(s, pos) in Dropped(s, p).taken
  {
    var x := PageAt(s, pos);
    assert PageAt(s, Dir(p)) == s.dirs[p];
    forall e | 0 <= e < SYS_INDEX
      ensures TabOf(s, p, e) != x
    {
      assert PageAt(s, Tab(p, e)) == TabOf(s, p, e);
    }
  }

  lemma DropLost(s: State, lost: set<nat>, p: nat, x: nat)
    requires Accounted(s, lost) && p in s.dirs && x in lost && x != 0
    ensures x in Dropped(s, p).taken
  {
    LostNoTable(s, lost, x);
    assert DirOf(s, p) == s.dirs[p];
  }

  // ------------------------------------------------------------------ taking and freeing pages

  lemma TakePage(s: State, lost: set<nat>, x: nat)
    requires Accounted(s, lost) && x !in s.taken
    ensures Accounted(s.(taken := s.taken + {x}), lost + {x}) && SameImages(s, s.(taken := s.taken + {x}))
  {
    var s' := s.(taken := s.taken + {x});
    OwnersStay(s, s', lost + {x}, lost);
  }

  lemma FreePage(s: State, lost: set<nat>, x: nat)
    requires Accounted(s, lost) && x in lost && x != 0
    ensures Accounted(s.(taken := s.taken - {x}), lost - {x}) && SameImages(s, s.(taken := s.taken - {x}))
  {
    OwnersStay(s, s.(taken := s.taken - {x}), lost - {x}, lost);
  }

  lemma OwnersStay(s: State, s': State, lost': set<nat>, lost: set<nat>)
    requires Accounted(s, lost) && s' == s.(taken := s'.taken) && s'.taken - lost' == s.taken - lost && 0 in lost'
        && lost' <= s'.taken
    ensures Accounted(s', lost')
  {
    assert forall pos :: ValidPos(pos) ==> PageAt(s', pos) == PageAt(s, pos);
    forall x | x in s'.taken - lost'
      ensures HasOwner(s', x)
    {
      assert HasOwner(s, x);
      var pos :| ValidPos(pos) && PageAt(s, pos) == x;
      assert PageAt(s', pos) == x;
    }
  }
}

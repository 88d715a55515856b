/** How the images of processes add up over the steps of an operation, and the layout every process keeps. */
module VmImage {
  import opened VmSpec

  /** The pages of a process: all from the program text up to the break, and no others but one for the stack. */
  ghost predicate Layout(s: State, p: nat)
    requires Shaped(s)
  {
    && p in s.dirs && p in s.brk && TEXT <= s.brk[p] <= USER_PAGES
    && forall v: nat :: v < USER_PAGES ==>
         && (TEXT <= v < s.brk[p] ==> Image(s, p, v) != [])
         && (Image(s, p, v) != [] ==> TEXT <= v < s.brk[p] || v == USTACK)
  }

  /** Every page is accounted for and every process has its layout. */
  ghost predicate Inv(s: State, lost: set<nat>) {
    Accounted(s, lost) && forall p :: p in s.dirs ==> Layout(s, p)
  }

  lemma Mapped(s: State, lost: set<nat>, p: nat, vp: nat)
    requires Accounted(s, lost) && vp < USER_PAGES
    ensures Image(s, p, vp) != [] <==> Extract(s, p, vp) != 0
    ensures Extract(s, p, vp) != 0 ==> Extract(s, p, vp) < |s.mem| && p in s.dirs && TabOf(s, p, vp / PAGE_WORDS) != 0
    ensures Extract(s, p, vp) != 0 ==> |Image(s, p, vp)| == PAGE_WORDS
  {
    assert Extract(s, p, vp) == PageAt(s, User(p, vp));
  }

  lemma PaintsNothing(s: State, p: nat, lo: nat, fr: Frame)
    requires Shaped(s)
    ensures PaintsRange(s, s, p, lo, lo, fr)
  {
  }

  lemma PaintsMore(s: State, s1: State, s2: State, p: nat, lo: nat, i: nat, fr: Frame)
    requires Shaped(s) && Shaped(s1) && Shaped(s2) && lo <= i && PaintsRange(s, s1, p, lo, i, fr)
        && Paints(s1, s2, p, i, fr)
    ensures PaintsRange(s, s2, p, lo, i + 1, fr)
  {
    hide Image, Shaped;
  }

  lemma StaysNothing(s: State, p: nat, lo: nat)
    requires Shaped(s)
    ensures Stays(s, s, p, lo, lo)
  {
  }

  lemma StaysMore(s: State, s1: State, s2: State, p: nat, lo: nat, i: nat)
    requires Shaped(s) && Shaped(s1) && Shaped(s2) && lo <= i && Stays(s, s1, p, lo, i) && Stays(s1, s2, p, i, i + 1)
    ensures Stays(s, s2, p, lo, i + 1)
  {
    hide Extract, Shaped;
  }

  lemma PaintsAfterSame(s: State, s1: State, s2: State, p: nat, vp: nat, fr: Frame)
    requires Shaped(s) && Shaped(s1) && Shaped(s2) && SameImages(s, s1) && s1.dirs == s.dirs && s1.brk == s.brk
        && Paints(s1, s2, p, vp, fr)
    ensures Paints(s, s2, p, vp, fr)
  {
    hide Image, Shaped;
  }

  lemma SameAfterPaints(s: State, s1: State, s2: State, p: nat, vp: nat, fr: Frame)
    requires Shaped(s) && Shaped(s1) && Shaped(s2) && Paints(s, s1, p, vp, fr) && SameImages(s1, s2)
        && s2.dirs == s1.dirs && s2.brk == s1.brk
    ensures Paints(s, s2, p, vp, fr)
  {
    hide Image, Shaped;
  }

  /** The images of all processes but `p` are what they were. */
  ghost predicate OthersSame(s: State, s': State, p: nat)
    requires Shaped(s) && Shaped(s')
  {
    forall q: nat, v: nat :: v < USER_PAGES && q != p ==> Image(s', q, v) == Image(s, q, v)
  }

  /** What `brk` makes of the image: more zeroed pages, or fewer pages. */
  ghost predicate Resized(s: State, s': State, p: nat, from: nat, to: nat)
    requires Shaped(s) && Shaped(s')
  {
    && OthersSame(s, s', p)
    && forall v: nat :: v < USER_PAGES ==>
         Image(s', p, v) == if from <= v < to then Zeros() else if to <= v < from then [] else Image(s, p, v)
  }

  /** The child sees what the parent saw, and nobody else sees a difference. */
  ghost predicate Forked(s: State, s': State, p: nat, child: nat)
    requires Shaped(s) && Shaped(s')
  {
    && OthersSame(s, s', child)
    && forall v: nat :: v < USER_PAGES ==> Image(s', child, v) == Image(s, p, v)
  }

  /** The pages below `upto` have been copied from the parent; the rest of the child is as in `s1`. */
  ghost predicate CopiedTo(s1: State, s': State, p: nat, child: nat, upto: nat)
    requires Shaped(s1) && Shaped(s')
  {
    && s'.dirs == s1.dirs && s'.brk == s1.brk && OthersSame(s1, s', child)
    && forall v: nat :: v < USER_PAGES ==>
        Image(s', child, v) == if TEXT <= v < upto then Image(s1, p, v) else Image(s1, child, v)
  }

  lemma CopiedMore(s1: State, s2: State, s3: State, p: nat, child: nat, i: nat)
    requires Shaped(s1) && Shaped(s2) && Shaped(s3) && p != child && TEXT <= i < USER_PAGES
    requires CopiedTo(s1, s2, p, child, i) && Paints(s2, s3, child, i, Image(s2, p, i))
    ensures CopiedTo(s1, s3, p, child, i + 1)
  {
    hide Image, Shaped;
  }

  /** An image page by page, the stack left out. */
  function TextAt(text: seq<Frame>, v: nat): Frame { if TEXT <= v < TEXT + |text| then text[v - TEXT] else [] }

  ghost predicate LoadedTo(s1: State, s': State, p: nat, text: seq<Frame>, upto: nat)
    requires Shaped(s1) && Shaped(s')
  {
    && s'.dirs == s1.dirs && s'.brk == s1.brk && OthersSame(s1, s', p)
    && forall v: nat :: v < USER_PAGES ==>
        Image(s', p, v) == if TEXT <= v < upto then TextAt(text, v) else Image(s1, p, v)
  }

  /** Filling the pages of a program with anything leaves every layout. */
  lemma LoadedLayout(s: State, s': State, p: nat, text: seq<Frame>)
    requires Shaped(s) && Shaped(s') && (forall q :: q in s.dirs ==> Layout(s, q)) && p in s.dirs && p in s.brk
    requires LoadedTo(s, s', p, text, TEXT + |text|) && s.brk[p] == TEXT + |text|
    requires forall i :: 0 <= i < |text| ==> |text[i]| == PAGE_WORDS
    ensures forall q :: q in s'.dirs ==> Layout(s', q)
  {
    hide Image, Shaped;
    forall q | q in s'.dirs
      ensures Layout(s', q)
    {
      assert Layout(s, q);
      assert q in s'.brk && TEXT <= s'.brk[q] <= USER_PAGES;
      forall v: nat | v < USER_PAGES
        ensures Image(s', q, v) == [] <==> Image(s, q, v) == []
      {
        if q == p && TEXT <= v < s.brk[p] { assert Image(s', p, v) == text[v - TEXT] != []; }
      }
    }
  }

  lemma LoadedMore(s1: State, s2: State, s3: State, p: nat, text: seq<Frame>, i: nat)
    requires Shaped(s1) && Shaped(s2) && Shaped(s3) && TEXT <= i < USER_PAGES
    requires LoadedTo(s1, s2, p, text, i) && Paints(s2, s3, p, i, TextAt(text, i))
    ensures LoadedTo(s1, s3, p, text, i + 1)
  {
    hide Image, Shaped, TextAt;
  }

  lemma LoadedNothing(s: State, p: nat, text: seq<Frame>)
    requires Shaped(s)
    ensures LoadedTo(s, s, p, text, TEXT)
  {
    hide Image;
  }

  lemma LoadedRest(s1: State, s': State, p: nat, text: seq<Frame>, i: nat)
    requires Shaped(s1) && Shaped(s') && TEXT <= i < USER_PAGES && LoadedTo(s1, s', p, text, i)
    ensures Image(s', p, i) == Image(s1, p, i) && s'.dirs == s1.dirs && s'.brk == s1.brk
  {
    hide Image, Shaped, TextAt;
  }

  lemma UntouchedTwice(s1: State, s2: State, s3: State, lost: set<nat>)
    requires Untouched(s1, s2, lost) && Untouched(s2, s3, lost)
    ensures Untouched(s1, s3, lost)
  {
  }

  lemma StaysAt(s: State, s': State, p: nat, lo: nat, hi: nat, v: nat)
    requires Shaped(s) && Shaped(s') && Stays(s, s', p, lo, hi) && v < USER_PAGES && !(lo <= v < hi)
    ensures Extract(s', p, v) == Extract(s, p, v)
  {
    hide Extract, Shaped;
  }

  lemma Holds(s: State, p: nat, v: nat)
    requires Shaped(s) && Layout(s, p) && v < USER_PAGES
    ensures p in s.dirs && p in s.brk && TEXT <= s.brk[p] <= USER_PAGES
    ensures TEXT <= v < s.brk[p] ==> Image(s, p, v) != []
    ensures Image(s, p, v) != [] ==> TEXT <= v < s.brk[p] || v == USTACK
  {
    hide Image, Shaped;
  }

  /** After `exec` the process sees the new program and the new stack, and no one else a difference. */
  ghost predicate Execed(s: State, s': State, p: nat, text: seq<Frame>, stack: Frame)
    requires Shaped(s) && Shaped(s')
  {
    && OthersSame(s, s', p)
    && forall v: nat :: v < USER_PAGES ==> Image(s', p, v) == if v == USTACK then stack else TextAt(text, v)
  }

  /** Pages the loop that takes the old stack down goes through: from the top while pages are mapped. */
  function StackWalk(s: State, p: nat, vp: nat): nat
    requires Shaped(s) && vp < USER_PAGES
  {
    if Image(s, p, vp) == [] then 0 else if vp == 0 then 1 else 1 + StackWalk(s, p, vp - 1)
  }

  /** That loop takes the stack alone down exactly when the break leaves a gap below it. */
  lemma StackWalkExact(s: State, p: nat)
    requires Shaped(s) && Layout(s, p) && Image(s, p, USTACK) != []
    ensures StackWalk(s, p, USTACK) == 1 <==> s.brk[p] < USTACK
  {
    Holds(s, p, USTACK - 1);
  }

  /** In any state kept by the operations two mapped pages are never the same physical page, none is a
      table or directory of any process, and all are marked allocated. */
  lemma Isolation(s: State, lost: set<nat>, p: nat, v: nat, q: nat, w: nat)
    requires Inv(s, lost) && v < USER_PAGES && w < USER_PAGES && Image(s, p, v) != [] && Image(s, q, w) != []
    ensures Extract(s, p, v) == Extract(s, q, w) <==> p == q && v == w
    ensures Extract(s, p, v) in s.taken && NoTable(s, Extract(s, p, v))
  {
    Mapped(s, lost, p, v);
    Mapped(s, lost, q, w);
    UserNoTable(s, lost, p, v);
    assert PageAt(s, User(p, v)) == Extract(s, p, v);
  }

  // ------------------------------------------------------------------ the break and the stack

  const PAGE_SIZE := 4096

  /** Addresses above this wrap to 0 when they are rounded up to a page. */
  const LAST_ROUNDED := 0xFFFF_F000

  /** The break `proc_break` sets, in pages; an address of 0 only asks. */
  function BreakPage(brk: nat, addr: nat): nat {
    if addr == 0 then brk else if addr < TEXT * PAGE_SIZE then TEXT else (addr + PAGE_SIZE - 1) / PAGE_SIZE
  }

  /** The stack page, when growth from `from` to `to` writes over its entry. */
  function Displaced(s: State, p: nat, from: nat, to: nat): set<nat>
    requires Shaped(s)
  {
    if from <= USTACK < to && Extract(s, p, USTACK) != 0 then {Extract(s, p, USTACK)} else {}
  }

  /** What a break does that finds memory enough. */
  ghost predicate Broke(s: State, lost: set<nat>, s': State, lost': set<nat>, p: nat, addr: nat)
    requires Shaped(s)
  {
    && Shaped(s') && s'.dirs == s.dirs && p in s.brk && s'.brk == s.brk[p := BreakPage(s.brk[p], addr)]
    && Resized(s, s', p, s.brk[p], s'.brk[p])
    && lost' == lost + Displaced(s, p, s.brk[p], s'.brk[p])
  }

  /** With its break at or below the stack, a process keeps its stack, and no page is lost, exactly when the
      new break is at or below the stack too; otherwise the stack reads as zeros and its page has no owner.
      With its break above the stack already, no page is lost, and what is there stays unless the break comes
      down again. */
  lemma BreakKeepsStackExactly(s: State, lost: set<nat>, s': State, lost': set<nat>, p: nat, addr: nat)
    requires Accounted(s, lost) && Layout(s, p) && Image(s, p, USTACK) != []
    requires addr <= LAST_ROUNDED && Broke(s, lost, s', lost', p, addr)
    ensures s.brk[p] <= USTACK ==>
      (lost' == lost && Image(s', p, USTACK) == Image(s, p, USTACK) <==> addr <= USTACK * PAGE_SIZE)
    ensures s.brk[p] <= USTACK && addr > USTACK * PAGE_SIZE ==>
      && Image(s', p, USTACK) == Zeros() && Extract(s, p, USTACK) !in lost
      && lost' == lost + {Extract(s, p, USTACK)}
    ensures s.brk[p] > USTACK ==>
      && lost' == lost
      && Image(s', p, USTACK) == if addr == 0 || addr > USTACK * PAGE_SIZE then Image(s, p, USTACK) else []
  {
    Mapped(s, lost, p, USTACK);
    assert PageAt(s, User(p, USTACK)) == Extract(s, p, USTACK);
    assert addr != 0 ==> (addr <= USTACK * PAGE_SIZE <==> BreakPage(s.brk[p], addr) <= USTACK);
  }

  /** A break at two megabytes, the end of the stack page: any such process that asks for it loses its stack. */
  lemma BreakAtTwoMegabytes(s: State, lost: set<nat>, s': State, lost': set<nat>, p: nat)
    requires Accounted(s, lost) && Layout(s, p) && s.brk[p] <= USTACK && Image(s, p, USTACK) != []
    requires Broke(s, lost, s', lost', p, 0x20_0000)
    ensures s'.brk[p] == USTACK + 1 && Image(s', p, USTACK) == Zeros() && lost' != lost
  {
    BreakKeepsStackExactly(s, lost, s', lost', p, 0x20_0000);
  }

  // ------------------------------------------------------------------ memory bounds every break

  /** The physical pages of a stretch of a process's address space. */
  function PagesOf(s: State, p: nat, lo: nat, hi: nat): set<nat>
    requires Shaped(s) && hi <= USER_PAGES
  {
    set v: nat | lo <= v < hi :: Extract(s, p, v)
  }

  function UpTo(n: nat): (u: set<nat>)
    ensures |u| == n && forall x: nat :: x in u <==> x < n
  {
    if n == 0 then {} else UpTo(n - 1) + {n - 1}
  }

  lemma {:induction false} SubsetSize(a: set<nat>, b: set<nat>)
    requires a <= b
    ensures |a| <= |b|
    decreases a
  {
    if x :| x in a {
      SubsetSize(a - {x}, b - {x});
    }
  }

  lemma NextPage(s: State, lost: set<nat>, p: nat, lo: nat, v: nat)
    requires Accounted(s, lost) && lo <= v < USER_PAGES && Extract(s, p, v) != 0
    ensures PagesOf(s, p, lo, v + 1) == PagesOf(s, p, lo, v) + {Extract(s, p, v)}
        && Extract(s, p, v) !in PagesOf(s, p, lo, v)
  {
    UserNoTable(s, lost, p, v);
    hide Accounted, Extract;
  }

  lemma PagesThere(s: State, lost: set<nat>, p: nat, lo: nat, hi: nat)
    requires Accounted(s, lost) && lo <= hi <= USER_PAGES && forall v: nat :: lo <= v < hi ==> Extract(s, p, v) != 0
    ensures PagesOf(s, p, lo, hi) <= UpTo(|s.mem|)
  {
    forall v: nat | lo <= v < hi
      ensures Extract(s, p, v) < |s.mem|
    {
      UserNoTable(s, lost, p, v);
    }
    hide Accounted, Extract;
  }

  lemma NoPages(s: State, p: nat, lo: nat)
    requires Shaped(s) && lo <= USER_PAGES
    ensures PagesOf(s, p, lo, lo) == {}
  {
  }

  /** As many pages as there are mapped places. */
  lemma {:induction false} PagesSize(s: State, lost: set<nat>, p: nat, lo: nat, hi: nat)
    requires Accounted(s, lost) && lo <= hi <= USER_PAGES && forall v: nat :: lo <= v < hi ==> Extract(s, p, v) != 0
    ensures |PagesOf(s, p, lo, hi)| == hi - lo
    decreases hi - lo
  {
    assert Shaped(s);
    hide Accounted, Shaped, Extract, PagesOf;
    if lo == hi {
      NoPages(s, p, lo);
    } else {
      PagesSize(s, lost, p, lo, hi - 1);
      NextPage(s, lost, p, lo, hi - 1);
    }
  }

  /** No process has more pages than there are: memory runs out long before its space reaches the kernel's. */
  lemma SpaceBounded(s: State, lost: set<nat>, p: nat, hi: nat)
    requires Accounted(s, lost) && TEXT <= hi <= USER_PAGES && forall v: nat :: TEXT <= v < hi ==> Image(s, p, v) != []
    ensures hi <= TEXT + MAX_PAGES < USER_PAGES
  {
    forall v: nat | TEXT <= v < hi
      ensures Extract(s, p, v) != 0
    {
      assert Image(s, p, v) != [];
      Mapped(s, lost, p, v);
    }
    assert |s.mem| <= MAX_PAGES;
    hide Accounted, Extract, Image, Shaped;
    PagesSize(s, lost, p, TEXT, hi);
    PagesThere(s, lost, p, TEXT, hi);
    SubsetSize(PagesOf(s, p, TEXT, hi), UpTo(|s.mem|));
  }
}

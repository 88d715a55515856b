/** What fork, exec and exit do to address spaces. */
module VmProc {
  import opened VmSpec
  import opened VmImage
  import V = Vm
  import R = VmRun
  import Numbers
  import FsSpec

  /** What `copy_page` copies: the page of the parent, or page 0 of memory where the parent has none. */
  function Source(s: State, p: nat, vp: nat): Frame
    requires Shaped(s) && vp < USER_PAGES
  {
    if Image(s, p, vp) != [] || |s.mem| == 0 then Image(s, p, vp) else s.mem[0]
  }

  /** `copy_page`: page `vp` of the parent onto the same page of the child. */
  method CopyPage(vm: V.Vm, p: nat, child: nat, vp: nat)
    requires vm.Valid() && vp < USER_PAGES && Image(vm.Now(), child, vp) != []
    modifies vm
    ensures vm.Valid() && vm.lost == old(vm.lost)
        && Paints(old(vm.Now()), vm.Now(), child, vp, Source(old(vm.Now()), p, vp))
  {
    hide V.Vm.Full, R.Leads;
    Mapped(vm.Now(), vm.lost, p, vp);
    Mapped(vm.Now(), vm.lost, child, vp);
    var src := Extract(vm.Now(), p, vp);
    hide Accounted;
    vm.WriteUser(child, vp, vm.mem[src]);
  }

  /** A directory and a stack for the child, the stack a copy of the parent's. */
  method ForkStack(vm: V.Vm, p: nat, child: nat) returns (ok: bool)
    requires vm.Valid() && Inv(vm.Now(), vm.lost) && p in vm.dirs && child !in vm.dirs
    modifies vm
    ensures ok ==> vm.Valid() && Inv(vm.Now(), vm.lost) && vm.lost == old(vm.lost)
    ensures ok ==> vm.dirs.Keys == old(vm.dirs).Keys + {child} && vm.brk == old(vm.brk)[child := TEXT]
    ensures ok ==> OthersSame(old(vm.Now()), vm.Now(), child)
    ensures ok ==> exists fr: Frame :: StackOnly(vm.Now(), child, fr) && fr != [] &&
                                       (Image(old(vm.Now()), p, USTACK) != [] ==> fr == Image(old(vm.Now()), p, USTACK))
    ensures !ok ==> vm.Full()
  {
    hide V.Vm.Full, R.Leads;
    ghost var s := vm.Now();
    V.IsShaped(s, vm.lost);
    hide Accounted, Image, Layout, Source;
    ok := ChildSpace(vm, child);
    if !ok {
      return;
    }
    ghost var s3 := vm.Now();
    CopyPage(vm, p, child, USTACK);
    ghost var fr := Source(s3, p, USTACK);
    SourceThere(s3, p, child);
    StackCopied(s, s3, vm.Now(), vm.lost, p, child, Image(s3, child, USTACK), fr);
    assert Image(s, p, USTACK) != [] ==> fr == Image(s, p, USTACK) by { SourceIs(s, s3, p, child); }
  }

  lemma SourceThere(s: State, p: nat, child: nat)
    requires Shaped(s) && Image(s, child, USTACK) != []
    ensures Source(s, p, USTACK) != []
  {
  }

  lemma SourceIs(s: State, s3: State, p: nat, child: nat)
    requires Shaped(s) && Shaped(s3) && p != child && OthersSame(s, s3, child)
    ensures Image(s, p, USTACK) != [] ==> Source(s3, p, USTACK) == Image(s, p, USTACK)
  {
    hide Image;
  }

  /** A directory and a stack page with whatever was in it. */
  method ChildSpace(vm: V.Vm, child: nat) returns (ok: bool)
    requires vm.Valid() && child !in vm.dirs
    modifies vm
    ensures ok ==> vm.Valid() && vm.lost == old(vm.lost)
    ensures ok ==> vm.dirs.Keys == old(vm.dirs).Keys + {child} && vm.brk == old(vm.brk)[child := TEXT]
    ensures ok ==> OthersSame(old(vm.Now()), vm.Now(), child)
    ensures ok ==> Image(vm.Now(), child, USTACK) != [] && StackOnly(vm.Now(), child, Image(vm.Now(), child, USTACK))
    ensures !ok ==> vm.Full()
  {
    hide V.Vm.Full, R.Leads;
    ghost var s := vm.Now();
    ok := vm.PmapCreate(child);
    if !ok {
      return;
    }
    ghost var s1 := vm.Now();
    var x := vm.AllocPage();
    if x == 0 {
      return false;
    }
    V.NewNotLost(s1, old(vm.lost), x);
    Mapped(vm.Now(), vm.lost, child, USTACK);
    assert Shaped(s) && Shaped(s1) && vm.mem[x] != [];
    hide Accounted, Image;
    ghost var s2 := vm.Now();
    ok := vm.PmapEnter(child, USTACK, x);
    if !ok {
      return;
    }
    StackEntered(s, s1, s2, vm.Now(), child, s2.mem[x]);
  }

  /** The image of a process that has a stack and nothing else. */
  ghost predicate StackOnly(s: State, p: nat, stack: Frame)
    requires Shaped(s)
  {
    forall v: nat :: v < USER_PAGES ==> Image(s, p, v) == if v == USTACK then stack else []
  }

  lemma StackEntered(s: State, s1: State, s2: State, s3: State, child: nat, junk: Frame)
    requires Shaped(s) && Shaped(s1) && Shaped(s2) && Shaped(s3)
    requires SameImages(s, s1) && SameImages(s1, s2) && Paints(s2, s3, child, USTACK, junk) && junk != []
    requires forall v: nat :: v < USER_PAGES ==> Image(s1, child, v) == []
    ensures OthersSame(s, s3, child) && Image(s3, child, USTACK) == junk && StackOnly(s3, child, junk)
  {
    hide Image, Shaped;
  }

  lemma StackCopied(s: State, s3: State, s4: State, lost: set<nat>, p: nat, child: nat, junk: Frame, fr: Frame)
    requires Inv(s, lost) && Shaped(s3) && Accounted(s4, lost) && fr != []
    requires OthersSame(s, s3, child) && StackOnly(s3, child, junk) && Paints(s3, s4, child, USTACK, fr)
    requires s4.dirs.Keys == s.dirs.Keys + {child} && s4.brk == s.brk[child := TEXT]
    ensures Inv(s4, lost) && OthersSame(s, s4, child) && StackOnly(s4, child, fr)
  {
    assert Shaped(s) && Shaped(s4);
    hide Image, Accounted;
    forall q | q in s4.dirs
      ensures Layout(s4, q)
    {
      if q != child { assert Layout(s, q); }
    }
  }

  /** The page-copying loop of `fork`. */
  method CopyText(vm: V.Vm, p: nat, child: nat)
    requires vm.Valid() && Layout(vm.Now(), p) && Layout(vm.Now(), child) && vm.brk[p] == vm.brk[child] && p != child
    modifies vm
    ensures vm.Valid() && vm.lost == old(vm.lost) && CopiedTo(old(vm.Now()), vm.Now(), p, child, old(vm.brk)[p])
    ensures vm.dirs == old(vm.dirs) && vm.brk == old(vm.brk)
  {
    hide V.Vm.Full, R.Leads;
    ghost var s := vm.Now();
    hide Accounted, Image, Shaped, Source;
    var v := TEXT;
    while v < vm.brk[child]
      invariant vm.brk == s.brk && TEXT <= v <= s.brk[child] && vm.Valid() && vm.lost == old(vm.lost)
          && CopiedTo(s, vm.Now(), p, child, v)
    {
      ghost var s1 := vm.Now();
      assert Image(s, p, v) != [] && Image(s, child, v) != [];
      CopyPage(vm, p, child, v);
      assert Source(s1, p, v) == Image(s1, p, v) by { SourceMapped(s1, p, v); }
      CopiedMore(s, s1, vm.Now(), p, child, v);
      v := v + 1;
    }
  }

  lemma SourceMapped(s: State, p: nat, v: nat)
    requires Shaped(s) && v < USER_PAGES && Image(s, p, v) != []
    ensures Source(s, p, v) == Image(s, p, v)
  {
  }

  /** The break of a parent, set in a child that has a stack and nothing else. */
  method ForkBreak(vm: V.Vm, child: nat, page: nat) returns (ok: bool)
    requires vm.Valid() && Inv(vm.Now(), vm.lost) && child in vm.dirs && child in vm.brk
        && vm.brk[child] == TEXT <= page <= USER_PAGES
    modifies vm
    ensures ok ==> vm.Valid() && Inv(vm.Now(), vm.lost) && vm.dirs == old(vm.dirs)
    ensures ok ==> vm.brk == old(vm.brk)[child := page]
    ensures ok ==> Resized(old(vm.Now()), vm.Now(), child, TEXT, page)
    ensures ok ==> vm.lost == old(vm.lost) + Displaced(old(vm.Now()), child, TEXT, page)
    ensures !ok ==> vm.Full()
  {
    hide V.Vm.Full, R.Leads, Resized, Displaced, Inv, Untouched, Extract;
    V.BreakAt(TEXT, page);
    hide BreakPage;
    var r := vm.ProcBreak(child, page * PAGE_SIZE);
    ok := r.Moved?;
  }

  /** `fork`: a child whose image equals the parent's, if the parent has its stack; no other process sees a
      difference.  No page is lost unless the break is above the stack, and then one, the child's first stack. */
  method Fork(vm: V.Vm, p: nat, child: nat) returns (ok: bool)
    requires vm.Valid() && Inv(vm.Now(), vm.lost) && p in vm.dirs && child !in vm.dirs
    modifies vm
    ensures ok ==> vm.Valid() && Inv(vm.Now(), vm.lost)
    ensures ok ==> vm.dirs.Keys == old(vm.dirs).Keys + {child} && p in old(vm.brk)
    ensures ok ==> vm.brk == old(vm.brk)[child := old(vm.brk)[p]]
    ensures ok ==> OthersSame(old(vm.Now()), vm.Now(), child)
    ensures ok && Image(old(vm.Now()), p, USTACK) != [] ==> Forked(old(vm.Now()), vm.Now(), p, child)
    ensures ok ==> OneLost(old(vm.lost), vm.lost, p in old(vm.brk) && old(vm.brk)[p] > USTACK)
    ensures !ok ==> vm.Full()
  {
    hide V.Vm.Full, R.Leads, Forked, Resized, CopiedTo, OthersSame, Displaced;
    ghost var s := vm.Now();
    assert Layout(s, p) && Shaped(s);
    Holds(s, p, USTACK);
    hide Accounted, Image, Layout, OneLost;
    ok := ForkStack(vm, p, child);
    if !ok {
      return;
    }
    ghost var s1, lost1 := vm.Now(), vm.lost;
    V.IsShaped(s1, vm.lost);
    ghost var fr :| StackOnly(s1, child, fr) && fr != [] && (Image(s, p, USTACK) != [] ==> fr == Image(s, p, USTACK));
    hide StackOnly;
    ok := ForkBreak(vm, child, vm.brk[p]);
    if !ok {
      return;
    }
    ghost var s2 := vm.Now();
    DisplacedOne(s1, lost1, child, vm.brk[p], fr);
    assert Layout(s2, p) && Layout(s2, child);
    CopyText(vm, p, child);
    ForkDone(s, lost1, s1, s2, vm.Now(), vm.lost, p, child, fr);
  }

  /** One page more that nobody will free, or none. */
  ghost predicate OneLost(lost: set<nat>, lost': set<nat>, one: bool) {
    if one then exists x: nat :: x !in lost && lost' == lost + {x} else lost' == lost
  }

  lemma DisplacedOne(s: State, lost: set<nat>, p: nat, page: nat, fr: Frame)
    requires Accounted(s, lost) && StackOnly(s, p, fr) && fr != [] && TEXT <= page
    ensures OneLost(lost, lost + Displaced(s, p, TEXT, page), page > USTACK)
  {
    assert Image(s, p, USTACK) == fr;
    Mapped(s, lost, p, USTACK);
    V.OwnedNotLost(s, lost, p, USTACK);
    hide Accounted, Image, StackOnly;
    if page > USTACK { assert Extract(s, p, USTACK) !in lost; }
  }

  lemma ForkDone(s: State, lost0: set<nat>, s1: State, s2: State, s3: State, lost: set<nat>, p: nat,
      child: nat, fr: Frame)
    requires Inv(s, lost0) && Shaped(s1) && Inv(s2, lost) && Accounted(s3, lost) && p in s.dirs
        && p != child && p in s.brk
    requires OthersSame(s, s1, child) && StackOnly(s1, child, fr) && fr != [] && Resized(s1, s2, child, TEXT, s.brk[p])
    requires Image(s, p, USTACK) != [] ==> fr == Image(s, p, USTACK)
    requires CopiedTo(s2, s3, p, child, s.brk[p]) && child in s2.dirs
    ensures Inv(s3, lost) && OthersSame(s, s3, child)
    ensures Image(s, p, USTACK) != [] ==> Forked(s, s3, p, child)
  {
    assert Layout(s, p) && Layout(s2, child) && Shaped(s) && Shaped(s2) && Shaped(s3);
    hide Accounted, Shaped, Image;
    forall q: nat, v: nat | v < USER_PAGES && q != child
      ensures Image(s3, q, v) == Image(s2, q, v) == Image(s1, q, v) == Image(s, q, v)
    {
    }
    forall v: nat | v < USER_PAGES
      ensures Image(s3, child, v) == if TEXT <= v < s.brk[p] then Image(s, p, v) else if v == USTACK then fr else []
    {
    }
    if Image(s, p, USTACK) != [] {
      forall v: nat | v < USER_PAGES
        ensures Image(s3, child, v) == Image(s, p, v)
      {
      }
    }
    hide OthersSame, CopiedTo, Resized, StackOnly, Forked;
    forall q | q in s3.dirs
      ensures Layout(s3, q)
    {
      assert Layout(s2, q);
    }
  }

  // ------------------------------------------------------------------ the stack that is let go

  /** The page of the stack, if there is one. */
  function StackOf(s: State, p: nat): set<nat>
    requires Shaped(s)
  {
    if Extract(s, p, USTACK) != 0 then {Extract(s, p, USTACK)} else {}
  }

  /** The loop of exit and exec that takes the stack down: unmapped, and not freed. */
  method TakeStackDown(vm: V.Vm, p: nat)
    requires vm.Valid() && Layout(vm.Now(), p) && vm.brk[p] < USTACK
    modifies vm
    ensures vm.Valid() && Paints(old(vm.Now()), vm.Now(), p, USTACK, [])
        && Untouched(old(vm.Now()), vm.Now(), old(vm.lost))
    ensures vm.lost == old(vm.lost) + StackOf(old(vm.Now()), p)
    ensures Extract(vm.Now(), p, USTACK) == 0
  {
    hide V.Vm.Full, R.Leads;
    ghost var s := vm.Now();
    Mapped(s, vm.lost, p, USTACK);
    Mapped(s, vm.lost, p, USTACK - 1);
    Holds(s, p, USTACK - 1);
    assert Image(s, p, USTACK) == [] ==> Paints(s, s, p, USTACK, []);
    hide Accounted, Image, Shaped, Layout;
    var vp := USTACK;
    var x := Extract(vm.Now(), p, vp);
    while x != 0
      invariant vm.Valid() && (vp == USTACK || (vp == USTACK - 1 && x == 0))
      invariant vp == USTACK ==> vm.Now() == s && vm.lost == old(vm.lost) && x == Extract(s, p, USTACK)
      invariant vp != USTACK ==> Paints(s, vm.Now(), p, USTACK, []) && vm.lost == old(vm.lost) + StackOf(s, p)
      invariant Untouched(s, vm.Now(), old(vm.lost))
      decreases vp
    {
      vm.PmapRemove(p, vp);
      vp := vp - 1;
      Mapped(vm.Now(), vm.lost, p, vp);
      x := Extract(vm.Now(), p, vp);
    }
    Mapped(vm.Now(), vm.lost, p, USTACK);
  }

  /** The stack page that is let go: what is below the break is freed. */
  function StackLeft(s: State, p: nat): set<nat>
    requires Shaped(s)
  {
    if p in s.brk && s.brk[p] > USTACK then {} else StackOf(s, p)
  }

  // ------------------------------------------------------------------ exit

  /** All pages below the break go. */
  method DropText(vm: V.Vm, p: nat)
    requires vm.Valid() && Inv(vm.Now(), vm.lost) && p in vm.dirs
    modifies vm
    ensures vm.Valid() && Inv(vm.Now(), vm.lost) && vm.lost == old(vm.lost) && vm.dirs == old(vm.dirs)
    ensures p in old(vm.brk) && vm.brk == old(vm.brk)[p := TEXT]
        && Resized(old(vm.Now()), vm.Now(), p, old(vm.brk)[p], TEXT)
    ensures Untouched(old(vm.Now()), vm.Now(), vm.lost)
    ensures StackOf(vm.Now(), p) == StackLeft(old(vm.Now()), p)
  {
    hide V.Vm.Full, R.Leads;
    ghost var s := vm.Now();
    assert Layout(s, p) && Shaped(s);
    Holds(s, p, USTACK);
    hide Accounted, Image, Layout, Extract, Untouched, Resized;
    V.BreakAt(s.brk[p], TEXT);
    var r := vm.ProcBreak(p, TEXT * PAGE_SIZE);
    ghost var s1 := vm.Now();
    assert vm.lost == old(vm.lost);
    StackAfterDrop(s, s1, vm.lost, p);
  }

  lemma StackAfterDrop(s: State, s1: State, lost: set<nat>, p: nat)
    requires Shaped(s) && Accounted(s1, lost) && p in s.brk && TEXT <= s.brk[p] && Resized(s, s1, p, s.brk[p], TEXT)
    requires s.brk[p] <= USTACK ==> Extract(s1, p, USTACK) == Extract(s, p, USTACK)
    ensures StackOf(s1, p) == StackLeft(s, p)
  {
    Mapped(s1, lost, p, USTACK);
    assert s.brk[p] > USTACK ==> Image(s1, p, USTACK) == [];
  }

  /** `proc_exit`: the whole address space goes; nobody else sees a difference, and of all the pages the
      process had exactly one, its stack, stays allocated with nobody left to free it, and not even that one
      when the break was above it. */
  method Exit(vm: V.Vm, p: nat)
    requires vm.Valid() && Inv(vm.Now(), vm.lost) && p in vm.dirs
    modifies vm
    ensures vm.Valid() && Inv(vm.Now(), vm.lost) && vm.dirs == old(vm.dirs) - {p}
    ensures Gone(old(vm.Now()), vm.Now(), p)
    ensures vm.lost == old(vm.lost) + StackLeft(old(vm.Now()), p)
  {
    hide V.Vm.Full, R.Leads;
    ghost var s := vm.Now();
    V.IsShaped(s, vm.lost);
    hide Accounted, Image, Extract, StackOf, StackLeft;
    DropText(vm, p);
    ghost var s1 := vm.Now();
    assert Layout(s1, p);
    TakeStackDown(vm, p);
    ghost var s2 := vm.Now();
    NothingLeft(s, s1, s2, p);
    vm.PmapDestroy(p);
    ExitDone(s, s1, s2, vm.Now(), vm.lost, p);
  }

  ghost predicate Gone(s: State, s': State, p: nat)
    requires Shaped(s) && Shaped(s')
  {
    OthersSame(s, s', p) && forall v: nat :: v < USER_PAGES ==> Image(s', p, v) == []
  }

  lemma NothingLeft(s: State, s1: State, s2: State, p: nat)
    requires Shaped(s) && Shaped(s1) && Shaped(s2) && p in s.brk && Resized(s, s1, p, s.brk[p], TEXT) && Layout(s1, p)
        && s1.brk[p] == TEXT
    requires Paints(s1, s2, p, USTACK, [])
    ensures Gone(s, s2, p)
  {
    hide Image, Shaped;
    forall v: nat | v < USER_PAGES
      ensures Image(s2, p, v) == []
    {
      Holds(s1, p, v);
    }
  }

  lemma ExitDone(s: State, s1: State, s2: State, s3: State, lost: set<nat>, p: nat)
    requires Shaped(s) && Shaped(s1) && Shaped(s2) && Accounted(s3, lost)
        && (forall q :: q in s1.dirs ==> Layout(s1, q))
    requires Gone(s, s2, p) && Paints(s1, s2, p, USTACK, []) && SameImages(s2, s3) && s3.dirs == s1.dirs - {p}
        && s3.brk == s1.brk
    ensures Inv(s3, lost) && Gone(s, s3, p)
  {
    hide Image;
    forall q | q in s3.dirs
      ensures Layout(s3, q)
    {
      assert Layout(s1, q);
    }
  }

  // ------------------------------------------------------------------ exec

  /** The loop that reads the program file into the new pages. */
  method LoadText(vm: V.Vm, p: nat, text: seq<Frame>)
    requires vm.Valid() && Layout(vm.Now(), p) && vm.brk[p] == TEXT + |text|
        && forall i :: 0 <= i < |text| ==> |text[i]| == PAGE_WORDS
    modifies vm
    ensures vm.Valid() && vm.lost == old(vm.lost) && Untouched(old(vm.Now()), vm.Now(), vm.lost)
    ensures LoadedTo(old(vm.Now()), vm.Now(), p, text, TEXT + |text|)
        && Extract(vm.Now(), p, USTACK) == Extract(old(vm.Now()), p, USTACK)
  {
    hide V.Vm.Full, R.Leads;
    ghost var s := vm.Now();
    Holds(s, p, TEXT);
    LoadedNothing(s, p, text);
    hide Accounted, Image, Shaped, Layout, LoadedTo, Extract, Stays, Untouched, Paints;
    assert Untouched(s, s, vm.lost) by { SelfUntouched(s, vm.lost); }
    var i := 0;
    while i < |text|
      invariant i <= |text| && vm.Valid() && vm.lost == old(vm.lost) && Untouched(s, vm.Now(), vm.lost)
      invariant LoadedTo(s, vm.Now(), p, text, TEXT + i) && Extract(vm.Now(), p, USTACK) == Extract(s, p, USTACK)
    {
      LoadPage(vm, s, p, text, i);
      i := i + 1;
    }
  }

  lemma TextIs(text: seq<Frame>, i: nat)
    requires i < |text|
    ensures TextAt(text, TEXT + i) == text[i]
  {
  }

  method LoadPage(vm: V.Vm, ghost s: State, p: nat, text: seq<Frame>, i: nat)
    requires vm.Valid() && Shaped(s) && Layout(s, p) && s.brk[p] == TEXT + |text|
    requires i < |text| && |text[i]| == PAGE_WORDS
    requires Untouched(s, vm.Now(), vm.lost) && LoadedTo(s, vm.Now(), p, text, TEXT + i)
    modifies vm
    ensures vm.Valid() && vm.lost == old(vm.lost) && Untouched(s, vm.Now(), vm.lost)
    ensures LoadedTo(s, vm.Now(), p, text, TEXT + i + 1)
    ensures Extract(vm.Now(), p, USTACK) == Extract(old(vm.Now()), p, USTACK)
  {
    ghost var s1 := vm.Now();
    assert s.brk[p] <= USER_PAGES && Shaped(s1);
    hide V.Vm.Full, R.Leads, Accounted, Image, Shaped, Layout, LoadedTo, Extract, Stays, Untouched, Paints, TextAt;
    assert text[i] == TextAt(text, TEXT + i) by { TextIs(text, i); }
    Holds(s, p, TEXT + i);
    LoadedRest(s, s1, p, text, TEXT + i);
    vm.WriteUser(p, TEXT + i, text[i]);
    LoadedMore(s, s1, vm.Now(), p, text, TEXT + i);
    StaysAt(s1, vm.Now(), p, TEXT + i, TEXT + i, USTACK);
    UntouchedTwice(s, s1, vm.Now(), vm.lost);
  }

  lemma SelfUntouched(s: State, lost: set<nat>)
    ensures Untouched(s, s, lost)
  {
  }

  /** A page at hand with the new stack in it. */
  method NewStack(vm: V.Vm, stack: Frame) returns (x: nat)
    requires vm.Valid() && Inv(vm.Now(), vm.lost) && |stack| == PAGE_WORDS
    modifies vm
    ensures x != 0 ==> vm.Valid() && Inv(vm.Now(), vm.lost) && SameImages(old(vm.Now()), vm.Now())
    ensures x == 0 ==> vm.Full()
    ensures x != 0 ==> vm.dirs == old(vm.dirs) && vm.brk == old(vm.brk)
    ensures x != 0 ==> x !in old(vm.lost) + old(vm.taken) && vm.lost == old(vm.lost) + {x} && x < |vm.mem|
    ensures x != 0 ==> vm.mem[x] == stack
    ensures x != 0 ==> forall q: nat, v: nat :: v < USER_PAGES ==>
        Extract(vm.Now(), q, v) == Extract(old(vm.Now()), q, v)
  {
    hide V.Vm.Full, R.Leads;
    ghost var s, lost := vm.Now(), vm.lost;
    x := vm.AllocPage();
    if x == 0 {
      return;
    }
    V.NewNotLost(s, lost, x);
    vm.FillPage(x, stack);
    SameInv(s, vm.Now(), lost, vm.lost);
  }

  /** The longest file, in bytes, and the pages a program of `size` bytes takes. */
  const FILE_MAX := FsSpec.MAX_BLOCKS * Numbers.BLOCK_SIZE

  function PagesFor(size: nat): nat { (size + PAGE_SIZE - 1) / PAGE_SIZE }

  /** A program is a file, and the longest file ends well below the stack. */
  lemma ProgramFits(size: nat)
    requires size <= FILE_MAX
    ensures TEXT + PagesFor(size) <= 0x182 < USTACK
    ensures BreakPage(TEXT, TEXT * PAGE_SIZE + size) == TEXT + PagesFor(size)
  {
  }

  predicate Program(size: nat, text: seq<Frame>) {
    size <= FILE_MAX && |text| == PagesFor(size) && forall i :: 0 <= i < |text| ==> |text[i]| == PAGE_WORDS
  }

  /** `sys_exec` from the point where the program has been found good: the process sees the new program
      and the new stack and nothing of the old image; the old stack page is let go and not freed. */
  method Exec(vm: V.Vm, p: nat, size: nat, text: seq<Frame>, stack: Frame) returns (ok: bool)
    requires vm.Valid() && Inv(vm.Now(), vm.lost) && p in vm.dirs && Program(size, text) && |stack| == PAGE_WORDS
    modifies vm
    ensures ok ==> vm.Valid() && Inv(vm.Now(), vm.lost) && vm.dirs == old(vm.dirs)
    ensures ok ==> Execed(old(vm.Now()), vm.Now(), p, text, stack)
    ensures ok ==> vm.lost == old(vm.lost) + StackLeft(old(vm.Now()), p)
    ensures !ok ==> vm.Full()
  {
    hide V.Vm.Full, R.Leads;
    ghost var s, lost := vm.Now(), vm.lost;
    V.IsShaped(s, lost);
    hide Accounted, Image, Extract, Layout, StackOf, StackLeft;
    var ustack := NewStack(vm, stack);
    if ustack == 0 {
      return false;
    }
    ghost var s1 := vm.Now();
    SameStack(s, s1, p);
    ok := NewText(vm, p, size, text);
    if !ok {
      return;
    }
    ghost var s2 := vm.Now();
    assert Layout(s2, p);
    ProgramFits(size);
    TakeStackDown(vm, p);
    ghost var s3 := vm.Now();
    ok := vm.PmapEnter(p, USTACK, ustack);
    if ok {
      assert vm.lost == lost + StackLeft(s, p) by { LeftNotNew(s, lost, p, ustack); }
      ExecDone(s, s1, s2, s3, vm.Now(), vm.lost, p, text, stack);
    }
  }

  lemma SameStack(s: State, s1: State, p: nat)
    requires Shaped(s) && Shaped(s1) && s1.brk == s.brk
    requires forall q: nat, v: nat :: v < USER_PAGES ==> Extract(s1, q, v) == Extract(s, q, v)
    ensures StackLeft(s1, p) == StackLeft(s, p)
  {
    hide Extract;
  }

  /** The page of the new stack was free before. */
  lemma LeftNotNew(s: State, lost: set<nat>, p: nat, x: nat)
    requires Accounted(s, lost) && x !in s.taken
    ensures x !in lost + StackLeft(s, p)
    ensures LostBy(lost + {x} + StackLeft(s, p), 0, x) == lost + StackLeft(s, p)
  {
    if Extract(s, p, USTACK) != 0 { V.OwnedNotLost(s, lost, p, USTACK); }
  }

  /** The old program's pages go, and those of the new one come and are filled. */
  method NewText(vm: V.Vm, p: nat, size: nat, text: seq<Frame>) returns (ok: bool)
    requires vm.Valid() && Inv(vm.Now(), vm.lost) && p in vm.dirs && Program(size, text)
    modifies vm
    ensures ok ==> vm.Valid() && Inv(vm.Now(), vm.lost) && vm.lost == old(vm.lost) && vm.dirs == old(vm.dirs)
    ensures ok ==> Untouched(old(vm.Now()), vm.Now(), vm.lost) && p in vm.brk && vm.brk[p] == TEXT + |text|
    ensures ok ==> Retexted(old(vm.Now()), vm.Now(), p, text)
    ensures ok ==> StackOf(vm.Now(), p) == StackLeft(old(vm.Now()), p)
    ensures !ok ==> vm.Full()
  {
    hide V.Vm.Full, R.Leads;
    ghost var s := vm.Now();
    assert Layout(s, p) && Shaped(s);
    hide Accounted, Image, Extract, Layout, Resized, LoadedTo, Retexted, Untouched;
    DropText(vm, p);
    ghost var s1 := vm.Now();
    ok := GrowText(vm, p, size, text);
    if !ok {
      return;
    }
    ghost var s2 := vm.Now();
    assert Layout(s2, p);
    LoadText(vm, p, text);
    UntouchedTwice(s, s1, s2, vm.lost);
    UntouchedTwice(s, s2, vm.Now(), vm.lost);
    RetextedAll(s, s1, s2, vm.Now(), vm.lost, p, text);
  }

  /** Pages for the text of a program, below the stack. */
  method GrowText(vm: V.Vm, p: nat, size: nat, text: seq<Frame>) returns (ok: bool)
    requires vm.Valid() && Inv(vm.Now(), vm.lost) && p in vm.dirs && p in vm.brk && vm.brk[p] == TEXT
        && Program(size, text)
    modifies vm
    ensures ok ==> vm.Valid() && Inv(vm.Now(), vm.lost) && vm.lost == old(vm.lost) && vm.dirs == old(vm.dirs)
    ensures ok ==> vm.brk == old(vm.brk)[p := TEXT + |text|] && Resized(old(vm.Now()), vm.Now(), p, TEXT, TEXT + |text|)
    ensures ok ==> Untouched(old(vm.Now()), vm.Now(), vm.lost)
    ensures ok ==> Extract(vm.Now(), p, USTACK) == Extract(old(vm.Now()), p, USTACK)
    ensures !ok ==> vm.Full()
  {
    hide V.Vm.Full, R.Leads, Inv, Resized, Untouched, Extract;
    ProgramFits(size);
    hide BreakPage;
    var r := vm.ProcBreak(p, TEXT * PAGE_SIZE + size);
    ok := r.Moved?;
    assert ok ==> vm.lost == old(vm.lost);
  }

  /** The stack is as it was, unless the break was above it, and otherwise there is the new program alone. */
  ghost predicate Retexted(s: State, s': State, p: nat, text: seq<Frame>)
    requires Shaped(s) && Shaped(s')
  {
    && OthersSame(s, s', p)
    && forall v: nat :: v < USER_PAGES && v != USTACK ==> Image(s', p, v) == TextAt(text, v)
  }

  lemma SameInv(s: State, s1: State, lost: set<nat>, lost1: set<nat>)
    requires Inv(s, lost) && Accounted(s1, lost1) && SameImages(s, s1) && s1.dirs == s.dirs && s1.brk == s.brk
    ensures Inv(s1, lost1)
  {
    assert Shaped(s) && Shaped(s1);
    hide Image, Accounted;
    forall q | q in s1.dirs
      ensures Layout(s1, q)
    {
      assert Layout(s, q);
    }
  }

  lemma RetextedAll(s: State, s1: State, s2: State, s3: State, lost: set<nat>, p: nat, text: seq<Frame>)
    requires Shaped(s) && Layout(s, p) && Inv(s1, lost) && Inv(s2, lost) && Accounted(s3, lost) && p in s2.brk
        && p in s2.dirs
    requires Resized(s, s1, p, s.brk[p], TEXT) && Resized(s1, s2, p, TEXT, TEXT + |text|)
    requires s2.brk[p] == TEXT + |text| && LoadedTo(s2, s3, p, text, TEXT + |text|)
    requires forall i :: 0 <= i < |text| ==> |text[i]| == PAGE_WORDS
    ensures Inv(s3, lost) && Retexted(s, s3, p, text)
  {
    assert Layout(s2, p) && Shaped(s1) && Shaped(s2) && Shaped(s3);
    hide Accounted, Image;
    forall v: nat | v < USER_PAGES && v != USTACK
      ensures Image(s3, p, v) == TextAt(text, v)
    {
      Holds(s, p, v);
      Holds(s2, p, v);
    }
    LoadedLayout(s2, s3, p, text);
  }

  lemma ExecDone(s: State, s1: State, s2: State, s3: State, s4: State, lost: set<nat>, p: nat,
      text: seq<Frame>, stack: Frame)
    requires Shaped(s) && Shaped(s1) && Shaped(s2) && Shaped(s3) && Accounted(s4, lost) && SameImages(s, s1)
    requires Retexted(s1, s2, p, text) && Paints(s2, s3, p, USTACK, [])
        && Paints(s3, s4, p, USTACK, stack) && stack != []
    requires (forall q :: q in s2.dirs ==> Layout(s2, q)) && p in s2.dirs
    ensures Inv(s4, lost) && Execed(s, s4, p, text, stack)
  {
    assert Layout(s2, p);
    hide Image, Accounted;
    forall q | q in s4.dirs
      ensures Layout(s4, q)
    {
      assert Layout(s2, q);
    }
  }

  // ------------------------------------------------------------------ the first process

  /** The image half of `proc_create`: from nothing to an address space with the program and its stack. */
  method ProcCreate(vm: V.Vm, p: nat, size: nat, text: seq<Frame>, stack: Frame) returns (ok: bool)
    requires vm.Valid() && Inv(vm.Now(), vm.lost) && p !in vm.dirs && Program(size, text) && |stack| == PAGE_WORDS
    modifies vm
    ensures ok ==> vm.Valid() && Inv(vm.Now(), vm.lost) && vm.lost == old(vm.lost)
    ensures ok ==> vm.dirs.Keys == old(vm.dirs).Keys + {p}
    ensures ok ==> Execed(old(vm.Now()), vm.Now(), p, text, stack)
    ensures !ok ==> vm.Full()
  {
    hide V.Vm.Full, R.Leads;
    ghost var s := vm.Now();
    assert Shaped(s);
    hide Accounted, Image, Extract, Layout;
    ok := CreateStack(vm, p, stack);
    if !ok {
      return;
    }
    ghost var s1 := vm.Now();
    ok := GrowText(vm, p, size, text);
    if !ok {
      return;
    }
    ghost var s2 := vm.Now();
    assert Layout(s2, p);
    ProgramFits(size);
    LoadText(vm, p, text);
    CreateDone(s, s1, s2, vm.Now(), vm.lost, p, text, stack);
  }

  method CreateStack(vm: V.Vm, p: nat, stack: Frame) returns (ok: bool)
    requires vm.Valid() && Inv(vm.Now(), vm.lost) && p !in vm.dirs && |stack| == PAGE_WORDS
    modifies vm
    ensures ok ==> vm.Valid() && Inv(vm.Now(), vm.lost) && vm.lost == old(vm.lost)
    ensures ok ==> vm.dirs.Keys == old(vm.dirs).Keys + {p} && vm.brk == old(vm.brk)[p := TEXT]
    ensures ok ==> OthersSame(old(vm.Now()), vm.Now(), p) && StackOnly(vm.Now(), p, stack)
    ensures !ok ==> vm.Full()
  {
    hide V.Vm.Full, R.Leads, Layout, Inv;
    ghost var s := vm.Now();
    ok := vm.PmapCreate(p);
    if !ok {
      return;
    }
    ghost var s1 := vm.Now();
    var x := vm.AllocPage();
    if x == 0 {
      return false;
    }
    V.NewNotLost(s1, old(vm.lost), x);
    vm.FillPage(x, stack);
    Mapped(vm.Now(), vm.lost, p, USTACK);
    assert Shaped(s) && Shaped(s1);
    hide Accounted, Image;
    ghost var s2 := vm.Now();
    ok := vm.PmapEnter(p, USTACK, x);
    if !ok {
      return;
    }
    StackCreated(s, s1, s2, vm.Now(), old(vm.lost), vm.lost, p, stack);
  }

  lemma StackCreated(s: State, s1: State, s2: State, s3: State, lost: set<nat>, lost3: set<nat>, p: nat, stack: Frame)
    requires Inv(s, lost) && Shaped(s1) && Shaped(s2) && Accounted(s3, lost3) && stack != []
    requires SameImages(s, s1) && SameImages(s1, s2) && Paints(s2, s3, p, USTACK, stack)
    requires forall v: nat :: v < USER_PAGES ==> Image(s1, p, v) == []
    requires s3.dirs.Keys == s.dirs.Keys + {p} && s3.brk == s.brk[p := TEXT]
    ensures Inv(s3, lost3) && OthersSame(s, s3, p) && StackOnly(s3, p, stack)
  {
    assert Shaped(s) && Shaped(s3);
    hide Image, Accounted;
    forall q | q in s3.dirs
      ensures Layout(s3, q)
    {
      if q != p { assert Layout(s, q); }
    }
  }

  lemma CreateDone(s: State, s1: State, s2: State, s3: State, lost: set<nat>, p: nat, text: seq<Frame>, stack: Frame)
    requires Shaped(s) && Shaped(s1) && Inv(s2, lost) && Accounted(s3, lost) && p in s2.dirs && stack != []
    requires OthersSame(s, s1, p) && StackOnly(s1, p, stack) && Resized(s1, s2, p, TEXT, TEXT + |text|)
    requires LoadedTo(s2, s3, p, text, TEXT + |text|) && TEXT + |text| <= USTACK && p in s2.brk
        && s2.brk[p] == TEXT + |text|
    requires forall i :: 0 <= i < |text| ==> |text[i]| == PAGE_WORDS
    ensures Inv(s3, lost) && Execed(s, s3, p, text, stack)
  {
    assert Layout(s2, p) && Shaped(s2) && Shaped(s3);
    hide Accounted, Image, Layout;
    LoadedLayout(s2, s3, p, text);
  }

  // ------------------------------------------------------------------ whole runs

  datatype Call =
    | Create(p: nat, size: nat, text: seq<Frame>, stack: Frame)
    | ForkCall(p: nat, child: nat)
    | ExecCall(p: nat, size: nat, text: seq<Frame>, stack: Frame)
    | ExitCall(p: nat)
    | BreakCall(p: nat, addr: nat)
    | WriteCall(p: nat, vp: nat, fr: Frame)

  /** A process that exists makes the call, a new one gets a free place, and programs come from files. */
  predicate Proper(s: State, c: Call)
    requires Shaped(s)
  {
    match c
    case Create(p, size, text, stack) => p !in s.dirs && Program(size, text) && |stack| == PAGE_WORDS
    case ForkCall(p, child) => p in s.dirs && child !in s.dirs
    case ExecCall(p, size, text, stack) => p in s.dirs && Program(size, text) && |stack| == PAGE_WORDS
    case ExitCall(p) => p in s.dirs
    case BreakCall(p, addr) => p in s.dirs && addr < 0x1_0000_0000
    case WriteCall(p, vp, fr) => vp < USER_PAGES && Image(s, p, vp) != [] && |fr| == PAGE_WORDS
  }

  /** Two mapped pages are one physical page only if they are the same page of the same process; a mapped
      page is allocated and serves as no table. */
  ghost predicate Isolated(s: State)
    requires Shaped(s)
  {
    forall p: nat, v: nat, q: nat, w: nat ::
        v < USER_PAGES && w < USER_PAGES && Image(s, p, v) != [] && Image(s, q, w) != [] ==>
      && (Extract(s, p, v) == Extract(s, q, w) <==> p == q && v == w)
      && Extract(s, p, v) in s.taken && NoTable(s, Extract(s, p, v))
  }

  lemma InvIsolates(s: State, lost: set<nat>)
    requires Inv(s, lost)
    ensures Isolated(s)
  {
    forall p: nat, v: nat, q: nat, w: nat | v < USER_PAGES && w < USER_PAGES && Image(s, p, v) != []
        && Image(s, q, w) != []
      ensures Extract(s, p, v) == Extract(s, q, w) <==> p == q && v == w
      ensures Extract(s, p, v) in s.taken && NoTable(s, Extract(s, p, v))
    {
      hide Image, Extract, NoTable;
      Isolation(s, lost, p, v, q, w);
    }
  }

  /** A write keeps the layout of every process. */
  lemma PokeInv(s: State, s': State, lost: set<nat>, p: nat, vp: nat, fr: Frame)
    requires Inv(s, lost) && Accounted(s', lost) && vp < USER_PAGES && Image(s, p, vp) != [] && fr != []
        && Paints(s, s', p, vp, fr)
    ensures Inv(s', lost)
  {
    assert Shaped(s) && Shaped(s');
    hide Image, Accounted;
    forall q | q in s'.dirs
      ensures Layout(s', q)
    {
      assert Layout(s, q);
    }
  }

  /** What a proper call does to the images, and to the set of processes. */
  ghost predicate Effect(s: State, s': State, c: Call)
    requires Shaped(s) && Shaped(s')
  {
    match c
    case Create(p, _, text, stack) => Execed(s, s', p, text, stack) && s'.dirs.Keys == s.dirs.Keys + {p}
    case ForkCall(p, child) =>
      && OthersSame(s, s', child) && s'.dirs.Keys == s.dirs.Keys + {child}
      && (Image(s, p, USTACK) != [] ==> Forked(s, s', p, child))
    case ExecCall(p, _, text, stack) => Execed(s, s', p, text, stack) && s'.dirs == s.dirs
    case ExitCall(p) => Gone(s, s', p) && s'.dirs == s.dirs - {p}
    case BreakCall(p, addr) => p in s.brk && Resized(s, s', p, s.brk[p], BreakPage(s.brk[p], addr)) && s'.dirs == s.dirs
    case WriteCall(p, vp, fr) => Paints(s, s', p, vp, fr)
  }

  /** A break whose address wraps when it is rounded. */
  predicate Wraps(c: Call) { c.BreakCall? && c.addr > LAST_ROUNDED }

  /** One call, which is not made when it is not proper.  It panics exactly if it is a break that wraps, and
      fails otherwise only when there is no page left. */
  method Make(vm: V.Vm, c: Call) returns (r: V.BreakResult)
    requires vm.Valid() && Inv(vm.Now(), vm.lost)
    modifies vm
    ensures r.Moved? ==> vm.Valid() && Inv(vm.Now(), vm.lost)
    ensures r.Moved? ==> if Proper(old(vm.Now()), c) then Effect(old(vm.Now()), vm.Now(), c)
        else vm.Now() == old(vm.Now())
    ensures r.NoMemory? ==> vm.Full()
    ensures r.Panic? <==> Proper(old(vm.Now()), c) && Wraps(c)
  {
    hide V.Vm.Full, R.Leads, Layout, Image, Execed, Forked, Gone, Resized, Paints, OthersSame, OneLost, StackLeft;
    if !Proper(vm.Now(), c) {
      return V.Moved;
    }
    if c.BreakCall? {
      r := vm.ProcBreak(c.p, c.addr);
    } else {
      var ok := MakeOther(vm, c);
      r := if ok then V.Moved else V.NoMemory;
    }
  }

  method MakeOther(vm: V.Vm, c: Call) returns (ok: bool)
    requires vm.Valid() && Inv(vm.Now(), vm.lost) && Proper(vm.Now(), c) && !c.BreakCall?
    modifies vm
    ensures ok ==> vm.Valid() && Inv(vm.Now(), vm.lost) && Effect(old(vm.Now()), vm.Now(), c)
    ensures !ok ==> vm.Full()
  {
    hide V.Vm.Full, R.Leads, Layout, Image, Execed, Forked, Gone, Resized, Paints, OthersSame, OneLost, StackLeft;
    ok := true;
    match c
    case Create(p, size, text, stack) => ok := ProcCreate(vm, p, size, text, stack);
    case ForkCall(p, child) => ok := Fork(vm, p, child);
    case ExecCall(p, size, text, stack) => ok := Exec(vm, p, size, text, stack);
    case ExitCall(p) => Exit(vm, p);
    case WriteCall(p, vp, fr) =>
      ghost var s := vm.Now();
      vm.WriteUser(p, vp, fr);
      PokeInv(s, vm.Now(), vm.lost, p, vp, fr);
  }

  /** Any sequence of calls, from the empty machine or any state they lead to: as long as memory lasts and no
      break wraps, every page is accounted for, every process keeps its layout, and all are isolated. */
  method MakeAll(vm: V.Vm, calls: seq<Call>) returns (n: nat)
    requires vm.Valid() && Inv(vm.Now(), vm.lost)
    modifies vm
    ensures n <= |calls| && (n < |calls| ==> vm.Full() || Wraps(calls[n]))
    ensures n == |calls| ==> vm.Valid() && Inv(vm.Now(), vm.lost) && Isolated(vm.Now())
  {
    hide V.Vm.Full, R.Leads, Accounted, Layout, Isolated;
    n := 0;
    while n < |calls|
      invariant n <= |calls| && vm.Valid() && Inv(vm.Now(), vm.lost)
    {
      var r := Make(vm, calls[n]);
      if !r.Moved? {
        return;
      }
      n := n + 1;
    }
    InvIsolates(vm.Now(), vm.lost);
  }
}

/** Open files and the descriptors that name them, as a value: how each system call moves the counts. */
module FileSpec {
  import opened Numbers

  const NFILE := 32
  const NULL := -1

  /** What an open file stands for: an inode, or one end of a pipe.  `Gone` after the last close. */
  datatype Target = Gone | InodeOf(ino: nat) | PipeEnd(pipe: nat)

  datatype File = File(refs: int, target: Target)

  /** The word behind the descriptor table: the user and group of the process, or the address of a file
      once a call has stored one there. */
  datatype Past = Ids(word: nat) | FileAt(f: nat)

  /** A process with its descriptors; `live` is neither an empty slot nor a zombie. */
  datatype Proc = Proc(live: bool, ofile: seq<int>, past: Past)

  /** `sound` until a call takes user and group for the address of a file; after that memory is anything. */
  datatype State = State(files: seq<File>, procs: seq<Proc>, sound: bool)

  datatype Result = Fd(fd: nat) | Done | Ebadf | Emfile | Enomem | Astray

  /** What the kernel finds at a descriptor: nothing, a file, or a word that is no file's address. */
  datatype Entry = Null | Names(f: nat) | Wild

  // ------------------------------------------------------------------ the calls

  /** `file_alloc`: the first file nothing refers to. */
  function FreeFile(files: seq<File>, from: nat): (f: nat)
    requires from <= |files|
    ensures from <= f <= |files| && (f < |files| ==> files[f].refs == 0)
    ensures forall k :: from <= k < f ==> files[k].refs != 0
    decreases |files| - from
  {
    if from == |files| || files[from].refs == 0 then from else FreeFile(files, from + 1)
  }

  /** `file_fd_alloc`: the lowest free descriptor. */
  function FreeFd(ofile: seq<int>, from: nat): (d: nat)
    requires from <= |ofile|
    ensures from <= d <= |ofile| && (d < |ofile| ==> ofile[d] == NULL)
    ensures forall k :: from <= k < d ==> ofile[k] != NULL
    decreases |ofile| - from
  {
    if from == |ofile| || ofile[from] == NULL then from else FreeFd(ofile, from + 1)
  }

  predicate Shaped(s: State) {
    && |s.files| == NFILE && |s.procs| == NPROC
    && (forall p :: 0 <= p < NPROC ==> |s.procs[p].ofile| == NFILE)
    && (forall p, d :: 0 <= p < NPROC && 0 <= d < NFILE ==>
        s.procs[p].ofile[d] == NULL || 0 <= s.procs[p].ofile[d] < NFILE)
    && (forall p :: 0 <= p < NPROC && s.procs[p].past.FileAt? ==> s.procs[p].past.f < NFILE)
  }

  /** `file_close`, `pipe_close`: one reference less, and the last one lets the inode or the pipe end go. */
  function Closed(f: File): File { if f.refs == 1 then File(0, Gone) else f.(refs := f.refs - 1) }

  function Dupped(f: File): File { f.(refs := f.refs + 1) }

  function SetFd(s: State, p: nat, d: nat, f: int): State
    requires p < |s.procs| && d < |s.procs[p].ofile|
  {
    s.(procs := s.procs[p := s.procs[p].(ofile := s.procs[p].ofile[d := f])])
  }

  function EntryAt(s: State, p: nat, fd: int): Entry
    requires Shaped(s) && p < NPROC && 0 <= fd <= NFILE
  {
    if fd < NFILE then if s.procs[p].ofile[fd] == NULL then Null else Names(s.procs[p].ofile[fd])
    else match s.procs[p].past
      case Ids(word) => if word == 0 then Null else Wild
      case FileAt(f) => Names(f)
  }

  predicate IsOpen(s: State, p: nat, fd: int)
    requires Shaped(s) && p < NPROC
  {
    0 <= fd < NFILE && s.procs[p].ofile[fd] != NULL
  }

  /** The test of `dup` and `dup2`, which lets the descriptor one past the table through. */
  predicate Passes(s: State, p: nat, fd: int)
    requires Shaped(s) && p < NPROC
  {
    0 <= fd <= NFILE && EntryAt(s, p, fd) != Null
  }

  function Put(s: State, p: nat, fd: nat, f: nat): State
    requires Shaped(s) && p < NPROC && fd <= NFILE
  {
    if fd < NFILE then SetFd(s, p, fd, f) else s.(procs := s.procs[p := s.procs[p].(past := FileAt(f))])
  }

  /** `open` of a file that is there and may be opened. */
  function Open(s: State, p: nat, target: Target): (State, Result)
    requires Shaped(s) && p < NPROC
  {
    var f := FreeFile(s.files, 0);
    if f == NFILE then (s, Enomem)
    else
      var s1 := s.(files := s.files[f := File(1, target)]);
      var d := FreeFd(s.procs[p].ofile, 0);
      if d == NFILE then (s1, Emfile) else (SetFd(s1, p, d, f), Fd(d))
  }

  function Close(s: State, p: nat, fd: int): (State, Result)
    requires Shaped(s) && p < NPROC
  {
    if !IsOpen(s, p, fd) then (s, Ebadf)
    else
      var f := s.procs[p].ofile[fd];
      (SetFd(s.(files := s.files[f := Closed(s.files[f])]), p, fd, NULL), Done)
  }

  function Dup(s: State, p: nat, fd: int): (State, Result)
    requires Shaped(s) && p < NPROC
  {
    if !Passes(s, p, fd) then (s, Ebadf)
    else
      var d := FreeFd(s.procs[p].ofile, 0);
      if d == NFILE then (s, Emfile)
      else match EntryAt(s, p, fd)
        case Names(f) => (SetFd(s.(files := s.files[f := Dupped(s.files[f])]), p, d, f), Fd(d))
        case _ => (s.(sound := false), Astray)
  }

  /** `dup2`: the new descriptor is closed before the old one is counted again. */
  function Dup2(s: State, p: nat, old_fd: int, new_fd: int): (State, Result)
    requires Shaped(s) && p < NPROC
  {
    if !Passes(s, p, old_fd) || new_fd < 0 || new_fd > NFILE then (s, Ebadf)
    else if EntryAt(s, p, old_fd).Wild? || EntryAt(s, p, new_fd).Wild? then (s.(sound := false), Astray)
    else
      var f, g := EntryAt(s, p, old_fd).f, EntryAt(s, p, new_fd);
      var files := if g.Null? then s.files else s.files[g.f := Closed(s.files[g.f])];
      (Put(s.(files := files[f := Dupped(files[f])]), p, new_fd, f), Fd(new_fd))
  }

  function DupAll(files: seq<File>, ofile: seq<int>): seq<File>
    requires |files| == NFILE && forall d :: 0 <= d < |ofile| ==> ofile[d] == NULL || 0 <= ofile[d] < NFILE
  {
    if ofile == [] then files
    else
      var n := |ofile| - 1;
      var r := DupAll(files, ofile[..n]);
      if ofile[n] == NULL || |r| != NFILE then r else r[ofile[n] := Dupped(r[ofile[n]])]
  }

  function CloseAll(files: seq<File>, ofile: seq<int>): seq<File>
    requires |files| == NFILE && forall d :: 0 <= d < |ofile| ==> ofile[d] == NULL || 0 <= ofile[d] < NFILE
  {
    if ofile == [] then files
    else
      var n := |ofile| - 1;
      var r := CloseAll(files, ofile[..n]);
      if ofile[n] == NULL || |r| != NFILE then r else r[ofile[n] := Closed(r[ofile[n]])]
  }

  /** The child gets every descriptor of its parent. */
  function Fork(s: State, p: nat, child: nat): State
    requires Shaped(s) && p < NPROC && child < NPROC
  {
    State(DupAll(s.files, s.procs[p].ofile), s.procs[child := s.procs[p].(live := true)], s.sound)
  }

  /** Every descriptor is closed; the zombie keeps the stale entries. */
  function Exit(s: State, p: nat): State
    requires Shaped(s) && p < NPROC
  {
    State(CloseAll(s.files, s.procs[p].ofile), s.procs[p := s.procs[p].(live := false)], s.sound)
  }

  // ------------------------------------------------------------------ the invariant

  /** Descriptors of one process that name file `f`. */
  function Slots(p: Proc, f: nat): nat { if p.live then multiset(p.ofile)[f] else 0 }

  /** Descriptors of all live processes that name file `f`. */
  function Named(procs: seq<Proc>, f: nat): nat {
    if procs == [] then 0 else Named(procs[..|procs| - 1], f) + Slots(procs[|procs| - 1], f)
  }

  predicate Counted(s: State, f: nat)
    requires f < |s.files|
  {
    s.files[f].refs == Named(s.procs, f) && (s.files[f].refs > 0 <==> s.files[f].target != Gone)
  }

  /** Every file is counted, and every live process still has its user and group. */
  ghost predicate Inv(s: State) {
    && Shaped(s) && s.sound
    && (forall f: nat :: f < NFILE ==> Counted(s, f))
    && (forall p :: 0 <= p < NPROC && s.procs[p].live ==> s.procs[p].past.Ids?)
  }

  datatype Event = EOpen(p: nat, target: Target) | EClose(p: nat, fd: int) | EDup(p: nat, fd: int)
                 | EDup2(p: nat, old_fd: int, new_fd: int) | EFork(p: nat, child: nat) | EExit(p: nat)

  /** A live process makes the call, and a child gets an entry that is not live. */
  predicate Enabled(s: State, e: Event) {
    && Shaped(s) && e.p < NPROC && s.procs[e.p].live
    && (e.EFork? ==> e.child < NPROC && !s.procs[e.child].live)
    && (e.EOpen? ==> e.target != Gone)
  }

  function Step(s: State, e: Event): State
    requires Enabled(s, e)
  {
    match e
    case EOpen(p, target) => Open(s, p, target).0
    case EClose(p, fd) => Close(s, p, fd).0
    case EDup(p, fd) => Dup(s, p, fd).0
    case EDup2(p, old_fd, new_fd) => Dup2(s, p, old_fd, new_fd).0
    case EFork(p, child) => Fork(s, p, child)
    case EExit(p) => Exit(s, p)
  }

  /** The calls that do harm: opening a file without a descriptor left for it, duplicating the only
      descriptor of a file onto itself, and a descriptor one past the table that gets through the test. */
  predicate Careful(s: State, e: Event)
    requires Enabled(s, e)
  {
    match e
    case EOpen(p, _) => FreeFile(s.files, 0) < NFILE ==> FreeFd(s.procs[p].ofile, 0) < NFILE
    case EDup(p, fd) => Passes(s, p, fd) && FreeFd(s.procs[p].ofile, 0) < NFILE ==> fd != NFILE
    case EDup2(p, old_fd, new_fd) =>
      Passes(s, p, old_fd) && 0 <= new_fd <= NFILE ==>
        old_fd != NFILE && new_fd != NFILE && (old_fd == new_fd ==> s.files[s.procs[p].ofile[old_fd]].refs != 1)
    case _ => true
  }

  // ------------------------------------------------------------------ counting

  lemma {:induction false} NamedPut(procs: seq<Proc>, p: nat, x: Proc, f: nat)
    requires p < |procs|
    ensures Named(procs[p := x], f) == Named(procs, f) - Slots(procs[p], f) + Slots(x, f)
  {
    var n := |procs| - 1;
    if p == n {
      assert procs[p := x][..n] == procs[..n];
    } else {
      assert procs[p := x][..n] == procs[..n][p := x];
      NamedPut(procs[..n], p, x, f);
    }
  }

  lemma {:induction false} NamedSome(procs: seq<Proc>, p: nat, f: nat)
    requires p < |procs|
    ensures Named(procs, f) >= Slots(procs[p], f)
  {
    var n := |procs| - 1;
    if p < n { NamedSome(procs[..n], p, f); }
  }

  lemma FdPut(ofile: seq<int>, d: nat, x: int, f: nat)
    requires d < |ofile|
    ensures multiset(ofile[d := x])[f]
         == multiset(ofile)[f] - (if ofile[d] == f then 1 else 0) + (if x == f then 1 else 0)
  {
  }

  /** One descriptor changes: what it named loses one, what it names gains one. */
  lemma SetFdNamed(s: State, p: nat, d: nat, x: int, f: nat)
    requires Shaped(s) && p < NPROC && d < NFILE && s.procs[p].live
    ensures Named(SetFd(s, p, d, x).procs, f)
         == Named(s.procs, f) - (if s.procs[p].ofile[d] == f then 1 else 0) + (if x == f then 1 else 0)
  {
    var q := s.procs[p].(ofile := s.procs[p].ofile[d := x]);
    NamedPut(s.procs, p, q, f);
    FdPut(s.procs[p].ofile, d, x, f);
  }

  /** A file named by a descriptor of a live process is counted. */
  lemma OpenCounted(s: State, p: nat, d: nat)
    requires Inv(s) && p < NPROC && d < NFILE && s.procs[p].live && s.procs[p].ofile[d] != NULL
    ensures s.files[s.procs[p].ofile[d]].refs >= 1 && s.files[s.procs[p].ofile[d]].target != Gone
  {
    var f := s.procs[p].ofile[d];
    assert Counted(s, f);
    NamedSome(s.procs, p, f);
    assert s.procs[p].ofile[d] in multiset(s.procs[p].ofile);
  }

  lemma {:induction false} DupAllCounts(files: seq<File>, ofile: seq<int>, f: nat)
    requires |files| == NFILE && f < NFILE
    requires forall d :: 0 <= d < |ofile| ==> ofile[d] == NULL || 0 <= ofile[d] < NFILE
    ensures |DupAll(files, ofile)| == NFILE
    ensures DupAll(files, ofile)[f] == files[f].(refs := files[f].refs + multiset(ofile)[f])
  {
    if ofile != [] {
      var n := |ofile| - 1;
      DupAllCounts(files, ofile[..n], f);
      assert ofile == ofile[..n] + [ofile[n]];
    }
  }

  lemma {:induction false} CloseAllCounts(files: seq<File>, ofile: seq<int>, f: nat)
    requires |files| == NFILE && f < NFILE
    requires forall d :: 0 <= d < |ofile| ==> ofile[d] == NULL || 0 <= ofile[d] < NFILE
    requires files[f].refs >= multiset(ofile)[f] && (files[f].refs > 0 <==> files[f].target != Gone)
    ensures |CloseAll(files, ofile)| == NFILE
    ensures var r := CloseAll(files, ofile)[f];
      && r.refs == files[f].refs - multiset(ofile)[f]
      && r.target == (if r.refs > 0 then files[f].target else Gone)
  {
    if ofile != [] {
      var n := |ofile| - 1;
      assert ofile == ofile[..n] + [ofile[n]];
      CloseAllCounts(files, ofile[..n], f);
    }
  }

  // ------------------------------------------------------------------ every call keeps the counts

  /** `file_alloc` never hands out a file that a descriptor of a live process still names. */
  lemma AllocUnnamed(s: State, p: nat, d: nat)
    requires Inv(s) && p < NPROC && d < NFILE && s.procs[p].live
    ensures s.procs[p].ofile[d] != FreeFile(s.files, 0) || FreeFile(s.files, 0) == NFILE
  {
    if s.procs[p].ofile[d] != NULL { OpenCounted(s, p, d); }
  }

  lemma OpenExact(s: State, p: nat, target: Target)
    requires Inv(s) && p < NPROC && s.procs[p].live && target != Gone
    ensures Inv(Open(s, p, target).0) <==> !Open(s, p, target).1.Emfile?
  {
    var (s', r) := Open(s, p, target);
    var f := FreeFile(s.files, 0);
    if f < NFILE {
      assert Counted(s, f);
      if r.Emfile? {
        assert !Counted(s', f);
      } else {
        var d := FreeFd(s.procs[p].ofile, 0);
        forall g: nat | g < NFILE
          ensures Counted(s', g)
        {
          assert Counted(s, g);
          SetFdNamed(s, p, d, f, g);
        }
      }
    }
  }

  lemma CloseKeeps(s: State, p: nat, fd: int)
    requires Inv(s) && p < NPROC && s.procs[p].live
    ensures Inv(Close(s, p, fd).0)
  {
    if IsOpen(s, p, fd) {
      var s' := Close(s, p, fd).0;
      OpenCounted(s, p, fd);
      forall g: nat | g < NFILE
        ensures Counted(s', g)
      {
        assert Counted(s, g);
        SetFdNamed(s, p, fd, NULL, g);
      }
    }
  }

  lemma DupExact(s: State, p: nat, fd: int)
    requires Inv(s) && p < NPROC && s.procs[p].live
    ensures Inv(Dup(s, p, fd).0) <==> (Passes(s, p, fd) && FreeFd(s.procs[p].ofile, 0) < NFILE ==> fd != NFILE)
  {
    var (s', r) := Dup(s, p, fd);
    if r.Fd? {
      OpenCounted(s, p, fd);
      forall g: nat | g < NFILE
        ensures Counted(s', g)
      {
        assert Counted(s, g);
        SetFdNamed(s, p, r.fd, s.procs[p].ofile[fd], g);
      }
    }
  }

  /** `dup2` keeps the counts but in these cases: onto itself from the only descriptor, which lets the
      inode go although the descriptor stays open, and with a descriptor one past the table on either
      side, which spoils user and group or takes them for a file. */
  lemma Dup2Exact(s: State, p: nat, old_fd: int, new_fd: int)
    requires Inv(s) && p < NPROC && s.procs[p].live
    ensures Inv(Dup2(s, p, old_fd, new_fd).0)
       <==> (Passes(s, p, old_fd) && 0 <= new_fd <= NFILE ==>
               old_fd != NFILE && new_fd != NFILE && (old_fd == new_fd ==> s.files[s.procs[p].ofile[old_fd]].refs != 1))
  {
    var (s', r) := Dup2(s, p, old_fd, new_fd);
    if r.Fd? {
      var f := s.procs[p].ofile[old_fd];
      OpenCounted(s, p, old_fd);
      if new_fd == NFILE {
        assert s'.procs[p].live && s'.procs[p].past.FileAt?;
      } else {
        if s.procs[p].ofile[new_fd] != NULL { OpenCounted(s, p, new_fd); }
        if old_fd == new_fd && s.files[f].refs == 1 {
          assert s'.files[f] == File(1, Gone);
          assert !Counted(s', f);
        } else {
          Dup2Keeps(s, p, old_fd, new_fd);
        }
      }
    }
  }

  lemma Dup2Keeps(s: State, p: nat, old_fd: nat, new_fd: nat)
    requires Inv(s) && p < NPROC && s.procs[p].live && IsOpen(s, p, old_fd) && new_fd < NFILE
    requires old_fd == new_fd ==> s.files[s.procs[p].ofile[old_fd]].refs != 1
    ensures Inv(Dup2(s, p, old_fd, new_fd).0)
  {
    var s' := Dup2(s, p, old_fd, new_fd).0;
    assert Shaped(s') && forall q :: 0 <= q < NPROC && s'.procs[q].live ==> s'.procs[q].past.Ids?;
    hide Dup2;
    forall g: nat | g < NFILE
      ensures Counted(s', g)
    {
      Dup2Counts(s, p, old_fd, new_fd, g);
    }
  }

  lemma Dup2Counts(s: State, p: nat, old_fd: nat, new_fd: nat, g: nat)
    requires Inv(s) && p < NPROC && s.procs[p].live && IsOpen(s, p, old_fd) && new_fd < NFILE && g < NFILE
    requires old_fd == new_fd ==> s.files[s.procs[p].ofile[old_fd]].refs != 1
    ensures |Dup2(s, p, old_fd, new_fd).0.files| == NFILE && Counted(Dup2(s, p, old_fd, new_fd).0, g)
  {
    var f, h := s.procs[p].ofile[old_fd], s.procs[p].ofile[new_fd];
    OpenCounted(s, p, old_fd);
    if h != NULL { OpenCounted(s, p, new_fd); }
    if f == h && old_fd != new_fd { TwiceNamed(s, p, old_fd, new_fd); }
    assert Counted(s, g);
    SetFdNamed(s, p, new_fd, f, g);
    hide Inv, Named;
  }

  lemma TwiceNamed(s: State, p: nat, d: nat, e: nat)
    requires Inv(s) && p < NPROC && s.procs[p].live && d < NFILE && e < NFILE && d != e
    requires s.procs[p].ofile[d] == s.procs[p].ofile[e] != NULL
    ensures s.files[s.procs[p].ofile[d]].refs >= 2
  {
    var ofile, f := s.procs[p].ofile, s.procs[p].ofile[d];
    assert Counted(s, f);
    NamedSome(s.procs, p, f);
    FdPut(ofile, d, NULL, f);
    assert ofile[d := NULL][e] in multiset(ofile[d := NULL]);
  }

  lemma ForkKeeps(s: State, p: nat, child: nat)
    requires Inv(s) && p < NPROC && s.procs[p].live && child < NPROC && !s.procs[child].live
    ensures Inv(Fork(s, p, child))
  {
    var s' := Fork(s, p, child);
    DupAllCounts(s.files, s.procs[p].ofile, 0);
    forall g: nat | g < NFILE
      ensures Counted(s', g)
    {
      assert Counted(s, g);
      DupAllCounts(s.files, s.procs[p].ofile, g);
      NamedPut(s.procs, child, s.procs[p].(live := true), g);
      NamedSome(s.procs, p, g);
    }
  }

  lemma ExitKeeps(s: State, p: nat)
    requires Inv(s) && p < NPROC && s.procs[p].live
    ensures Inv(Exit(s, p))
  {
    var s' := Exit(s, p);
    assert Counted(s, 0);
    NamedSome(s.procs, p, 0);
    CloseAllCounts(s.files, s.procs[p].ofile, 0);
    forall g: nat | g < NFILE
      ensures Counted(s', g)
    {
      assert Counted(s, g);
      NamedSome(s.procs, p, g);
      CloseAllCounts(s.files, s.procs[p].ofile, g);
      NamedPut(s.procs, p, s.procs[p].(live := false), g);
    }
  }

  /** A call keeps every file counted by the descriptors that name it, and its inode or pipe end in place
      while it is, and leaves users and groups alone, exactly when it is none of the harmful ones. */
  lemma StepExact(s: State, e: Event)
    requires Inv(s) && Enabled(s, e)
    ensures Inv(Step(s, e)) <==> Careful(s, e)
  {
    if e.EOpen? { OpenExact(s, e.p, e.target); }
    else if e.EClose? { CloseKeeps(s, e.p, e.fd); }
    else if e.EDup? { DupExact(s, e.p, e.fd); }
    else if e.EDup2? { Dup2Exact(s, e.p, e.old_fd, e.new_fd); }
    else if e.EFork? { ForkKeeps(s, e.p, e.child); }
    else { ExitKeeps(s, e.p); }
  }

  /** Careful calls, one after the other. */
  ghost predicate Run(s: State, es: seq<Event>, s': State)
    decreases |es|
  {
    if es == [] then s' == s else Enabled(s, es[0]) && Careful(s, es[0]) && Run(Step(s, es[0]), es[1..], s')
  }

  /** Over any such run each file's count is the number of descriptors of live processes that name it. */
  lemma {:induction false} RunCounts(s: State, es: seq<Event>, s': State)
    requires Inv(s) && Run(s, es, s')
    ensures Inv(s')
    decreases |es|
  {
    if es != [] {
      StepExact(s, es[0]);
      RunCounts(Step(s, es[0]), es[1..], s');
    }
  }

  // ------------------------------------------------------------------ what a caller sees

  /** All descriptors of all processes but one are as they were, and so is that process's identity word. */
  ghost predicate OthersKeep(s: State, s': State, p: nat, d: int)
    requires Shaped(s) && Shaped(s')
  {
    forall q: nat, e :: q < NPROC && 0 <= e <= NFILE && !(q == p && e == d) ==> EntryAt(s', q, e) == EntryAt(s, q, e)
  }

  /** All files but one are as they were, and that one is counted `delta` more and stands for the same. */
  ghost predicate CountsBy(s: State, s': State, f: nat, delta: int)
    requires Shaped(s) && Shaped(s') && f < NFILE
  {
    && s'.files[f] == File(s.files[f].refs + delta, s.files[f].target)
    && forall g :: 0 <= g < NFILE && g != f ==> s'.files[g] == s.files[g]
  }

  /** The lowest descriptor not in use. */
  predicate Lowest(s: State, p: nat, d: nat)
    requires Shaped(s) && p < NPROC && d < NFILE
  {
    EntryAt(s, p, d) == Null && forall e :: 0 <= e < d ==> EntryAt(s, p, e) != Null
  }

  predicate AllInUse(s: State, p: nat)
    requires Shaped(s) && p < NPROC
  {
    forall d :: 0 <= d < NFILE ==> EntryAt(s, p, d) != Null
  }

  /** `dup`: the lowest free descriptor names the file the old one names, and that file is counted once more. */
  lemma DupNames(s: State, p: nat, fd: int)
    requires Inv(s) && p < NPROC && s.procs[p].live && 0 <= fd < NFILE
    ensures Shaped(Dup(s, p, fd).0)
    ensures var (s', r) := Dup(s, p, fd);
      match EntryAt(s, p, fd)
      case Names(f) =>
        if AllInUse(s, p) then r == Emfile && s' == s
        else && r.Fd? && r.fd < NFILE && Lowest(s, p, r.fd) && EntryAt(s', p, r.fd) == Names(f)
             && OthersKeep(s, s', p, r.fd) && CountsBy(s, s', f, 1)
      case _ => r == Ebadf && s' == s
  {
    hide Counted;
    var (s', r) := Dup(s, p, fd);
    if EntryAt(s, p, fd) != Null {
      if r.Fd? {
        assert Lowest(s, p, r.fd);
        assert !AllInUse(s, p);
      }
    }
  }

  /** `dup2`: the new descriptor names the file the old one names; what it named before is counted once less. */
  lemma Dup2NamesFile(s: State, p: nat, old_fd: nat, new_fd: nat)
    requires Inv(s) && p < NPROC && s.procs[p].live && old_fd < NFILE && new_fd < NFILE
    ensures Shaped(Dup2(s, p, old_fd, new_fd).0)
    ensures var (s', r) := Dup2(s, p, old_fd, new_fd);
      match EntryAt(s, p, old_fd)
      case Names(f) =>
        && r == Fd(new_fd) && EntryAt(s', p, new_fd) == Names(f) && OthersKeep(s, s', p, new_fd)
        && (EntryAt(s, p, new_fd).Names? && EntryAt(s, p, new_fd).f != f ==>
              var g := EntryAt(s, p, new_fd).f;
              && s'.files[f] == File(s.files[f].refs + 1, s.files[f].target)
              && s'.files[g] == (if s.files[g].refs == 1 then File(0, Gone)
                                 else File(s.files[g].refs - 1, s.files[g].target))
              && forall h :: 0 <= h < NFILE && h != f && h != g ==> s'.files[h] == s.files[h])
        && (EntryAt(s, p, new_fd) == Null ==> CountsBy(s, s', f, 1))
        && (EntryAt(s, p, new_fd) == Names(f) && s.files[f].refs != 1 ==> s'.files == s.files)
      case _ => r == Ebadf && s' == s
  {
    hide Counted;
    var (s', r) := Dup2(s, p, old_fd, new_fd);
    if EntryAt(s, p, old_fd) == EntryAt(s, p, new_fd) && EntryAt(s, p, old_fd).Names? {
      var f := EntryAt(s, p, old_fd).f;
      assert s.files[f].refs != 1 ==> s'.files[f] == s.files[f];
    }
  }

  /** `open`: the lowest free descriptor names a file that nothing referred to, which is what was opened. */
  lemma OpenNames(s: State, p: nat, target: Target)
    requires Inv(s) && p < NPROC && s.procs[p].live && target != Gone
    ensures Shaped(Open(s, p, target).0)
    ensures var (s', r) := Open(s, p, target);
      if forall f :: 0 <= f < NFILE ==> s.files[f].refs != 0 then r == Enomem && s' == s
      else if AllInUse(s, p) then r == Emfile && s'.procs == s.procs
      else && r.Fd? && r.fd < NFILE && Lowest(s, p, r.fd) && EntryAt(s', p, r.fd).Names?
           && var f := EntryAt(s', p, r.fd).f;
           && s.files[f].refs == 0 && s'.files == s.files[f := File(1, target)] && OthersKeep(s, s', p, r.fd)
  {
    hide Counted;
    var (s', r) := Open(s, p, target);
    if r.Fd? {
      assert Lowest(s, p, r.fd);
      assert !AllInUse(s, p);
    }
  }

  /** `close`: the descriptor is free, its file is counted once less and let go when that was the last. */
  lemma CloseFrees(s: State, p: nat, fd: int)
    requires Inv(s) && p < NPROC && s.procs[p].live
    ensures Shaped(Close(s, p, fd).0)
    ensures var (s', r) := Close(s, p, fd);
      if 0 <= fd < NFILE && EntryAt(s, p, fd).Names? then
        var f := EntryAt(s, p, fd).f;
        && r == Done && EntryAt(s', p, fd) == Null && OthersKeep(s, s', p, fd)
        && s'.files == s.files[f := if s.files[f].refs == 1 then File(0, Gone)
                                    else File(s.files[f].refs - 1, s.files[f].target)]
      else r == Ebadf && s' == s
  {
    hide Counted;
  }

  /** The descriptors of a process that name file `f`. */
  function NamedBy(s: State, p: nat, f: nat): set<nat>
    requires Shaped(s) && p < NPROC
  {
    set d: nat | d < NFILE && EntryAt(s, p, d) == Names(f)
  }

  /** `fork`: each descriptor of the child names what that of the parent names, and each file is counted once
      more for every descriptor of the parent that names it. */
  lemma ForkShares(s: State, p: nat, child: nat)
    requires Inv(s) && p < NPROC && s.procs[p].live && child < NPROC && !s.procs[child].live
    ensures var s' := Fork(s, p, child);
      && Shaped(s') && s'.procs[child].live
      && (forall d :: 0 <= d <= NFILE ==> EntryAt(s', child, d) == EntryAt(s, p, d))
      && (forall q: nat, d :: q < NPROC && q != child && 0 <= d <= NFILE ==> EntryAt(s', q, d) == EntryAt(s, q, d))
      && (forall q :: 0 <= q < NPROC && q != child ==> s'.procs[q].live == s.procs[q].live)
      && (forall f: nat :: f < NFILE ==> s'.files[f] == File(s.files[f].refs + |NamedBy(s, p, f)|, s.files[f].target))
  {
    ForkKeeps(s, p, child);
    forall f: nat | f < NFILE
      ensures Fork(s, p, child).files[f] == File(s.files[f].refs + |NamedBy(s, p, f)|, s.files[f].target)
    {
      DupAllCounts(s.files, s.procs[p].ofile, f);
      NamedByIs(s, p, f);
    }
  }

  /** Exit: every other process keeps its descriptors, and each file is counted once less for every descriptor
      of the process that named it, and is let go when none is left. */
  lemma ExitReleases(s: State, p: nat)
    requires Inv(s) && p < NPROC && s.procs[p].live
    ensures var s' := Exit(s, p);
      && Shaped(s') && !s'.procs[p].live
      && (forall q: nat :: q < NPROC && q != p ==> s'.procs[q] == s.procs[q])
      && (forall f: nat :: f < NFILE ==>
            var n := s.files[f].refs - |NamedBy(s, p, f)|;
            0 <= n && s'.files[f] == if n == 0 then File(0, Gone) else File(n, s.files[f].target))
  {
    ExitKeeps(s, p);
    forall f: nat | f < NFILE
      ensures var n := s.files[f].refs - |NamedBy(s, p, f)|;
        0 <= n && Exit(s, p).files[f] == if n == 0 then File(0, Gone) else File(n, s.files[f].target)
    {
      assert Counted(s, f);
      NamedSome(s.procs, p, f);
      CloseAllCounts(s.files, s.procs[p].ofile, f);
      NamedByIs(s, p, f);
    }
  }

  lemma NamedByIs(s: State, p: nat, f: nat)
    requires Shaped(s) && p < NPROC && f < NFILE
    ensures |NamedBy(s, p, f)| == multiset(s.procs[p].ofile)[f]
  {
    var ofile := s.procs[p].ofile;
    PlacesOf(ofile, f);
    assert NamedBy(s, p, f) == set d: nat | d < |ofile| && ofile[d] == f;
  }

  lemma {:induction false} PlacesOf(ofile: seq<int>, f: nat)
    ensures |set d: nat | d < |ofile| && ofile[d] == f| == multiset(ofile)[f]
  {
    var places := set d: nat | d < |ofile| && ofile[d] == f;
    if ofile == [] {
      assert places == {};
    } else {
      var n := |ofile| - 1;
      var fewer := set d: nat | d < |ofile[..n]| && ofile[..n][d] == f;
      PlacesOf(ofile[..n], f);
      assert ofile == ofile[..n] + [ofile[n]];
      assert places == fewer + if ofile[n] == f then {n} else {};
    }
  }

  // ------------------------------------------------------------------ calls that undo one another

  lemma CountedFree(s: State, f: nat)
    requires Inv(s) && f < NFILE && s.files[f].refs == 0
    ensures s.files[f] == File(0, Gone)
  {
    assert Counted(s, f);
  }

  /** Closing what was just opened leaves no trace. */
  lemma OpenThenClose(s: State, p: nat, target: Target)
    requires Inv(s) && p < NPROC && s.procs[p].live && target != Gone && Open(s, p, target).1.Fd?
    ensures Shaped(Open(s, p, target).0)
    ensures Close(Open(s, p, target).0, p, Open(s, p, target).1.fd) == (s, Done)
  {
    var f := FreeFile(s.files, 0);
    var (s1, r) := Open(s, p, target);
    OpenExact(s, p, target);
    CountedFree(s, f);
    FdRestored(s, p, r.fd, f);
    assert s1.files[f := s.files[f]] == s.files;
  }

  /** Closing a duplicate leaves no trace. */
  lemma DupThenClose(s: State, p: nat, fd: int)
    requires Inv(s) && p < NPROC && s.procs[p].live && Dup(s, p, fd).1.Fd?
    ensures IsOpen(s, p, fd)
    ensures Shaped(Dup(s, p, fd).0)
    ensures Close(Dup(s, p, fd).0, p, Dup(s, p, fd).1.fd) == (s, Done)
  {
    var f := s.procs[p].ofile[fd];
    var (s1, r) := Dup(s, p, fd);
    DupExact(s, p, fd);
    OpenCounted(s, p, fd);
    FdRestored(s, p, r.fd, f);
    assert s1.files[f := s.files[f]] == s.files;
  }

  lemma FdRestored(s: State, p: nat, d: nat, f: int)
    requires Shaped(s) && p < NPROC && d < NFILE && s.procs[p].ofile[d] == NULL
    ensures var procs := SetFd(s, p, d, f).procs;
            procs[p := procs[p].(ofile := procs[p].ofile[d := NULL])] == s.procs
  {
    var ofile := s.procs[p].ofile;
    assert ofile[d := f][d := NULL] == ofile;
  }

  /** A child that exits at once gives every file back as it was before the fork. */
  lemma ForkThenExit(s: State, p: nat, child: nat)
    requires Inv(s) && p < NPROC && s.procs[p].live && child < NPROC && !s.procs[child].live
    ensures Shaped(Fork(s, p, child)) && Exit(Fork(s, p, child), child).files == s.files
  {
    var s1, ofile := Fork(s, p, child), s.procs[p].ofile;
    ForkKeeps(s, p, child);
    var s2 := Exit(s1, child);
    forall g: nat | g < NFILE
      ensures |s2.files| == NFILE && s2.files[g] == s.files[g]
    {
      assert Counted(s, g) && Counted(s1, g);
      DupAllCounts(s.files, ofile, g);
      NamedSome(s1.procs, child, g);
      CloseAllCounts(s1.files, ofile, g);
    }
    assert |s2.files| == NFILE by {
      assert Counted(s1, 0);
      NamedSome(s1.procs, child, 0);
      CloseAllCounts(s1.files, ofile, 0);
    }
  }

  // ------------------------------------------------------------------ the harmful calls, from the start of the system

  /** One process with nothing open; `word` is its user and group. */
  function Initial(word: nat): State {
    State(seq(NFILE, _ => File(0, Gone)), seq(NPROC, p => Proc(p == 0, seq(NFILE, _ => NULL), Ids(word))), true)
  }

  lemma InitialInv(word: nat)
    ensures Inv(Initial(word))
  {
    forall f: nat | f < NFILE
      ensures Counted(Initial(word), f)
    {
      NothingNamed(Initial(word).procs, f);
    }
  }

  lemma {:induction false} NothingNamed(procs: seq<Proc>, f: nat)
    requires forall p, d :: 0 <= p < |procs| && 0 <= d < |procs[p].ofile| ==> procs[p].ofile[d] == NULL
    ensures Named(procs, f) == 0
  {
    if procs != [] { NothingNamed(procs[..|procs| - 1], f); }
  }

  /** The process has one file open, at its first `n` descriptors. */
  function Opened(word: nat, n: nat): State
    requires n <= NFILE
  {
    var s := Initial(word);
    State(s.files[0 := File(n, InodeOf(1))],
        s.procs[0 := Proc(true, seq(NFILE, d => if d < n then 0 else NULL), Ids(word))], true)
  }

  /** Opening a file and duplicating its descriptor again and again leads through these states. */
  lemma OpenedRun(word: nat, n: nat)
    requires 1 <= n < NFILE
    ensures Shaped(Initial(word)) && Open(Initial(word), 0, InodeOf(1)) == (Opened(word, 1), Fd(0))
    ensures Shaped(Opened(word, n)) && Dup(Opened(word, n), 0, 0) == (Opened(word, n + 1), Fd(n))
  {
    var s0, s1, s, s' := Initial(word), Opened(word, 1), Opened(word, n), Opened(word, n + 1);
    assert s0.procs[0].ofile[0 := 0] == s1.procs[0].ofile;
    assert s.procs[0].ofile[n := 0] == s'.procs[0].ofile;
    FirstNull(s.procs[0].ofile, n, 0);
    assert Open(s0, 0, InodeOf(1)).0.procs == s1.procs;
    assert Dup(s, 0, 0).0.procs == s'.procs && Dup(s, 0, 0).0.files == s'.files;
  }

  lemma {:induction false} FirstNull(ofile: seq<int>, n: nat, from: nat)
    requires from <= n <= |ofile| && (forall d :: from <= d < n ==> ofile[d] != NULL)
        && (n < |ofile| ==> ofile[n] == NULL)
    ensures FreeFd(ofile, from) == n
    decreases n - from
  {
    if from < n { FirstNull(ofile, n, from + 1); }
  }

  lemma {:induction false} OpenedInv(word: nat, n: nat)
    requires 1 <= n <= NFILE
    ensures Inv(Opened(word, n))
    decreases n
  {
    InitialInv(word);
    OpenedRun(word, 1);
    if n == 1 {
      OpenExact(Initial(word), 0, InodeOf(1));
    } else {
      OpenedInv(word, n - 1);
      OpenedRun(word, n - 1);
      DupExact(Opened(word, n - 1), 0, 0);
    }
  }

  /** With all descriptors in use and files left, `open` fails and its file stays counted for ever. */
  lemma OpenWithoutDescriptor(word: nat)
    ensures Inv(Opened(word, NFILE))
    ensures var (s, r) := Open(Opened(word, NFILE), 0, InodeOf(2));
            r == Emfile && !Inv(s) && s.files[1].refs == 1 && Named(s.procs, 1) == 0
  {
    var s := Opened(word, NFILE);
    OpenedInv(word, NFILE);
    FirstNull(s.procs[0].ofile, NFILE, 0);
    OpenExact(s, 0, InodeOf(2));
    assert Counted(s, 1);
  }

  /** `open` and then `dup2(0, 0)`: the descriptor stays, its inode has been let go. */
  lemma Dup2OntoItself(word: nat)
    ensures Inv(Opened(word, 1))
    ensures var (s, r) := Dup2(Opened(word, 1), 0, 0, 0);
        r == Fd(0) && !Inv(s) && IsOpen(s, 0, 0) && s.files[0] == File(1, Gone)
  {
    OpenedInv(word, 1);
    Dup2Exact(Opened(word, 1), 0, 0, 0);
  }

  /** `open` and then `dup2(0, 32)`, as root: the call succeeds, the file is counted twice and named once,
      and user and group of the process are the address of a file. */
  lemma Dup2PastTable()
    ensures Inv(Opened(0, 1))
    ensures var (s, r) := Dup2(Opened(0, 1), 0, 0, NFILE);
      && r == Fd(NFILE) && !Inv(s) && s.procs[0].past == FileAt(0)
      && s.files[0].refs == 2 && Named(s.procs, 0) == 1
  {
    var s := Opened(0, 1);
    OpenedInv(0, 1);
    assert Counted(s, 0);
    Dup2Exact(s, 0, 0, NFILE);
    NamedPut(s.procs, 0, s.procs[0].(past := FileAt(0)), 0);
  }

  /** `dup(32)` by anybody but root takes user and group for the address of a file. */
  lemma DupPastTable(word: nat)
    requires word != 0
    ensures Inv(Opened(word, 1))
    ensures Dup(Opened(word, 1), 0, NFILE).1 == Astray && !Inv(Dup(Opened(word, 1), 0, NFILE).0)
  {
    OpenedInv(word, 1);
    FirstNull(Opened(word, 1).procs[0].ofile, 1, 0);
  }
}

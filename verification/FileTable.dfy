/** The kernel's file table and the descriptor tables of its processes, updated in place. */
module FileTable {
  import opened Numbers
  import opened FileSpec

  class FileTable {
    const file: array<File>
    const proc: array<Proc>
    ghost var sound: bool

    ghost function Now(): State
      reads this, file, proc
    {
      State(file[..], proc[..], sound)
    }

    ghost predicate Valid()
      reads this, file, proc
    {
      Shaped(Now())
    }

    /** `file_init`, with one process that has nothing open. */
    constructor (word: nat)
      ensures Valid() && Inv(Now()) && Now() == Initial(word) && fresh(file) && fresh(proc)
    {
      file := new File[NFILE](_ => File(0, Gone));
      proc := new Proc[NPROC](p => Proc(p == 0, seq(NFILE, _ => NULL), Ids(word)));
      sound := true;
      new;
      assert file[..] == Initial(word).files && proc[..] == Initial(word).procs;
      InitialInv(word);
    }

    method FileAlloc(target: Target) returns (f: nat)
      requires file.Length == NFILE
      modifies file
      ensures f == FreeFile(old(file[..]), 0)
      ensures file[..] == if f == NFILE then old(file[..]) else old(file[..])[f := File(1, target)]
    {
      ghost var files := file[..];
      f := 0;
      while f < NFILE
        invariant f <= NFILE && FreeFile(files, 0) == FreeFile(files, f)
      {
        if file[f].refs == 0 {
          file[f] := File(1, target);
          assert file[..] == files[f := File(1, target)];
          return;
        }
        f := f + 1;
      }
    }

    method FileFdAlloc(p: nat, f: nat) returns (d: nat)
      requires file.Length == NFILE && proc.Length == NPROC && p < NPROC && |proc[p].ofile| == NFILE
      modifies proc
      ensures d == FreeFd(old(proc[p]).ofile, 0)
      ensures Now() == if d == NFILE then old(Now()) else SetFd(old(Now()), p, d, f)
    {
      ghost var procs, ofile := proc[..], proc[p].ofile;
      d := 0;
      while d < NFILE
        invariant d <= NFILE && FreeFd(ofile, 0) == FreeFd(ofile, d)
      {
        if proc[p].ofile[d] == NULL {
          proc[p] := proc[p].(ofile := proc[p].ofile[d := f]);
          assert proc[..] == procs[p := proc[p]];
          return;
        }
        d := d + 1;
      }
    }

    /** `file_close`, and `pipe_close` for the end of a pipe: the count never falls below zero. */
    method FileClose(f: nat)
      requires file.Length == NFILE && f < NFILE && file[f].refs > 0
      modifies file
      ensures file[..] == old(file[..])[f := Closed(old(file[f]))]
    {
      ghost var files := file[..];
      file[f] := file[f].(refs := file[f].refs - 1);
      if file[f].refs == 0 {
        file[f] := file[f].(target := Gone);
      }
      assert file[..] == files[f := file[f]];
    }

    method FileDup(f: nat)
      requires file.Length == NFILE && f < NFILE
      modifies file
      ensures file[..] == old(file[..])[f := Dupped(old(file[f]))]
    {
      ghost var files := file[..];
      file[f] := file[f].(refs := file[f].refs + 1);
      assert file[..] == files[f := file[f]];
    }

    method SetDescriptor(p: nat, d: nat, f: int)
      requires file.Length == NFILE && proc.Length == NPROC && p < NPROC && d < |proc[p].ofile|
      modifies proc
      ensures Now() == SetFd(old(Now()), p, d, f)
    {
      ghost var procs := proc[..];
      proc[p] := proc[p].(ofile := proc[p].ofile[d := f]);
      assert proc[..] == procs[p := proc[p]];
    }

    method Open(p: nat, target: Target) returns (r: Result)
      requires Valid() && p < NPROC
      modifies file, proc
      ensures (Now(), r) == FileSpec.Open(old(Now()), p, target)
    {
      hide Shaped;
      assert file.Length == NFILE && proc.Length == NPROC && |proc[p].ofile| == NFILE by { Sizes(Now(), p); }
      var f := FileAlloc(target);
      if f == NFILE {
        return Enomem;
      }
      var d := FileFdAlloc(p, f);
      r := if d == NFILE then Emfile else Fd(d);
    }

    method Close(p: nat, fd: int) returns (r: Result)
      requires Valid() && Inv(Now()) && p < NPROC && proc[p].live
      modifies file, proc
      ensures (Now(), r) == FileSpec.Close(old(Now()), p, fd)
    {
      if fd < 0 || fd >= NFILE || proc[p].ofile[fd] == NULL {
        return Ebadf;
      }
      OpenCounted(Now(), p, fd);
      hide Inv, Shaped;
      FileClose(proc[p].ofile[fd]);
      SetDescriptor(p, fd, NULL);
      r := Done;
    }

    /** What lies at a descriptor; one past the table that is user and group. */
    method Entry(p: nat, fd: nat) returns (e: Entry)
      requires Valid() && p < NPROC && fd <= NFILE
      ensures e == EntryAt(Now(), p, fd)
    {
      if fd == NFILE {
        var past := proc[p].past;
        return if past.FileAt? then Names(past.f) else if past.word == 0 then Null else Wild;
      }
      e := if proc[p].ofile[fd] == NULL then Null else Names(proc[p].ofile[fd]);
    }

    /** The test lets the descriptor one past the table through. */
    method Dup(p: nat, fd: int) returns (r: Result)
      requires Valid() && p < NPROC
      modifies file, proc, this`sound
      ensures (Now(), r) == FileSpec.Dup(old(Now()), p, fd)
    {
      if fd < 0 || fd > NFILE {
        return Ebadf;
      }
      var e := Entry(p, fd);
      if e == Null {
        return Ebadf;
      }
      if e.Wild? {
        r := DupWild(p);
        return;
      }
      hide Shaped;
      var d := FileFdAlloc(p, e.f);
      if d == NFILE {
        return Emfile;
      }
      FileDup(e.f);
      r := Fd(d);
    }

    /** With user and group for an address: no harm is done only when there is no descriptor to put it in. */
    method DupWild(p: nat) returns (r: Result)
      requires Valid() && p < NPROC
      modifies this`sound
      ensures (Now(), r) == if FreeFd(old(proc[p]).ofile, 0) == NFILE then (old(Now()), Emfile)
          else (old(Now()).(sound := false), Astray)
    {
      var d := 0;
      while d < NFILE
        invariant d <= NFILE && FreeFd(proc[p].ofile, 0) == FreeFd(proc[p].ofile, d)
      {
        if proc[p].ofile[d] == NULL {
          sound := false;
          return Astray;
        }
        d := d + 1;
      }
      r := Emfile;
    }

    method Dup2(p: nat, old_fd: int, new_fd: int) returns (r: Result)
      requires Valid() && Inv(Now()) && p < NPROC && proc[p].live
      modifies file, proc, this`sound
      ensures (Now(), r) == FileSpec.Dup2(old(Now()), p, old_fd, new_fd)
    {
      if old_fd < 0 || old_fd > NFILE {
        return Ebadf;
      }
      var e := Entry(p, old_fd);
      if e == Null || new_fd < 0 || new_fd > NFILE {
        return Ebadf;
      }
      var g := Entry(p, new_fd);
      if g.Wild? || e.Wild? {
        sound := false;
        return Astray;
      }
      if g.Names? && new_fd < NFILE { OpenCounted(Now(), p, new_fd); }
      hide Inv;
      assert Shaped(Now());
      if g.Names? {
        FileClose(g.f);
      }
      FileDup(e.f);
      Store(p, new_fd, e.f);
      r := Fd(new_fd);
    }

    method Store(p: nat, fd: nat, f: nat)
      requires Valid() && p < NPROC && fd <= NFILE
      modifies proc
      ensures Now() == Put(old(Now()), p, fd, f)
    {
      if fd < NFILE {
        SetDescriptor(p, fd, f);
      } else {
        ghost var procs := proc[..];
        proc[p] := proc[p].(past := FileAt(f));
        assert proc[..] == procs[p := proc[p]];
      }
    }

    /** The part of `fork` that shares the parent's files with its child. */
    method Fork(p: nat, child: nat)
      requires Valid() && p < NPROC && child < NPROC && p != child
      modifies file, proc
      ensures Now() == FileSpec.Fork(old(Now()), p, child)
    {
      ghost var s := Now();
      var ofile := proc[p].ofile;
      proc[child] := Proc(false, seq(NFILE, _ => NULL), proc[p].past);
      var f := 0;
      assert ofile[..0] == [];
      while f < NFILE
        invariant f <= NFILE && file[..] == DupAll(s.files, ofile[..f])
        invariant |proc[child].ofile| == NFILE && proc[..] == s.procs[child := proc[child]] && !proc[child].live
            && proc[child].past == s.procs[p].past
        invariant forall d :: 0 <= d < NFILE ==> proc[child].ofile[d] == if d < f then ofile[d] else NULL
      {
        assert ofile[..f + 1][..f] == ofile[..f];
        if ofile[f] != NULL {
          FileDup(ofile[f]);
          SetDescriptor(child, f, ofile[f]);
        }
        f := f + 1;
      }
      assert ofile[..f] == ofile && proc[child].ofile == ofile;
      proc[child] := proc[child].(live := true);
      assert proc[..] == s.procs[child := proc[child]];
    }

    /** The part of `proc_exit` that closes the files of the process. */
    method Exit(p: nat)
      requires Valid() && Inv(Now()) && p < NPROC && proc[p].live
      modifies file, proc
      ensures Now() == FileSpec.Exit(old(Now()), p)
    {
      ghost var s := Now();
      var ofile := proc[p].ofile;
      assert ofile[..0] == [];
      var f := 0;
      while f < NFILE
        invariant f <= NFILE && file[..] == CloseAll(s.files, ofile[..f]) && proc[..] == s.procs
      {
        assert ofile[..f + 1][..f] == ofile[..f];
        if ofile[f] != NULL {
          StillCounted(s, p, f);
          FileClose(ofile[f]);
        }
        f := f + 1;
      }
      assert ofile[..f] == ofile;
      proc[p] := proc[p].(live := false);
      assert proc[..] == s.procs[p := proc[p]];
    }
  }

  lemma Sizes(s: State, p: nat)
    requires Shaped(s) && p < NPROC
    ensures |s.files| == NFILE && |s.procs| == NPROC && |s.procs[p].ofile| == NFILE
  {
  }

  /** When `exit` comes to a descriptor, the file it names still has the reference that descriptor holds. */
  lemma StillCounted(s: State, p: nat, d: nat)
    requires Inv(s) && p < NPROC && s.procs[p].live && d < NFILE && s.procs[p].ofile[d] != NULL
    ensures |CloseAll(s.files, s.procs[p].ofile[..d])| == NFILE
    ensures CloseAll(s.files, s.procs[p].ofile[..d])[s.procs[p].ofile[d]].refs > 0
  {
    var ofile, f := s.procs[p].ofile, s.procs[p].ofile[d];
    assert Counted(s, f);
    NamedSome(s.procs, p, f);
    assert ofile == ofile[..d] + [f] + ofile[d + 1..];
    assert multiset(ofile) == multiset(ofile[..d]) + multiset([f]) + multiset(ofile[d + 1..]);
    CloseAllCounts(s.files, ofile[..d], f);
  }
}

/** Creating and unlinking names in the directories of a file system. */
module FsDirectory {
  import opened Numbers
  import opened Wrappers
  import opened FsSpec
  import opened FsData
  import opened FsSteps
  import F = FileSystem
  import Namei
  import D = Directory

  /** The directories of a file system, as path lookup sees them. */
  ghost function TreeOf(fs: Fs, root: nat, searchable: set<nat>, linked: set<nat>): Namei.Tree
    requires Inv(fs)
  {
    Namei.Tree(root, map ino | ino in fs.inodes :: D.DirOf(File(fs, ino)), searchable, fs.inodes.Keys, linked)
  }

  /** The read of a whole directory is never short. */
  lemma ReadWhole(fs: Fs, ino: nat)
    requires Inv(fs) && ino in fs.inodes
    ensures var f := File(fs, ino); |f| < 0x8000_0000 && F.ReadFrom(f, 0, |f|) == F.Bytes(f, |f|)
  {
    SizeFits(fs, ino);
    F.ReadReturns(File(fs, ino), 0, |File(fs, ino)|);
  }

  /** New contents of one file are new entries of one directory. */
  lemma TreeAfter(fs: Fs, fs': Fs, dir: nat, root: nat, searchable: set<nat>, linked: set<nat>)
    requires Inv(fs) && Inv(fs') && dir in fs.inodes && fs'.inodes.Keys == fs.inodes.Keys && OthersSame(fs, fs', dir)
    ensures TreeOf(fs', root, searchable, linked)
         == D.WithEntries(TreeOf(fs, root, searchable, linked), dir, D.DirOf(File(fs', dir)))
  {
    hide Inv, File, D.DirOf;
    assert TreeOf(fs', root, searchable, linked).entries
        == TreeOf(fs, root, searchable, linked).entries[dir := D.DirOf(File(fs', dir))];
  }

  /** What `wdir` and `sys_unlink` make of the file is what they make of the tree. */
  lemma WdirTree(fs: Fs, fs': Fs, dir: nat, ino: nat, name: string, root: nat, searchable: set<nat>, linked: set<nat>)
    requires Inv(fs) && Inv(fs') && dir in fs.inodes && fs'.inodes.Keys == fs.inodes.Keys && OthersSame(fs, fs', dir)
    requires D.IsName(name) && File(fs', dir) == D.Added(File(fs, dir), ino, name)
    ensures TreeOf(fs', root, searchable, linked)
         == D.Created(TreeOf(fs, root, searchable, linked), dir, Namei.Dirent(ino % 0x1_0000, D.Stored(name)))
  {
    D.AddedIs(File(fs, dir), ino, name);
    hide Inv, File, D.DirOf, D.Insert, D.Added, D.Stored, D.IsName;
    TreeAfter(fs, fs', dir, root, searchable, linked);
  }

  lemma UnlinkTree(fs: Fs, fs': Fs, dir: nat, name: string, root: nat, searchable: set<nat>, linked: set<nat>)
    requires Inv(fs) && Inv(fs') && dir in fs.inodes && fs'.inodes.Keys == fs.inodes.Keys && OthersSame(fs, fs', dir)
    requires File(fs', dir) == D.Removed(File(fs, dir), name)
    ensures TreeOf(fs', root, searchable, linked) == D.Unlinked(TreeOf(fs, root, searchable, linked), dir, name)
  {
    D.RemovedIs(File(fs, dir), name);
    hide Inv, File, D.DirOf, D.Remove, D.Removed;
    TreeAfter(fs, fs', dir, root, searchable, linked);
  }

  /** Reading entry `k` of a directory. */
  method ReadEntry(fs: F.FileSystem, dir: nat, k: nat) returns (e: Option<seq<Byte>>)
    requires Inv(fs.Now()) && dir in fs.inodes && k <= |File(fs.Now(), dir)| / D.ENTRY_SIZE
    modifies fs
    ensures fs.Now() == old(fs.Now())
    ensures var f := File(fs.Now(), dir); e == if k < |f| / D.ENTRY_SIZE then Some(D.Slice(f, k)) else None
  {
    ghost var f := File(fs.Now(), dir);
    SizeFits(fs.Now(), dir);
    F.ReadReturns(f, D.ENTRY_SIZE * k, D.ENTRY_SIZE);
    hide Inv, F.ReadFrom;
    var r := fs.Readi(dir, D.ENTRY_SIZE * k, D.ENTRY_SIZE);
    e := if r.ret == D.ENTRY_SIZE then Some(r.data) else None;
  }

  /** The loop of `wdir`: the first entry that is not in use. */
  method FindFree(fs: F.FileSystem, dir: nat) returns (k: nat)
    requires Inv(fs.Now()) && dir in fs.inodes
    modifies fs
    ensures fs.Now() == old(fs.Now()) && k == D.FreeSlot(D.DirOf(File(fs.Now(), dir)))
  {
    ghost var es := D.DirOf(File(fs.Now(), dir));
    hide Inv, File, D.Slice;
    k := 0;
    assert es[0..] == es;
    while true
      invariant fs.Now() == old(fs.Now()) && k <= |es| && D.FreeSlot(es) == k + D.FreeSlot(es[k..])
      decreases |es| - k
    {
      var e := ReadEntry(fs, dir, k);
      if e.None? || (e.value[0] == 0 && e.value[1] == 0) {
        return;
      }
      assert es[k] == D.Entry(e.value) && es[k..][0] == es[k] && es[k..][1..] == es[k + 1..];
      k := k + 1;
    }
  }

  /** `wdir`: the entry goes where the first free one is, or behind the last. */
  method Wdir(fs: F.FileSystem, dir: nat, ino: nat, name: string) returns (r: F.WriteResult)
    requires Inv(fs.Now()) && dir in fs.inodes && D.IsName(name)
    modifies fs
    ensures r == F.Outcome(old(fs.Now()), dir,
        D.ENTRY_SIZE * D.FreeSlot(D.DirOf(old(File(fs.Now(), dir)))), D.ENTRY_SIZE)
    ensures r.Written? ==> Inv(fs.Now()) && dir in fs.inodes && fs.inodes.Keys == old(fs.inodes).Keys
    ensures r.Written? ==> File(fs.Now(), dir) == D.Added(old(File(fs.Now(), dir)), ino, name)
    ensures r.Written? ==> OthersSame(old(fs.Now()), fs.Now(), dir)
  {
    hide Inv, File, F.Outcome;
    var k := FindFree(fs, dir);
    SizeIs(fs.Now(), dir);
    r := fs.Writei(dir, D.ENTRY_SIZE * k, D.Record(ino, name));
  }

  lemma SizeIs(fs: Fs, ino: nat)
    requires Inv(fs) && ino in fs.inodes
    ensures |File(fs, ino)| == fs.inodes[ino].size
  {
  }

  /** The loop of `sys_unlink`: the first entry with that name. */
  method FindName(fs: F.FileSystem, dir: nat, name: string) returns (k: nat, e: Option<seq<Byte>>)
    requires Inv(fs.Now()) && dir in fs.inodes
    modifies fs
    ensures fs.Now() == old(fs.Now())
    ensures var f := File(fs.Now(), dir);
      k == D.Find(D.DirOf(f), name) && e == if k < |D.DirOf(f)| then Some(D.Slice(f, k)) else None
  {
    ghost var es := D.DirOf(File(fs.Now(), dir));
    hide Inv, File, D.Slice;
    k := 0;
    assert es[0..] == es;
    while true
      invariant fs.Now() == old(fs.Now()) && k <= |es| && D.Find(es, name) == k + D.Find(es[k..], name)
      decreases |es| - k
    {
      e := ReadEntry(fs, dir, k);
      if e.None? {
        return;
      }
      var d := D.Entry(e.value);
      assert es[k] == d && es[k..][0] == d && es[k..][1..] == es[k + 1..];
      if d.ino != 0 && d.name == name {
        return;
      }
      k := k + 1;
    }
  }

  /** The directory part of `sys_unlink`: the first entry with that name goes out of use. */
  method Unlink(fs: F.FileSystem, dir: nat, name: string) returns (found: Option<nat>)
    requires Inv(fs.Now()) && dir in fs.inodes
    modifies fs
    ensures Inv(fs.Now()) && dir in fs.inodes && fs.inodes.Keys == old(fs.inodes).Keys
    ensures found == Namei.Lookup(D.DirOf(old(File(fs.Now(), dir))), name)
    ensures File(fs.Now(), dir) == D.Removed(old(File(fs.Now(), dir)), name)
    ensures OthersSame(old(fs.Now()), fs.Now(), dir)
  {
    SizeIs(fs.Now(), dir);
    D.LookupIs(D.DirOf(File(fs.Now(), dir)), name);
    hide Inv, File, F.Outcome, Namei.Lookup, D.Find, Overwrite;
    var k, e := FindName(fs, dir, name);
    found := None;
    if e.Some? {
      found := Some(D.Entry(e.value).ino);
      EntryThere(fs.Now(), dir, k);
      var r := fs.Writei(dir, D.ENTRY_SIZE * k, D.Cleared(e.value));
    }
  }

  /** Writing over an entry takes no zone. */
  lemma EntryThere(fs: Fs, dir: nat, k: nat)
    requires Inv(fs) && dir in fs.inodes && D.ENTRY_SIZE * (k + 1) <= fs.inodes[dir].size
    ensures F.Outcome(fs, dir, D.ENTRY_SIZE * k, D.ENTRY_SIZE) == F.Written(D.ENTRY_SIZE)
  {
    var m := D.ENTRY_SIZE * k;
    var b := m / BLOCK_SIZE;
    ByteOfFile(fs, dir, m);
    assert First(m) == b && Last(m, D.ENTRY_SIZE) == b + 1;
    ReadyNow(fs, dir, b, b + 1);
  }
}

/** Directories: files of fixed-size entries, and what creating and unlinking a name does to path lookup. */
module Directory {
  import opened Numbers
  import opened Wrappers
  import opened Namei
  import opened FsData

  const NAME_SIZE := 30
  const ENTRY_SIZE := 32

  // ------------------------------------------------------------------ entries as bytes

  /** Characters before the first zero byte. */
  function StrLen(b: seq<Byte>): (n: nat)
    ensures n <= |b| && (forall i :: 0 <= i < n ==> b[i] != 0) && (n < |b| ==> b[n] == 0)
  {
    if b == [] || b[0] == 0 then 0 else 1 + StrLen(b[1..])
  }

  function Text(b: seq<Byte>): string { seq(|b|, i requires 0 <= i < |b| => b[i] as char) }

  /** A string as C has it: no zero byte in it. */
  predicate IsName(s: string) { forall i :: 0 <= i < |s| ==> 0 < s[i] as int < 256 }

  /** `strncpy` into the name field and the zero byte put at its end. */
  function Padded(s: string): seq<Byte>
    requires IsName(s)
  {
    seq(NAME_SIZE, i requires 0 <= i < NAME_SIZE => if i < |s| && i < NAME_SIZE - 1 then s[i] as int else 0)
  }

  /** The name that is left of `s` in an entry. */
  function Stored(s: string): string { s[..Min(|s|, NAME_SIZE - 1)] }

  /** The entry `wdir` writes; inode numbers are 16-bit there. */
  function Record(ino: nat, name: string): (r: seq<Byte>)
    requires IsName(name)
    ensures |r| == ENTRY_SIZE
  {
    var lo: Byte := ino % 256;
    var hi: Byte := ino / 256 % 256;
    [lo, hi] + Padded(name)
  }

  /** An entry as `nameicore` and `sys_unlink` read it. */
  function Entry(e: seq<Byte>): Dirent
    requires |e| == ENTRY_SIZE
  {
    Dirent(e[0] as int + 256 * e[1] as int, Text(e[2..2 + StrLen(e[2..])]))
  }

  function Slice(f: seq<Byte>, k: nat): (e: seq<Byte>)
    requires ENTRY_SIZE * (k + 1) <= |f|
    ensures |e| == ENTRY_SIZE
  {
    f[ENTRY_SIZE * k..ENTRY_SIZE * (k + 1)]
  }

  /** A file read as a directory; what is left behind the last whole entry does not count. */
  function DirOf(f: seq<Byte>): (dir: seq<Dirent>)
    ensures |dir| == |f| / ENTRY_SIZE
  {
    seq(|f| / ENTRY_SIZE, k requires 0 <= k < |f| / ENTRY_SIZE => Entry(Slice(f, k)))
  }

  lemma {:induction false} StrLenIs(b: seq<Byte>, n: nat)
    requires n < |b| && b[n] == 0 && forall i :: 0 <= i < n ==> b[i] != 0
    ensures StrLen(b) == n
  {
    if n > 0 { StrLenIs(b[1..], n - 1); }
  }

  /** What `wdir` writes is read back, but for what a name has beyond 29 characters. */
  lemma RecordReads(ino: nat, name: string)
    requires IsName(name)
    ensures Entry(Record(ino, name)) == Dirent(ino % 0x1_0000, Stored(name))
    ensures Record(ino, name)[0] as int + 256 * Record(ino, name)[1] as int == ino % 0x1_0000
  {
    var e := Record(ino, name);
    assert e[2..] == Padded(name) && e[2..2 + StrLen(e[2..])] == Padded(name)[..StrLen(Padded(name))];
    TwoBytes(ino);
    hide Padded, StrLen, Text;
    NameReads(name);
  }

  lemma TwoBytes(ino: nat)
    ensures ino % 256 + 256 * (ino / 256 % 256) == ino % 0x1_0000
  {
    var h := ino / 256;
    var lo, mid, k := ino % 256, h % 256, h / 256;
    assert ino == 0x1_0000 * k + (256 * mid + lo);
    Remainder(k, 256 * mid + lo);
  }

  lemma Remainder(k: nat, r: nat)
    requires r < 0x1_0000
    ensures (0x1_0000 * k + r) % 0x1_0000 == r
  {
  }

  lemma NameReads(name: string)
    requires IsName(name)
    ensures Text(Padded(name)[..StrLen(Padded(name))]) == Stored(name)
  {
    StrLenIs(Padded(name), Min(|name|, NAME_SIZE - 1));
  }

  // ------------------------------------------------------------------ directories as lists of entries

  /** Where `wdir` puts an entry: the first that is not in use, or behind the last. */
  function FreeSlot(dir: seq<Dirent>): (k: nat)
    ensures k <= |dir| && (k < |dir| ==> dir[k].ino == 0) && forall i :: 0 <= i < k ==> dir[i].ino != 0
  {
    if dir == [] || dir[0].ino == 0 then 0 else 1 + FreeSlot(dir[1..])
  }

  function Placed(dir: seq<Dirent>, k: nat, d: Dirent): seq<Dirent>
    requires k <= |dir|
  {
    if k < |dir| then dir[k := d] else dir + [d]
  }

  function Insert(dir: seq<Dirent>, d: Dirent): seq<Dirent> { Placed(dir, FreeSlot(dir), d) }

  /** The entry `sys_unlink` finds, or the size of the directory. */
  function Find(dir: seq<Dirent>, name: string): (k: nat)
    ensures k <= |dir| && (k < |dir| ==> dir[k].ino != 0 && dir[k].name == name)
  {
    if dir == [] || (dir[0].ino != 0 && dir[0].name == name) then 0 else 1 + Find(dir[1..], name)
  }

  const UNUSED := Dirent(0, "")

  function Remove(dir: seq<Dirent>, name: string): seq<Dirent> {
    var k := Find(dir, name);
    if k < |dir| then dir[k := UNUSED] else dir
  }

  lemma {:induction false} LookupIs(dir: seq<Dirent>, name: string)
    ensures Lookup(dir, name) == if Find(dir, name) < |dir| then Some(dir[Find(dir, name)].ino) else None
  {
    if dir != [] { LookupIs(dir[1..], name); }
  }

  /** A new entry is found under its name unless an earlier one has it, and shows in no other name. */
  lemma {:induction false} InsertLooksUp(dir: seq<Dirent>, d: Dirent, name: string)
    requires d.ino != 0
    ensures Lookup(Insert(dir, d), name)
         == if name != d.name then Lookup(dir, name)
            else if Find(dir, name) < FreeSlot(dir) then Lookup(dir, name) else Some(d.ino)
  {
    if dir != [] && dir[0].ino != 0 {
      var rest := dir[1..];
      InsertLooksUp(rest, d, name);
      assert Insert(dir, d)[0] == dir[0] && Insert(dir, d)[1..] == Insert(rest, d);
    } else {
      assert Insert(dir, d)[0] == d && Insert(dir, d)[1..] == if dir == [] then [] else dir[1..];
    }
  }

  /** Removing a name shows in no other. */
  lemma {:induction false} RemoveLooksUp(dir: seq<Dirent>, name: string, other: string)
    requires other != name
    ensures Lookup(Remove(dir, name), other) == Lookup(dir, other)
  {
    if dir != [] {
      if dir[0].ino != 0 && dir[0].name == name {
        assert Remove(dir, name)[0] == UNUSED && Remove(dir, name)[1..] == dir[1..];
      } else {
        RemoveLooksUp(dir[1..], name, other);
        assert Remove(dir, name)[0] == dir[0] && Remove(dir, name)[1..] == Remove(dir[1..], name);
      }
    }
  }

  /** No name is used twice. */
  predicate Unique(dir: seq<Dirent>) {
    forall i, j :: 0 <= i < j < |dir| && dir[i].ino != 0 && dir[j].ino != 0 ==> dir[i].name != dir[j].name
  }

  lemma NotFound(dir: seq<Dirent>, name: string)
    ensures Lookup(dir, name) == None <==> forall i :: 0 <= i < |dir| && dir[i].ino != 0 ==> dir[i].name != name
  {
    LookupIs(dir, name);
    FindFirst(dir, name);
  }

  lemma {:induction false} FindFirst(dir: seq<Dirent>, name: string)
    ensures forall i :: 0 <= i < Find(dir, name) ==> dir[i].ino == 0 || dir[i].name != name
  {
    if dir != [] { FindFirst(dir[1..], name); }
  }

  /** Adding a name leaves names unique exactly when no entry has it yet. */
  lemma InsertKeepsUnique(dir: seq<Dirent>, d: Dirent)
    requires Unique(dir) && d.ino != 0
    ensures Unique(Insert(dir, d)) <==> Lookup(dir, d.name) == None
  {
    NotFound(dir, d.name);
    var k, dir' := FreeSlot(dir), Insert(dir, d);
    forall i | 0 <= i < |dir| && dir[i].ino != 0 && dir[i].name == d.name
      ensures !Unique(dir')
    {
      assert i != k && dir'[i] == dir[i] && dir'[k] == d;
    }
  }

  /** A removed name is gone, and removing what was added leaves every name as it was. */
  lemma RemoveKeepsUnique(dir: seq<Dirent>, name: string)
    requires Unique(dir)
    ensures Unique(Remove(dir, name)) && Lookup(Remove(dir, name), name) == None
  {
    FindFirst(dir, name);
    NotFound(Remove(dir, name), name);
  }

  lemma RemoveUndoesInsert(dir: seq<Dirent>, d: Dirent, name: string)
    requires Unique(dir) && d.ino != 0 && Lookup(dir, d.name) == None
    ensures Lookup(Remove(Insert(dir, d), d.name), name) == Lookup(dir, name)
  {
    if name == d.name {
      InsertKeepsUnique(dir, d);
      RemoveKeepsUnique(Insert(dir, d), name);
    } else {
      RemoveLooksUp(Insert(dir, d), d.name, name);
      InsertLooksUp(dir, d, name);
    }
  }

  // ------------------------------------------------------------------ the bytes of a directory

  /** What `wdir` makes of the contents of a directory. */
  function Added(f: seq<Byte>, ino: nat, name: string): seq<Byte>
    requires IsName(name)
  {
    Overwrite(f, ENTRY_SIZE * FreeSlot(DirOf(f)), Record(ino, name))
  }

  /** An entry with its number and the first byte of its name cleared. */
  function Cleared(e: seq<Byte>): (r: seq<Byte>)
    requires |e| == ENTRY_SIZE
    ensures |r| == ENTRY_SIZE
  {
    e[0 := 0][1 := 0][2 := 0]
  }

  /** What `sys_unlink` makes of the contents of a directory. */
  function Removed(f: seq<Byte>, name: string): seq<Byte> {
    var k := Find(DirOf(f), name);
    if k < |DirOf(f)| then Overwrite(f, ENTRY_SIZE * k, Cleared(Slice(f, k))) else f
  }

  lemma PutEntry(f: seq<Byte>, k: nat, e: seq<Byte>)
    requires k <= |f| / ENTRY_SIZE && |e| == ENTRY_SIZE
    ensures DirOf(Overwrite(f, ENTRY_SIZE * k, e)) == Placed(DirOf(f), k, Entry(e))
  {
    var g, dir := Overwrite(f, ENTRY_SIZE * k, e), Placed(DirOf(f), k, Entry(e));
    OverwriteAt(f, ENTRY_SIZE * k, e, 0);
    hide Entry, Overwrite;
    assert |DirOf(g)| == |dir|;
    forall j | 0 <= j < |dir|
      ensures DirOf(g)[j] == dir[j]
    {
      SliceAfter(f, k, e, j);
    }
  }

  lemma SliceAfter(f: seq<Byte>, k: nat, e: seq<Byte>, j: nat)
    requires k <= |f| / ENTRY_SIZE && |e| == ENTRY_SIZE && (j < |f| / ENTRY_SIZE || j == k)
    ensures var g := Overwrite(f, ENTRY_SIZE * k, e);
            ENTRY_SIZE * (j + 1) <= |g| && Slice(g, j) == if j == k then e else Slice(f, j)
  {
    var g := Overwrite(f, ENTRY_SIZE * k, e);
    OverwriteAt(f, ENTRY_SIZE * k, e, 0);
    var s := if j == k then e else Slice(f, j);
    forall i | 0 <= i < ENTRY_SIZE
      ensures Slice(g, j)[i] == s[i]
    {
      OverwriteAt(f, ENTRY_SIZE * k, e, ENTRY_SIZE * j + i);
    }
  }

  /** `wdir` adds one entry. */
  lemma AddedIs(f: seq<Byte>, ino: nat, name: string)
    requires IsName(name)
    ensures DirOf(Added(f, ino, name)) == Insert(DirOf(f), Dirent(ino % 0x1_0000, Stored(name)))
  {
    RecordReads(ino, name);
    PutEntry(f, FreeSlot(DirOf(f)), Record(ino, name));
  }

  /** `sys_unlink` takes one entry out of use. */
  lemma RemovedIs(f: seq<Byte>, name: string)
    ensures DirOf(Removed(f, name)) == Remove(DirOf(f), name)
  {
    var k := Find(DirOf(f), name);
    if k < |DirOf(f)| {
      ClearedReads(Slice(f, k));
      hide DirOf, Entry, Overwrite, Cleared;
      PutEntry(f, k, Cleared(Slice(f, k)));
    }
  }

  lemma ClearedReads(e: seq<Byte>)
    requires |e| == ENTRY_SIZE
    ensures Entry(Cleared(e)) == UNUSED
  {
    assert StrLen(Cleared(e)[2..]) == 0;
  }

  /** A name that is not there is found after it has been added exactly if it has at most 29 characters. */
  lemma AddedFound(f: seq<Byte>, ino: nat, name: string)
    requires IsName(name) && 0 < ino < 0x1_0000
    requires Lookup(DirOf(f), name) == None && Lookup(DirOf(f), Stored(name)) == None
    ensures Lookup(DirOf(Added(f, ino, name)), name) == Some(ino) <==> |name| < NAME_SIZE
    ensures Lookup(DirOf(Added(f, ino, name)), Stored(name)) == Some(ino)
  {
    hide DirOf, Added, Lookup, Insert, Stored;
    AddedIs(f, ino, name);
    InsertFound(DirOf(f), ino, name);
    assert ino % 0x1_0000 == ino;
  }

  lemma InsertFound(dir: seq<Dirent>, ino: nat, name: string)
    requires 0 < ino && Lookup(dir, name) == None && Lookup(dir, Stored(name)) == None
    ensures var dir' := Insert(dir, Dirent(ino, Stored(name)));
      (Lookup(dir', name) == Some(ino) <==> |name| < NAME_SIZE) && Lookup(dir', Stored(name)) == Some(ino)
  {
    InsertLooksUp(dir, Dirent(ino, Stored(name)), name);
    InsertLooksUp(dir, Dirent(ino, Stored(name)), Stored(name));
    LookupIs(dir, Stored(name));
    assert |name| < NAME_SIZE ==> name == Stored(name);
  }

  // ------------------------------------------------------------------ what paths name afterwards

  /** The tree with entries `es` in directory `dir`. */
  function WithEntries(t: Tree, dir: nat, es: seq<Dirent>): Tree { t.(entries := t.entries[dir := es]) }

  function Created(t: Tree, dir: nat, d: Dirent): Tree { WithEntries(t, dir, Insert(Entries(t, dir), d)) }

  function Unlinked(t: Tree, dir: nat, name: string): Tree { WithEntries(t, dir, Remove(Entries(t, dir), name)) }

  /** A new name takes no path from what it led to. */
  lemma {:induction false} CreatedWalks(t: Tree, dir: nat, d: Dirent, from: nat, comps: seq<string>, parent: bool)
    requires d.ino != 0 && Lookup(Entries(t, dir), d.name) == None && Walk(t, from, comps, parent).Found?
    ensures Walk(Created(t, dir, d), from, comps, parent) == Walk(t, from, comps, parent)
    decreases |comps|
  {
    if comps != [] && !(parent && |comps| == 1) {
      InsertLooksUp(Entries(t, dir), d, comps[0]);
      hide Insert;
      CreatedWalks(t, dir, d, Lookup(Entries(t, from), comps[0]).value, comps[1..], parent);
    }
  }

  /** Where `parenti` finds a directory. */
  lemma LastStep(t: Tree, from: nat, comps: seq<string>)
    requires comps != [] && Walk(t, from, comps, true).Found?
    ensures var dir, a := Walk(t, from, comps, true).ino, comps[..|comps| - 1];
      Walk(t, from, a, false) == Found(dir) && dir in t.searchable && dir in t.readable
  {
    var a, name := comps[..|comps| - 1], comps[|comps| - 1];
    assert a + [name] == comps;
    WalkAppend(t, from, a, [name], true);
  }

  /** A file is created by looking up the directory of the path and adding the last name there, which it does
      not have.  From then on the path names the new inode, exactly if the name has at most 29 characters; a
      longer one is not found. */
  lemma CreatedIsFound(t: Tree, cwd: nat, path: string, ino: nat)
    requires 0 < ino && Components(path) != [] && Resolve(t, cwd, path, true).Found?
    requires var es, name := Entries(t, Resolve(t, cwd, path, true).ino), LastOf(Components(path)).value;
      Lookup(es, name) == None && Lookup(es, Stored(name)) == None
    ensures var dir, name := Resolve(t, cwd, path, true).ino, LastOf(Components(path)).value;
      Resolve(Created(t, dir, Dirent(ino, Stored(name))), cwd, path, false)
      == if |name| < NAME_SIZE then Found(ino) else Enoent
  {
    var from, comps := Start(t, cwd, path), Components(path);
    var dir, a, name := Walk(t, from, comps, true).ino, comps[..|comps| - 1], comps[|comps| - 1];
    var d := Dirent(ino, Stored(name));
    var t' := Created(t, dir, d);
    LastStep(t, from, comps);
    CreatedWalks(t, dir, d, from, a, false);
    assert a + [name] == comps && [name][1..] == [];
    WalkAppend(t', from, a, [name], false);
    InsertFound(Entries(t, dir), ino, name);
    InsertLooksUp(Entries(t, dir), d, name);
    hide Insert, Components, Stored;
    assert Walk(t', from, comps, false) == Walk(t', dir, [name], false);
  }

  /** Unlinking a name makes paths lead where they led or nowhere. */
  lemma {:induction false} UnlinkedWalks(t: Tree, dir: nat, name: string, from: nat, comps: seq<string>, parent: bool)
    requires Unique(Entries(t, dir))
    ensures var r := Walk(Unlinked(t, dir, name), from, comps, parent); r == Walk(t, from, comps, parent) || r == Enoent
    decreases |comps|
  {
    if comps != [] && from in t.searchable && from in t.readable && !(parent && |comps| == 1) {
      if comps[0] == name {
        RemoveKeepsUnique(Entries(t, dir), name);
      } else {
        RemoveLooksUp(Entries(t, dir), name, comps[0]);
      }
      hide Remove, Unique;
      var next := Lookup(Entries(t, from), comps[0]);
      if next.Some? { UnlinkedWalks(t, dir, name, next.value, comps[1..], parent); }
    }
  }

  /** After `sys_unlink` of a path, which looks its directory up and takes the last name out of it, the path
      names nothing. */
  lemma UnlinkedIsGone(t: Tree, cwd: nat, path: string)
    requires Components(path) != [] && Resolve(t, cwd, path, true).Found?
    requires Unique(Entries(t, Resolve(t, cwd, path, true).ino))
    ensures var dir, name := Resolve(t, cwd, path, true).ino, LastOf(Components(path)).value;
            Resolve(Unlinked(t, dir, name), cwd, path, false) == Enoent
  {
    var from, comps := Start(t, cwd, path), Components(path);
    var dir, a, name := Walk(t, from, comps, true).ino, comps[..|comps| - 1], comps[|comps| - 1];
    var t' := Unlinked(t, dir, name);
    LastStep(t, from, comps);
    UnlinkedWalks(t, dir, name, from, a, false);
    RemoveKeepsUnique(Entries(t, dir), name);
    assert a + [name] == comps && [name][1..] == [];
    WalkAppend(t', from, a, [name], false);
    hide Remove, Components, Unique;
    assert Walk(t', dir, [name], false) == Enoent;
  }
}

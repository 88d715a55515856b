/** Path lookup: what a path names, and which inodes stay referenced while it is being followed. */
module Namei {
  import opened Wrappers

  datatype Dirent = Dirent(ino: nat, name: string)

  /** Directory contents, which inodes the caller may search, of which a read gives as many bytes as their
      size says, and which have a link. */
  datatype Tree = Tree(root: nat, entries: map<nat, seq<Dirent>>, searchable: set<nat>, readable: set<nat>,
      linked: set<nat>)

  /** What becomes of the walk at one component. */
  datatype Turn = Fail(error: Outcome) | Stop | Go(next: nat)

  datatype Outcome = Found(ino: nat) | Eacces | Eio | Enoent

  // ------------------------------------------------------------------ what a path means

  /** The end of the component that starts at `i`. */
  function CompEnd(s: string, i: nat): (e: nat)
    requires i <= |s|
    ensures i <= e <= |s| && (forall k :: i <= k < e ==> s[k] != '/') && (e < |s| ==> s[e] == '/')
    decreases |s| - i
  {
    if i == |s| || s[i] == '/' then i else CompEnd(s, i + 1)
  }

  /** The components of a path; slashes only separate, however many there are. */
  function Components(s: string): seq<string>
    decreases |s|
  {
    if s == "" then []
    else if s[0] == '/' then Components(s[1..])
    else [s[..CompEnd(s, 0)]] + Components(s[CompEnd(s, 0)..])
  }

  /** The first entry in use with that name. */
  function Lookup(dir: seq<Dirent>, name: string): Option<nat>
  {
    if dir == [] then None
    else if dir[0].ino != 0 && dir[0].name == name then Some(dir[0].ino)
    else Lookup(dir[1..], name)
  }

  function Entries(t: Tree, ino: nat): seq<Dirent> { if ino in t.entries then t.entries[ino] else [] }

  /** Component by component from `ino`; in parent mode the last component is not followed. */
  function Walk(t: Tree, ino: nat, comps: seq<string>, parent: bool): Outcome
    decreases |comps|
  {
    if comps == [] then Found(ino)
    else if ino !in t.searchable then Eacces
    else if ino !in t.readable then Eio
    else if parent && |comps| == 1 then Found(ino)
    else match Lookup(Entries(t, ino), comps[0])
      case None => Enoent
      case Some(next) => Walk(t, next, comps[1..], parent)
  }

  function Start(t: Tree, cwd: nat, path: string): nat { if path != "" && path[0] == '/' then t.root else cwd }

  function Resolve(t: Tree, cwd: nat, path: string, parent: bool): Outcome {
    Walk(t, Start(t, cwd, path), Components(path), parent)
  }

  /** Following a path is following its beginning and then its end. */
  lemma {:induction false} WalkAppend(t: Tree, ino: nat, a: seq<string>, b: seq<string>, parent: bool)
    requires b != []
    decreases |a|
    ensures Walk(t, ino, a + b, parent) == var r := Walk(t, ino, a, false);
        if r.Found? then Walk(t, r.ino, b, parent) else r
  {
    if a == [] {
      assert a + b == b;
    } else {
      assert (a + b)[0] == a[0] && (a + b)[1..] == a[1..] + b;
      var next := Lookup(Entries(t, ino), a[0]);
      if next.Some? { WalkAppend(t, next.value, a[1..], b, parent); }
    }
  }

  /** Parent mode stops one step earlier: looking the last name up in what it finds gives what the whole path names. */
  lemma ParentThenName(t: Tree, ino: nat, comps: seq<string>)
    requires comps != []
    ensures var d := Walk(t, ino, comps, true);
            Walk(t, ino, comps, false)
            == if !d.Found? then d
               else match Lookup(Entries(t, d.ino), comps[|comps| - 1]) case None => Enoent case Some(n) => Found(n)
  {
    var n := |comps| - 1;
    var a, b := comps[..n], comps[n..];
    assert a + b == comps && b == [comps[n]];
    WalkAppend(t, ino, a, b, false);
    WalkAppend(t, ino, a, b, true);
    assert b[1..] == [];
  }

  /** A path that begins with a slash is followed from the root, whatever the current directory is. */
  lemma AbsoluteFromRoot(t: Tree, cwd: nat, s: string, parent: bool)
    ensures Resolve(t, cwd, "/" + s, parent) == Walk(t, t.root, Components(s), parent)
  {
    assert ("/" + s)[1..] == s;
  }

  /** Any other path is followed from the current directory. */
  lemma RelativeFromCwd(t: Tree, cwd: nat, s: string, parent: bool)
    requires s != "" ==> s[0] != '/'
    ensures Resolve(t, cwd, s, parent) == Walk(t, cwd, Components(s), parent)
  {
    assert s != "" ==> Start(t, cwd, s) == cwd;
  }

  /** `chain` leads through directories that may be searched and can be read, from each to the inode that
      its first entry in use with the next name has. */
  ghost predicate Leads(t: Tree, chain: seq<nat>, comps: seq<string>) {
    && |chain| == |comps| + 1
    && forall i :: 0 <= i < |comps| ==> Opens(t, chain[i]) && FirstNamed(Entries(t, chain[i]), comps[i], chain[i + 1])
  }

  predicate Opens(t: Tree, ino: nat) { ino in t.searchable && ino in t.readable }

  predicate Matching(d: Dirent, name: string) { d.ino != 0 && d.name == name }

  ghost predicate FirstNamed(dir: seq<Dirent>, name: string, ino: nat) {
    exists k :: 0 <= k < |dir| && Matching(dir[k], name) && dir[k].ino == ino
                && forall j :: 0 <= j < k ==> !Matching(dir[j], name)
  }

  lemma {:induction false} LookupFinds(dir: seq<Dirent>, name: string)
    ensures forall ino: nat :: Lookup(dir, name) == Some(ino) <==> FirstNamed(dir, name, ino)
    ensures Lookup(dir, name) == None <==> forall k :: 0 <= k < |dir| ==> !Matching(dir[k], name)
  {
    if dir != [] {
      LookupFinds(dir[1..], name);
      assert forall k :: 0 < k < |dir| ==> dir[k] == dir[1..][k - 1];
      if Matching(dir[0], name) {
        assert FirstNamed(dir, name, dir[0].ino);
      } else {
        forall ino: nat | FirstNamed(dir[1..], name, ino)
          ensures FirstNamed(dir, name, ino)
        {
          var k :| 0 <= k < |dir[1..]| && Matching(dir[1..][k], name) && dir[1..][k].ino == ino
                   && forall j :: 0 <= j < k ==> !Matching(dir[1..][j], name);
          assert dir[k + 1] == dir[1..][k];
        }
        forall ino: nat | FirstNamed(dir, name, ino)
          ensures FirstNamed(dir[1..], name, ino)
        {
          var k :| 0 <= k < |dir| && Matching(dir[k], name) && dir[k].ino == ino
                   && forall j :: 0 <= j < k ==> !Matching(dir[j], name);
          assert dir[1..][k - 1] == dir[k];
        }
      }
    }
  }

  /** A lookup goes along such a chain for as many names as it can.  Having gone along them all it has found
      the inode at the end, and in parent mode the one before that; it stops before where a directory may not
      be searched, where one cannot be read, or where none of the entries has the name. */
  lemma {:induction false} WalkIsChain(t: Tree, from: nat, comps: seq<string>, parent: bool) returns (chain: seq<nat>)
    ensures 0 < |chain| <= |comps| + 1 && chain[0] == from && Leads(t, chain, comps[..|chain| - 1])
    ensures var n, last := |chain| - 1, chain[|chain| - 1];
      match Walk(t, from, comps, parent)
      case Found(ino) =>
        ino == last && if parent && comps != [] then n == |comps| - 1 && Opens(t, last) else n == |comps|
      case Eacces => n < |comps| && last !in t.searchable
      case Eio => n < |comps| && last in t.searchable && last !in t.readable
      case Enoent => n < |comps| && Opens(t, last)
                     && forall d :: d in Entries(t, last) ==> !Matching(d, comps[n])
    decreases |comps|
  {
    chain := [from];
    if comps != [] && Opens(t, from) && !(parent && |comps| == 1) {
      LookupFinds(Entries(t, from), comps[0]);
      var next := Lookup(Entries(t, from), comps[0]);
      if next.Some? {
        var rest := WalkIsChain(t, next.value, comps[1..], parent);
        chain := [from] + rest;
        assert chain[1..] == rest && comps[..|rest|] == [comps[0]] + comps[1..][..|rest| - 1];
        LeadsFurther(t, from, rest, comps[0], comps[1..][..|rest| - 1]);
      }
    }
  }

  lemma LeadsFurther(t: Tree, from: nat, rest: seq<nat>, name: string, names: seq<string>)
    requires Leads(t, rest, names) && Opens(t, from) && FirstNamed(Entries(t, from), name, rest[0])
    ensures Leads(t, [from] + rest, [name] + names)
  {
    hide FirstNamed;
  }

  /** There is no more than one such chain. */
  lemma {:induction false} OneChain(t: Tree, a: seq<nat>, b: seq<nat>, comps: seq<string>, n: nat)
    requires Leads(t, a, comps) && Leads(t, b, comps) && a[0] == b[0] && n <= |comps|
    ensures a[n] == b[n]
  {
    if n > 0 { OneChain(t, a, b, comps, n - 1); }
  }

  // ------------------------------------------------------------------ spelling

  datatype Part = Part(slashes: nat, name: string)

  function Slashes(n: nat): string
    decreases n
  {
    if n == 0 then "" else "/" + Slashes(n - 1)
  }

  /** Components written with slashes before each, and `trailing` slashes at the end. */
  function Spell(parts: seq<Part>, trailing: nat): string {
    if parts == [] then Slashes(trailing)
    else Slashes(parts[0].slashes) + parts[0].name + Spell(parts[1..], trailing)
  }

  function Names(parts: seq<Part>): seq<string> { if parts == [] then [] else [parts[0].name] + Names(parts[1..]) }

  ghost predicate WellSpelt(parts: seq<Part>) {
    && (forall i :: 0 <= i < |parts| ==> parts[i].name != "" && '/' !in parts[i].name)
    && (forall i :: 1 <= i < |parts| ==> parts[i].slashes > 0)
  }

  lemma {:induction false} SkipSlashes(n: nat, s: string)
    ensures Components(Slashes(n) + s) == Components(s)
  {
    if n == 0 {
      assert Slashes(n) + s == s;
    } else {
      assert (Slashes(n) + s)[1..] == Slashes(n - 1) + s;
      SkipSlashes(n - 1, s);
    }
  }

  lemma {:induction false} NameEnds(name: string, rest: string, i: nat)
    requires i <= |name| && '/' !in name && (rest != "" ==> rest[0] == '/')
    ensures CompEnd(name + rest, i) == |name|
    decreases |name| - i
  {
    if i < |name| {
      assert (name + rest)[i] == name[i];
      NameEnds(name, rest, i + 1);
    }
  }

  /** However many slashes separate, lead and trail, the components are the names between them. */
  lemma {:induction false} SlashesCollapse(parts: seq<Part>, trailing: nat)
    requires WellSpelt(parts)
    ensures Components(Spell(parts, trailing)) == Names(parts)
  {
    if parts == [] {
      assert Slashes(trailing) + "" == Slashes(trailing);
      SkipSlashes(trailing, "");
    } else {
      var p, rest := parts[0], Spell(parts[1..], trailing);
      assert WellSpelt(parts[1..]);
      assert rest != "" ==> rest[0] == '/' by {
        if |parts| > 1 { assert parts[1..][0] == parts[1]; }
      }
      assert Spell(parts, trailing) == Slashes(p.slashes) + (p.name + rest);
      SkipSlashes(p.slashes, p.name + rest);
      NameEnds(p.name, rest, 0);
      assert (p.name + rest)[..|p.name|] == p.name && (p.name + rest)[|p.name|..] == rest;
      assert (p.name + rest)[0] == p.name[0];
      SlashesCollapse(parts[1..], trailing);
    }
  }

  // ------------------------------------------------------------------ the lookup itself

  /** Every name leads to an inode that has a link, and so does the root. */
  ghost predicate WellFormed(t: Tree) {
    && t.root in t.linked
    && forall d, i :: d in t.entries && 0 <= i < |t.entries[d]| && t.entries[d][i].ino != 0 ==>
        t.entries[d][i].ino in t.linked
  }

  function Plus(refs: multiset<nat>, ino: nat): multiset<nat> { refs + multiset{ino} }

  function Minus(refs: multiset<nat>, ino: nat): multiset<nat> { refs - multiset{ino} }

  /** Giving the reference back is no panic, and does not truncate an unlinked inode. */
  predicate Releasable(refs: multiset<nat>, ino: nat, t: Tree) { ino in refs && (ino in t.linked || refs[ino] > 1) }

  lemma PlusMinus(refs: multiset<nat>, ino: nat, next: nat, t: Tree)
    ensures Minus(Plus(refs, ino), ino) == refs
    ensures Minus(Plus(Plus(refs, ino), next), ino) == Plus(refs, next)
    ensures next in t.linked || next in refs ==> Releasable(Plus(refs, next), next, t)
    ensures Releasable(refs, ino, t) ==> Releasable(Plus(refs, next), ino, t)
  {
  }

  /** The references held on inodes and the inodes locked. */
  class Inodes {
    var refs: multiset<nat>
    var locked: set<nat>

    constructor ()
      ensures refs == multiset{} && locked == {}
    {
      refs, locked := multiset{}, {};
    }

    method Iget(ino: nat)
      requires ino !in locked
      modifies this`refs
      ensures refs == Plus(old(refs), ino)
    {
      refs := refs + multiset{ino};
    }

    /** The panics of `iput`, and the release of the last reference to an unlinked inode, which would
        truncate it, are excluded by its callers. */
    method Iput(ino: nat, ghost t: Tree)
      requires ino !in locked && Releasable(refs, ino, t)
      modifies this`refs
      ensures refs == Minus(old(refs), ino)
    {
      refs := refs - multiset{ino};
    }

    method Ilock(ino: nat)
      requires ino !in locked
      modifies this`locked
      ensures locked == old(locked) + {ino}
    {
      locked := locked + {ino};
    }

    method Iunlock(ino: nat)
      requires ino in locked
      modifies this`locked
      ensures locked == old(locked) - {ino}
    {
      locked := locked - {ino};
    }

    /** The directory scan: the first entry in use whose name is the component. */
    method Search(t: Tree, ino: nat, comp: string) returns (next: Option<nat>)
      requires locked == {} && WellFormed(t)
      modifies this`refs
      ensures next == Lookup(Entries(t, ino), comp)
      ensures next.Some? ==> next.value in t.linked
      ensures refs == if next.Some? then Plus(old(refs), next.value) else old(refs)
    {
      var dir := Entries(t, ino);
      var d := 0;
      assert dir[0..] == dir;
      while d < |dir|
        invariant d <= |dir| && Lookup(dir, comp) == Lookup(dir[d..], comp) && refs == old(refs)
      {
        assert dir[d..][0] == dir[d] && dir[d..][1..] == dir[d + 1..];
        if dir[d].ino != 0 && |dir[d].name| == |comp| && dir[d].name == comp {
          Iget(dir[d].ino);
          return Some(dir[d].ino);
        }
        d := d + 1;
      }
      next := None;
    }

    method SkipSlashes(path: string, start: nat) returns (p: nat)
      requires start <= |path|
      ensures start <= p <= |path| && (p < |path| ==> path[p] != '/')
      ensures Components(path[p..]) == Components(path[start..])
    {
      p := start;
      while p < |path| && path[p] == '/'
        invariant start <= p <= |path| && Components(path[p..]) == Components(path[start..])
      {
        assert path[p..][0] == '/' && path[p..][1..] == path[p + 1..];
        p := p + 1;
      }
    }

    method EndOfComponent(path: string, p: nat) returns (e: nat)
      requires p < |path| && path[p] != '/'
      ensures p < e <= |path| && Components(path[p..]) == [path[p..e]] + Components(path[e..])
    {
      e := p;
      ghost var s := path[p..];
      while e < |path| && path[e] != '/'
        invariant p <= e <= |path| && CompEnd(s, 0) == CompEnd(s, e - p)
      {
        assert s[e - p] == path[e];
        e := e + 1;
      }
      assert e < |path| ==> s[e - p] == path[e];
      assert CompEnd(s, 0) == e - p && s[0] == path[p];
      assert s[..e - p] == path[p..e] && s[e - p..] == path[e..];
    }

    /** One turn of the lookup: search the locked directory, or let go of it when it may not be searched or
        its read is short. */
    method LookIn(t: Tree, ino: nat, comp: string) returns (ok: bool, next: Option<nat>)
      requires locked == {} && WellFormed(t) && Releasable(refs, ino, t)
      modifies this
      ensures locked == {} && ok == (ino in t.searchable && ino in t.readable)
          && next == if ok then Lookup(Entries(t, ino), comp) else None
      ensures next.Some? ==> next.value in t.linked
      ensures refs == if !ok then Minus(old(refs), ino)
          else if next.Some? then Plus(old(refs), next.value) else old(refs)
    {
      hide WellFormed, Lookup, Plus, Minus, Releasable;
      Ilock(ino);
      ok := ino in t.searchable && ino in t.readable;
      Iunlock(ino);
      if ok {
        next := Search(t, ino, comp);
      } else {
        Iput(ino, t);
        next := None;
      }
    }

    /** The rest of the turn: `stop` says that the parent was wanted and this is the last component. */
    method Follow(t: Tree, ino: nat, comp: string, stop: bool) returns (turn: Turn)
      requires locked == {} && WellFormed(t) && Releasable(refs, ino, t)
      modifies this
      ensures locked == {} && turn == TurnAt(t, ino, comp, stop)
      ensures turn.Go? ==> turn.next in t.linked
      ensures turn.Go? ==> refs == Minus(Plus(old(refs), turn.next), ino)
      ensures turn.Stop? ==> stop && refs == old(refs)
      ensures turn.Fail? ==> !turn.error.Found? && refs == Minus(old(refs), ino)
    {
      hide WellFormed, Lookup, Plus, Minus, Releasable;
      var ok, next := LookIn(t, ino, comp);
      if !ok {
        return Fail(if ino in t.searchable then Eio else Eacces);
      }
      if stop {
        if next.Some? {
          PlusMinus(old(refs), next.value, next.value, t);
          Iput(next.value, t);
        }
        return Stop;
      }
      if next.Some? { PlusMinus(old(refs), ino, next.value, t); }
      Iput(ino, t);
      turn := if next.None? then Fail(Enoent) else Go(next.value);
    }

    /** `nameicore`: what the path names under the component-by-component meaning.  On success the inode
        returned gains exactly one reference and all others none; on an error all references are as they
        were; either way no inode is left locked.  `name` is the last component looked at. */
    method Nameicore(t: Tree, cwd: nat, path: string, parent: bool) returns (r: Outcome, name: Option<string>)
      requires WellFormed(t) && locked == {} && cwd in refs
      modifies this
      ensures r == Resolve(t, cwd, path, parent)
      ensures refs == if r.Found? then Plus(old(refs), r.ino) else old(refs)
      ensures locked == {}
      ensures r.Found? ==> name == LastOf(Components(path))
    {
      var p, ino := 0, cwd;
      name := None;
      assert t.root in t.linked;
      assert path[0..] == path;
      if path != "" && path[0] == '/' {
        Iget(t.root);
        ino := t.root;
        p := SkipSlashes(path, 0);
      } else {
        Iget(cwd);
      }
      ghost var all := Components(path);
      assert Components(path[p..]) == all && Resolve(t, cwd, path, parent) == Walk(t, ino, all, parent);
      WalkEnds(t, ino, parent);
      Exhausted(path, p);
      hide Walk, Resolve, Components, LastOf, WellFormed, TurnAt, Plus, Minus, Releasable;
      while p < |path|
        invariant p <= |path| && (p < |path| ==> path[p] != '/')
        invariant refs == Plus(old(refs), ino) && locked == {}
        invariant ino in t.linked || ino == cwd
        invariant Walk(t, ino, Components(path[p..]), parent) == Resolve(t, cwd, path, parent)
        invariant LastOf(all) == if Components(path[p..]) == [] then name else LastOf(Components(path[p..]))
        decreases |path| - p
      {
        var e := EndOfComponent(path, p);
        ghost var comps, rest := Components(path[p..]), Components(path[e..]);
        var comp := path[p..e];
        WalkStep(t, ino, comps, comp, rest, parent);
        p := SkipSlashes(path, e);
        Exhausted(path, p);
        PlusMinus(old(refs), ino, ino, t);
        var turn := Follow(t, ino, comp, parent && p == |path|);
        if turn.Fail? {
          return turn.error, if turn.error.Enoent? then Some(comp) else name;
        }
        name := Some(comp);
        if turn.Stop? {
          return Found(ino), name;
        }
        PlusMinus(old(refs), ino, turn.next, t);
        ino := turn.next;
      }
      Exhausted(path, p);
      WalkEnds(t, ino, parent);
      r := Found(ino);
    }
  }

  function TurnAt(t: Tree, ino: nat, comp: string, stop: bool): Turn {
    if ino !in t.searchable then Fail(Eacces) else if ino !in t.readable then Fail(Eio) else if stop then Stop
    else match Lookup(Entries(t, ino), comp) case None => Fail(Enoent) case Some(next) => Go(next)
  }

  /** What one component does to the walk. */
  lemma WalkStep(t: Tree, ino: nat, comps: seq<string>, comp: string, rest: seq<string>, parent: bool)
    requires comps == [comp] + rest
    ensures var turn := TurnAt(t, ino, comp, parent && rest == []);
            Walk(t, ino, comps, parent)
            == if turn.Fail? then turn.error else if turn.Stop? then Found(ino)
               else Walk(t, turn.next, rest, parent)
    ensures LastOf(comps) == if rest == [] then Some(comp) else LastOf(rest)
  {
    assert comps[1..] == rest;
  }

  lemma WalkEnds(t: Tree, ino: nat, parent: bool)
    ensures Walk(t, ino, [], parent) == Found(ino) && LastOf([]) == None
  {
  }

  function LastOf(comps: seq<string>): Option<string> { if comps == [] then None else Some(comps[|comps| - 1]) }

  /** At a place that is not a slash, components are left exactly when characters are. */
  lemma Exhausted(path: string, p: nat)
    requires p <= |path| && (p < |path| ==> path[p] != '/')
    ensures Components(path[p..]) == [] <==> p == |path|
  {
  }
}

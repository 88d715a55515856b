/** The inode cache as a value: a table of slots in front of the inode table on disk.  `iget` may sleep
    while it waits for a locked slot and while it reads the disk; the events in between are any others. */
module InodeSpec {
  import opened Numbers
  import opened InodeCodec

  const NUM_INODES := 32

  datatype Slot = Slot(dev: int, ino: nat, locked: bool, wanted: bool, dirty: bool, refs: nat, f: Fields)

  /** `filling` are the slots reserved by an `iget` that is still reading from the disk. */
  datatype State = State(slots: seq<Slot>, filling: set<nat>, maps: nat, disk: Disk)

  datatype Got = Inode(index: nat) | Read(index: nat) | MustSleep(index: nat) | CacheFull

  predicate Names(s: Slot, id: Id) { s.dev == id.dev && s.ino == id.ino }

  /** The first slot that holds the inode, or the size of the table. */
  function Find(slots: seq<Slot>, id: Id, from: nat): (i: nat)
    requires from <= |slots|
    ensures from <= i <= |slots| && (i < |slots| ==> Names(slots[i], id))
    ensures forall j :: from <= j < i ==> !Names(slots[j], id)
    decreases |slots| - from
  {
    if from == |slots| || Names(slots[from], id) then from else Find(slots, id, from + 1)
  }

  predicate Reusable(s: Slot) { s.refs == 0 && !s.dirty }

  function FirstReusable(slots: seq<Slot>, from: nat): (i: nat)
    requires from <= |slots|
    ensures from <= i <= |slots| && (i < |slots| ==> Reusable(slots[i]))
    ensures forall j :: from <= j < i ==> !Reusable(slots[j])
    decreases |slots| - from
  {
    if from == |slots| || Reusable(slots[from]) then from else FirstReusable(slots, from + 1)
  }

  function Put(s: State, i: nat, slot: Slot): State
    requires i < |s.slots|
  {
    s.(slots := s.slots[i := slot])
  }

  function IdOf(s: Slot): Id
    requires s.dev >= 0
  {
    Id(s.dev, s.ino)
  }

  // ------------------------------------------------------------------ operations

  /** `iget` up to the point where it returns, sleeps on a locked slot, or starts to read. */
  function Iget(s: State, id: Id): (State, Got)
    requires |s.slots| == NUM_INODES
  {
    var i := Find(s.slots, id, 0);
    if i < NUM_INODES then
      var slot := s.slots[i];
      if slot.locked then (Put(s, i, slot.(wanted := true)), MustSleep(i))
      else (Put(s, i, slot.(refs := slot.refs + 1, wanted := false)), Inode(i))
    else
      var v := FirstReusable(s.slots, 0);
      if v == NUM_INODES then (s, CacheFull)
      else
        var slot := s.slots[v].(dev := id.dev, ino := id.ino, refs := 1, locked := true, wanted := false,
            dirty := false);
        (Put(s, v, slot).(filling := s.filling + {v}), Read(v))
  }

  /** The rest of `iget` once the block has been read. */
  function Fill(s: State, i: nat): State
    requires i < |s.slots| && s.slots[i].dev >= 0 && s.slots[i].ino >= 1
  {
    var slot := s.slots[i];
    var filled := slot.(f := Load(s.maps, s.disk, IdOf(slot)), locked := false, wanted := false);
    Put(s, i, filled).(filling := s.filling - {i})
  }

  /** The user of an inode changes it. */
  function Change(s: State, i: nat, f: Fields): State
    requires i < |s.slots|
  {
    Put(s, i, s.slots[i].(f := f, dirty := true))
  }

  /** `iupdate`: write a changed inode to its place in the table. */
  function Iupdate(s: State, i: nat): State
    requires i < |s.slots| && s.slots[i].dev >= 0 && s.slots[i].ino >= 1 && |s.slots[i].f.direct| == NDIRECT
  {
    var slot := s.slots[i];
    if !slot.dirty then s
    else Put(s, i, slot.(dirty := false)).(disk := Store(s.maps, s.disk, IdOf(slot), slot.f))
  }

  function Emptied(f: Fields): Fields { f.(direct := seq(NDIRECT, _ => 0), indirect := 0, size := 0) }

  /** `iput`: drop a reference; the last one to an unlinked inode truncates it, frees it and writes it out. */
  function Iput(s: State, i: nat): State
    requires i < |s.slots| && s.slots[i].dev >= 0 && s.slots[i].ino >= 1 && s.slots[i].refs > 0
  {
    var slot := s.slots[i].(refs := s.slots[i].refs - 1);
    if slot.refs == 0 && slot.f.nlinks == 0 then
      Iupdate(Put(s, i, slot.(f := Emptied(slot.f), dirty := true, wanted := false)), i)
    else Put(s, i, slot)
  }

  // ------------------------------------------------------------------ the invariant

  /** Fields that survive the trip to disk. */
  predicate Fits(f: Fields) { |f.direct| == NDIRECT && f.gid < 256 && f.nlinks < 256 }

  predicate SlotInv(s: Slot, filling: bool, maps: nat, disk: Disk) {
    && (s.refs > 0 || s.dirty ==> s.dev >= 0)
    && (filling ==> s.refs > 0 && s.locked && !s.dirty)
    && (s.dev >= 0 ==> s.ino >= 1)
    && (s.dev >= 0 && !filling ==> Fits(s.f) && (!s.dirty ==> s.f == Load(maps, disk, IdOf(s))))
  }

  ghost predicate OneSlotPerInode(slots: seq<Slot>) {
    forall i, j :: 0 <= i < j < |slots| && slots[i].dev >= 0 && slots[j].dev >= 0 ==> IdOf(slots[i]) != IdOf(slots[j])
  }

  ghost predicate Inv(s: State) {
    && |s.slots| == NUM_INODES && OneSlotPerInode(s.slots)
    && forall i :: 0 <= i < NUM_INODES ==> SlotInv(s.slots[i], i in s.filling, s.maps, s.disk)
  }

  /** What the inode is: the cached fields when they are there, else those on disk. */
  function View(s: State, id: Id): Fields
    requires 1 <= id.ino
  {
    var i := Find(s.slots, id, 0);
    if i < |s.slots| && i !in s.filling then s.slots[i].f else Load(s.maps, s.disk, id)
  }

  /** `iget` has handed the inode out, or is about to. */
  predicate Held(s: State, i: nat) {
    i < |s.slots| && s.slots[i].refs > 0 && s.slots[i].dev >= 0 && s.slots[i].ino >= 1
  }

  /** Fit for use by its holder. */
  predicate Usable(s: State, i: nat) { Held(s, i) && i !in s.filling && |s.slots[i].f.direct| == NDIRECT }

  // ------------------------------------------------------------------ events and runs

  datatype Event = EGet(id: Id) | EFill(i: nat) | ELock(i: nat) | EUnlock(i: nat) | EChange(i: nat, f: Fields)
                 | EUpdate(i: nat) | EDup(i: nat) | EPut(i: nat)

  /** When the event can happen.  What the code answers with a panic does not. */
  predicate Enabled(s: State, e: Event) {
    && |s.slots| == NUM_INODES
    && match e
       case EGet(id) => 1 <= id.ino
       case EFill(i) => Held(s, i) && i in s.filling
       case ELock(i) => Usable(s, i) && !s.slots[i].locked
       case EUnlock(i) => Usable(s, i) && s.slots[i].locked
       case EChange(i, f) => Usable(s, i) && Fits(f)
       case EUpdate(i) => Usable(s, i)
       case EDup(i) => Usable(s, i)
       case EPut(i) => Usable(s, i) && !s.slots[i].locked
  }

  function Step(s: State, e: Event): State
    requires Enabled(s, e)
  {
    match e
    case EGet(id) => Iget(s, id).0
    case EFill(i) => Fill(s, i)
    case ELock(i) => Put(s, i, s.slots[i].(locked := true))
    case EUnlock(i) => Put(s, i, s.slots[i].(locked := false, wanted := false))
    case EChange(i, f) => Change(s, i, f)
    case EUpdate(i) => Iupdate(s, i)
    case EDup(i) => Put(s, i, s.slots[i].(refs := s.slots[i].refs + 1))
    case EPut(i) => Iput(s, i)
  }

  /** What the event does to the inode `id` itself: a change, the last release of an unlinked inode, or nothing. */
  function After(s: State, e: Event, id: Id): Fields
    requires Enabled(s, e) && 1 <= id.ino
  {
    match e
    case EChange(i, f) => if Names(s.slots[i], id) then f else View(s, id)
    case EPut(i) =>
      if Names(s.slots[i], id) && s.slots[i].refs == 1 && s.slots[i].f.nlinks == 0 then Emptied(s.slots[i].f)
      else View(s, id)
    case _ => View(s, id)
  }

  // ------------------------------------------------------------------ proofs

  lemma FindIs(slots: seq<Slot>, id: Id, i: nat)
    requires OneSlotPerInode(slots) && i < |slots| && Names(slots[i], id)
    ensures Find(slots, id, 0) == i
  {
    var j := Find(slots, id, 0);
    assert j < |slots| && slots[j].dev >= 0 && IdOf(slots[j]) == IdOf(slots[i]);
  }

  /** A slot changes and keeps its name; only the inode it holds can look different. */
  ghost predicate SameBut(s: State, s': State, i: nat) {
    && i < |s.slots| == |s'.slots| == NUM_INODES && s'.slots == s.slots[i := s'.slots[i]]
    && s'.slots[i].dev == s.slots[i].dev && s'.slots[i].ino == s.slots[i].ino && s'.maps == s.maps
    && (forall j :: j != i ==> (j in s'.filling <==> j in s.filling))
  }

  /** Loads of inodes other than the one in slot `i` give what they gave. */
  ghost predicate SameLoads(s: State, s': State, i: nat)
    requires i < |s.slots|
  {
    forall id: Id :: 1 <= id.ino && !Names(s.slots[i], id) ==> Load(s.maps, s'.disk, id) == Load(s.maps, s.disk, id)
  }

  lemma SameButInv(s: State, s': State, i: nat)
    requires Inv(s) && SameBut(s, s', i) && SameLoads(s, s', i)
    requires SlotInv(s'.slots[i], i in s'.filling, s'.maps, s'.disk)
    ensures Inv(s')
  {
    hide Load;
    forall j | 0 <= j < NUM_INODES
      ensures SlotInv(s'.slots[j], j in s'.filling, s'.maps, s'.disk)
    {
      assert SlotInv(s.slots[j], j in s.filling, s.maps, s.disk);
      if j != i && s.slots[j].dev >= 0 {
        if s.slots[i].dev >= 0 { assert IdOf(s.slots[i]) != IdOf(s.slots[j]); }
        assert !Names(s.slots[i], IdOf(s.slots[j]));
      }
    }
  }

  lemma SameButView(s: State, s': State, i: nat, id: Id)
    requires Inv(s) && SameBut(s, s', i) && SameLoads(s, s', i) && 1 <= id.ino
    ensures !Names(s.slots[i], id) ==> View(s', id) == View(s, id)
    ensures Names(s.slots[i], id) && i !in s.filling ==> View(s, id) == s.slots[i].f
    ensures Names(s.slots[i], id) && i !in s'.filling ==> View(s', id) == s'.slots[i].f
    ensures Names(s.slots[i], id) && i in s.filling ==> View(s, id) == Load(s.maps, s.disk, id)
  {
    hide Load, SlotInv;
    SameNames(s.slots, s'.slots, id, 0);
    if Names(s.slots[i], id) { FindIs(s.slots, id, i); }
  }

  lemma {:induction false} SameNames(slots: seq<Slot>, slots': seq<Slot>, id: Id, from: nat)
    requires from <= |slots| == |slots'| && forall i :: 0 <= i < |slots| ==>
        slots'[i].dev == slots[i].dev && slots'[i].ino == slots[i].ino
    ensures Find(slots', id, from) == Find(slots, id, from)
    decreases |slots| - from
  {
    if from < |slots| && !Names(slots[from], id) { SameNames(slots, slots', id, from + 1); }
  }

  /** Reusing a slot: it held a clean copy, so what it held looks the same from the disk. */
  lemma Reserve(s: State, id: Id, other: Id)
    requires Inv(s) && 1 <= id.ino && 1 <= other.ino && Find(s.slots, id, 0) == NUM_INODES
        && FirstReusable(s.slots, 0) < NUM_INODES
    ensures var s' := Iget(s, id).0; Inv(s') && View(s', other) == View(s, other)
  {
    hide Load;
    var s', v := Iget(s, id).0, FirstReusable(s.slots, 0);
    assert SlotInv(s.slots[v], v in s.filling, s.maps, s.disk);
    forall j | 0 <= j < NUM_INODES && j != v && s.slots[j].dev >= 0
      ensures IdOf(s.slots[j]) != id
    {
      assert !Names(s.slots[j], id);
    }
    ReserveUnique(s.slots, s'.slots, v, id);
    forall j | 0 <= j < NUM_INODES
      ensures SlotInv(s'.slots[j], j in s'.filling, s'.maps, s'.disk)
    {
      assert SlotInv(s.slots[j], j in s.filling, s.maps, s.disk);
    }
    ReserveView(s, s', v, id, other);
  }

  lemma ReserveUnique(slots: seq<Slot>, slots': seq<Slot>, v: nat, id: Id)
    requires OneSlotPerInode(slots) && v < |slots| == |slots'| && slots' == slots[v := slots'[v]]
        && Names(slots'[v], id)
    requires forall j :: 0 <= j < |slots| && j != v && slots[j].dev >= 0 ==> IdOf(slots[j]) != id
    ensures OneSlotPerInode(slots')
  {
  }

  lemma ReserveView(s: State, s': State, v: nat, id: Id, other: Id)
    requires Inv(s) && OneSlotPerInode(s'.slots) && 1 <= other.ino && v < NUM_INODES
        && Find(s.slots, id, 0) == NUM_INODES
    requires |s'.slots| == NUM_INODES && s'.slots == s.slots[v := s'.slots[v]] && Names(s'.slots[v], id)
        && s'.filling == s.filling + {v}
    requires s'.maps == s.maps && s'.disk == s.disk && Reusable(s.slots[v])
    ensures View(s', other) == View(s, other)
  {
    hide Load;
    assert SlotInv(s.slots[v], v in s.filling, s.maps, s.disk);
    var k := Find(s.slots, other, 0);
    if other == id {
      FindIs(s'.slots, id, v);
    } else if k < NUM_INODES && k != v {
      assert Names(s'.slots[k], other);
      FindIs(s'.slots, other, k);
    } else {
      var k' := Find(s'.slots, other, 0);
      assert forall q :: 0 <= q < NUM_INODES && q != v ==> s'.slots[q] == s.slots[q];
    }
  }

  lemma StoreLoads(s: State, i: nat, f: Fields)
    requires i < |s.slots| && s.slots[i].dev >= 0 && s.slots[i].ino >= 1 && Fits(f)
    ensures var d := Store(s.maps, s.disk, IdOf(s.slots[i]), f);
      && Load(s.maps, d, IdOf(s.slots[i])) == f
      && SameLoads(s, s.(disk := d), i)
  {
    var at := IdOf(s.slots[i]);
    var d := Store(s.maps, s.disk, at, f);
    Uncut(f);
    hide Load, Store, Fits, Cut;
    LoadAfterStore(s.maps, s.disk, at, f, at);
    forall id: Id | 1 <= id.ino && !Names(s.slots[i], id)
      ensures Load(s.maps, d, id) == Load(s.maps, s.disk, id)
    {
      LoadAfterStore(s.maps, s.disk, at, f, id);
    }
  }

  lemma Uncut(f: Fields)
    requires Fits(f)
    ensures Cut(f) == f && |f.direct| == NDIRECT
  {
  }

  /** What the event leaves in the slot it touches. */
  ghost predicate Touches(s: State, s': State, i: nat) {
    && SameBut(s, s', i) && SameLoads(s, s', i) && SlotInv(s'.slots[i], i in s'.filling, s'.maps, s'.disk)
  }

  /** A slot that comes out clean with its fields stored. */
  lemma StoredTouches(s: State, i: nat, slot: Slot)
    requires |s.slots| == NUM_INODES && i < NUM_INODES && i !in s.filling
    requires slot.dev == s.slots[i].dev >= 0 && slot.ino == s.slots[i].ino >= 1 && Fits(slot.f) && !slot.dirty
    ensures Touches(s, Put(s, i, slot).(disk := Store(s.maps, s.disk, IdOf(s.slots[i]), slot.f)), i)
  {
    StoreLoads(s, i, slot.f);
    var d := Store(s.maps, s.disk, IdOf(s.slots[i]), slot.f);
    hide Load, Store;
    assert SlotInv(slot, false, s.maps, d);
    hide SlotInv;
  }

  lemma UpdateTouches(s: State, i: nat)
    requires |s.slots| == NUM_INODES && Held(s, i) && i !in s.filling && Fits(s.slots[i].f)
    requires SlotInv(s.slots[i], false, s.maps, s.disk)
    ensures Touches(s, Iupdate(s, i), i)
  {
    hide Load, Store, Touches;
    if s.slots[i].dirty {
      StoredTouches(s, i, s.slots[i].(dirty := false));
    } else {
      SlotTouches(s, i, s.slots[i], s.filling);
      assert s == Put(s, i, s.slots[i]).(filling := s.filling);
    }
  }

  lemma PutTouches(s: State, i: nat)
    requires Inv(s) && Usable(s, i)
    ensures Touches(s, Iput(s, i), i)
  {
    assert SlotInv(s.slots[i], false, s.maps, s.disk);
    hide Inv, SlotInv, Touches;
    if s.slots[i].refs == 1 && s.slots[i].f.nlinks == 0 { PutLast(s, i); } else { PutOne(s, i); }
  }

  lemma PutOne(s: State, i: nat)
    requires |s.slots| == NUM_INODES && Usable(s, i) && SlotInv(s.slots[i], false, s.maps, s.disk)
    requires !(s.slots[i].refs == 1 && s.slots[i].f.nlinks == 0)
    ensures Touches(s, Iput(s, i), i)
  {
    hide Load, Touches;
    SlotTouches(s, i, s.slots[i].(refs := s.slots[i].refs - 1), s.filling);
  }

  lemma PutLast(s: State, i: nat)
    requires |s.slots| == NUM_INODES && Usable(s, i) && SlotInv(s.slots[i], false, s.maps, s.disk)
    requires s.slots[i].refs == 1 && s.slots[i].f.nlinks == 0
    ensures Touches(s, Iput(s, i), i)
  {
    hide Load, Store, Touches;
    var clean := s.slots[i].(refs := 0, f := Emptied(s.slots[i].f), dirty := false, wanted := false);
    StoredTouches(s, i, clean);
    hide SlotInv, Emptied;
    assert Iput(s, i).slots == s.slots[i := clean];
  }

  /** A slot changes and the disk does not. */
  lemma SlotTouches(s: State, i: nat, slot: Slot, filling: set<nat>)
    requires |s.slots| == NUM_INODES && i < NUM_INODES && slot.dev == s.slots[i].dev && slot.ino == s.slots[i].ino
    requires forall j :: j != i ==> (j in filling <==> j in s.filling)
    requires SlotInv(slot, i in filling, s.maps, s.disk)
    ensures Touches(s, Put(s, i, slot).(filling := filling), i)
  {
    hide SlotInv, Load;
  }

  lemma OneSlot(s: State, e: Event, i: nat)
    requires Inv(s) && Enabled(s, e) && i < NUM_INODES
    requires if e.EGet? then Find(s.slots, e.id, 0) == i else i == e.i
    ensures Touches(s, Step(s, e), i)
  {
    assert SlotInv(s.slots[i], i in s.filling, s.maps, s.disk);
    hide Load, Store, Iupdate, Iput, Touches;
    if e.EUpdate? {
      UpdateTouches(s, i);
    } else if e.EPut? {
      PutTouches(s, i);
    } else {
      hide Inv;
      var s' := Step(s, e);
      assert s' == Put(s, i, s'.slots[i]).(filling := s'.filling);
      SlotTouches(s, i, s'.slots[i], s'.filling);
    }
  }

  /** Every event keeps the invariant, and changes no inode but in the way `After` says. */
  lemma StepRefines(s: State, e: Event, id: Id)
    requires Inv(s) && Enabled(s, e) && 1 <= id.ino
    ensures Inv(Step(s, e)) && View(Step(s, e), id) == After(s, e, id)
  {
    var s' := Step(s, e);
    var i := if e.EGet? then Find(s.slots, e.id, 0) else e.i;
    hide Load, Store;
    if i == NUM_INODES {
      if FirstReusable(s.slots, 0) < NUM_INODES { Reserve(s, e.id, id); }
    } else {
      OneSlot(s, e, i);
      SameButInv(s, s', i);
      assert SlotInv(s.slots[i], i in s.filling, s.maps, s.disk);
      hide SlotInv, OneSlotPerInode, Enabled;
      TouchedView(s, e, i, id);
      hide Step, View, After;
    }
  }

  /** What the touched slot shows of its inode. */
  lemma TouchedView(s: State, e: Event, i: nat, id: Id)
    requires Inv(s) && Enabled(s, e) && i < NUM_INODES && 1 <= id.ino
    requires if e.EGet? then Find(s.slots, e.id, 0) == i else i == e.i
    requires Touches(s, Step(s, e), i)
    ensures View(Step(s, e), id) == After(s, e, id)
  {
    var s' := Step(s, e);
    SameButView(s, s', i, id);
    NewFields(s, e, i);
    hide Load, Store, Inv, SameLoads, SameBut, SlotInv, Step, View;
  }

  /** The fields in the touched slot, and whether they are still being read. */
  lemma NewFields(s: State, e: Event, i: nat)
    requires Inv(s) && Enabled(s, e) && i < NUM_INODES
    requires if e.EGet? then Find(s.slots, e.id, 0) == i else i == e.i
    ensures i < |Step(s, e).slots|
    ensures Step(s, e).slots[i].f ==
            if e.EFill? then Load(s.maps, s.disk, IdOf(s.slots[i])) else if e.EChange? then e.f
            else if e.EPut? && s.slots[i].refs == 1 && s.slots[i].f.nlinks == 0 then Emptied(s.slots[i].f)
            else s.slots[i].f
    ensures i in Step(s, e).filling <==> i in s.filling && !e.EFill?
    ensures (e.EFill? ==> i in s.filling) && (e.EChange? || e.EPut? ==> i !in s.filling)
    ensures e.EFill? ==> s.slots[i].dev >= 0
    ensures i in s.filling && e.EGet? ==>
        Load(Step(s, e).maps, Step(s, e).disk, IdOf(s.slots[i])) == Load(s.maps, s.disk, IdOf(s.slots[i]))
  {
    assert SlotInv(s.slots[i], i in s.filling, s.maps, s.disk);
    hide Load, Store, Inv, SlotInv;
  }

  /** A referenced or changed inode stays in its slot, whatever happens. */
  lemma NeverEvicted(s: State, e: Event, i: nat)
    requires Inv(s) && Enabled(s, e) && i < NUM_INODES && (s.slots[i].refs > 0 || s.slots[i].dirty)
    ensures Step(s, e).slots[i].dev == s.slots[i].dev && Step(s, e).slots[i].ino == s.slots[i].ino
    ensures s.slots[i].refs > 0 ==> Step(s, e).slots[i].refs + (if e == EPut(i) then 1 else 0) >= s.slots[i].refs
  {
    hide Load, Store;
  }

  // ------------------------------------------------------------------ runs

  /** The events, one after the other, each possible where it happens. */
  ghost predicate Run(s: State, es: seq<Event>, s': State)
    decreases |es|
  {
    if es == [] then s' == s else Enabled(s, es[0]) && Run(Step(s, es[0]), es[1..], s')
  }

  /** The inode after the run, from the changes alone. */
  function Table(s: State, es: seq<Event>, id: Id, f: Fields): Fields
    requires 1 <= id.ino
    decreases |es|
  {
    if es == [] || !Enabled(s, es[0]) then f
    else
      var e := es[0];
      var wrote := (e.EChange? && Names(s.slots[e.i], id))
          || (e.EPut? && Names(s.slots[e.i], id) && s.slots[e.i].refs == 1 && s.slots[e.i].f.nlinks == 0);
      Table(Step(s, e), es[1..], id, if !wrote then f else if e.EChange? then e.f else Emptied(f))
  }

  /** The cache refines the inode table: through any run an inode is what was last written to it, wherever
      it was cached, evicted, written back or reloaded in between. */
  lemma {:induction false} RunRefines(s: State, es: seq<Event>, s': State, id: Id)
    requires Inv(s) && Run(s, es, s') && 1 <= id.ino
    ensures Inv(s') && View(s', id) == Table(s, es, id, View(s, id))
    decreases |es|
  {
    if es != [] {
      var e := es[0];
      StepRefines(s, e, id);
      RunRefines(Step(s, e), es[1..], s', id);
      if e.EPut? && Names(s.slots[e.i], id) { FindIs(s.slots, id, e.i); }
      hide Inv, Step, Run;
    }
  }

  const NOTHING: Fields := Fields(0, 0, 0, 0, 0, 0, [0, 0, 0, 0, 0, 0, 0], 0, 0)

  function Initial(maps: nat, disk: Disk): State {
    State(seq(NUM_INODES, _ => Slot(NO_DEV, 0, false, false, false, 0, NOTHING)), {}, maps, disk)
  }

  lemma InitialInv(maps: nat, disk: Disk, id: Id)
    requires 1 <= id.ino
    ensures Inv(Initial(maps, disk)) && View(Initial(maps, disk), id) == Load(maps, disk, id)
  {
  }

  /** A file given a group of 256 or more and written out has another group when it is read again. */
  lemma GroupLost(s: State, i: nat, f: Fields)
    requires Inv(s) && Usable(s, i) && |f.direct| == NDIRECT && f.gid >= 256 && f.nlinks < 256
    ensures var s' := Iupdate(Change(s, i, f), i); Load(s'.maps, s'.disk, IdOf(s.slots[i])).gid == f.gid % 256 != f.gid
  {
    hide Load, Store, Inv;
    LoadAfterStore(s.maps, s.disk, IdOf(s.slots[i]), f, IdOf(s.slots[i]));
  }
}

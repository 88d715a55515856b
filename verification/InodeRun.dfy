/** Who holds and who has locked the inodes in memory, over whole runs. */
module InodeRun {
  import opened InodeCodec
  import opened InodeSpec

  /** The slot a caller of `iget` has obtained. */
  function Slots(g: Got): set<nat> {
    match g
    case Inode(i) => {i}
    case Read(i) => {i}
    case _ => {}
  }

  /** Holders gained or lost by slot `i`. */
  function Gain(s: State, e: Event, i: nat): int
    requires Enabled(s, e)
  {
    match e
    case EGet(id) => if i in Slots(Iget(s, id).1) then 1 else 0
    case EDup(j) => if i == j then 1 else 0
    case EPut(j) => if i == j then -1 else 0
    case _ => 0
  }

  function Holders(s: State, es: seq<Event>, i: nat): int
    decreases |es|
  {
    if es == [] || !Enabled(s, es[0]) then 0 else Gain(s, es[0], i) + Holders(Step(s, es[0]), es[1..], i)
  }

  /** Whether slot `i` is locked, by the events: while it is being filled, and from a lock to its unlock. */
  function LockAfter(s: State, e: Event, i: nat, was: bool): bool
    requires Enabled(s, e)
  {
    match e
    case EGet(id) => Iget(s, id).1 == Read(i) || was
    case EFill(j) => i != j && was
    case ELock(j) => i == j || was
    case EUnlock(j) => i != j && was
    case _ => was
  }

  function LockedBy(s: State, es: seq<Event>, i: nat, was: bool): bool
    decreases |es|
  {
    if es == [] || !Enabled(s, es[0]) then was else LockedBy(Step(s, es[0]), es[1..], i, LockAfter(s, es[0], i, was))
  }

  lemma CountStep(s: State, e: Event, i: nat)
    requires Inv(s) && Enabled(s, e) && i < NUM_INODES
    ensures |Step(s, e).slots| == NUM_INODES
    ensures Step(s, e).slots[i].refs == s.slots[i].refs + Gain(s, e, i)
    ensures Step(s, e).slots[i].locked == LockAfter(s, e, i, s.slots[i].locked)
  {
    hide Inv, Load, Store, Emptied;
  }

  lemma {:induction false} RunCounts(s: State, es: seq<Event>, s': State, i: nat)
    requires Inv(s) && Run(s, es, s') && i < NUM_INODES
    ensures Inv(s') && |s'.slots| == NUM_INODES && s'.slots[i].refs == s.slots[i].refs + Holders(s, es, i)
    ensures s'.slots[i].locked == LockedBy(s, es, i, s.slots[i].locked)
    decreases |es|
  {
    if es != [] {
      StepRefines(s, es[0], Id(0, 1));
      CountStep(s, es[0], i);
      hide Inv, Step, Enabled, Gain, LockAfter;
      RunCounts(Step(s, es[0]), es[1..], s', i);
    }
  }

  /** From start-up on, over any run, the count of each inode in memory is the number of those who obtained or
      duplicated it and have not put it, and it is locked exactly from a lock, or from the start of its read, to
      the unlock. */
  lemma HoldersCounted(maps: nat, disk: Disk, es: seq<Event>, s: State, i: nat)
    requires Run(Initial(maps, disk), es, s) && i < NUM_INODES
    ensures Inv(s) && |s.slots| == NUM_INODES && s.slots[i].refs == Holders(Initial(maps, disk), es, i)
    ensures s.slots[i].locked == LockedBy(Initial(maps, disk), es, i, false)
  {
    InitialInv(maps, disk, Id(0, 1));
    RunCounts(Initial(maps, disk), es, s, i);
  }

  /** `iget` of an inode in memory waits for its lock or shares it. */
  lemma GetCached(s: State, id: Id, i: nat)
    requires Inv(s) && 1 <= id.ino && i < NUM_INODES && Names(s.slots[i], id)
    ensures var (s', g) := Iget(s, id);
      && s' == s.(slots := s'.slots) && |s'.slots| == NUM_INODES
      && g == (if s.slots[i].locked then MustSleep(i) else Inode(i))
      && s'.slots == s.slots[i := if s.slots[i].locked then s.slots[i].(wanted := true)
                                 else s.slots[i].(refs := s.slots[i].refs + 1, wanted := false)]
  {
    FindIs(s.slots, id, i);
    hide Inv, OneSlotPerInode;
  }

  /** `iget` of any other takes a slot that nobody holds and that owes the disk nothing, and from then on that
      slot names the inode, locked and to be filled; it fails only if there is no such slot. */
  lemma GetUncached(s: State, id: Id)
    requires Inv(s) && 1 <= id.ino && forall i :: 0 <= i < NUM_INODES ==> !Names(s.slots[i], id)
    ensures var (s', g) := Iget(s, id);
      if forall i :: 0 <= i < NUM_INODES ==> s.slots[i].refs > 0 || s.slots[i].dirty then g == CacheFull && s' == s
      else
        && g.Read? && g.index < NUM_INODES && s.slots[g.index].refs == 0 && !s.slots[g.index].dirty
        && s'.disk == s.disk && s'.filling == s.filling + {g.index} && |s'.slots| == NUM_INODES
        && s'.slots == s.slots[g.index := s'.slots[g.index]]
        && Names(s'.slots[g.index], id) && s'.slots[g.index].locked && s'.slots[g.index].refs == 1
  {
    assert |s.slots| == NUM_INODES && Find(s.slots, id, 0) == NUM_INODES;
    var v := FirstReusable(s.slots, 0);
    assert v < NUM_INODES ==> Reusable(s.slots[v]);
    assert v == NUM_INODES ==> forall i :: 0 <= i < NUM_INODES ==> !Reusable(s.slots[i]);
    hide Inv;
  }

  /** Obtaining an inode and putting it leaves its count as it was. */
  lemma GetThenPut(s: State, id: Id, i: nat, j: nat)
    requires Inv(s) && Enabled(s, EGet(id)) && Iget(s, id).1 == Inode(i) && j < NUM_INODES
    requires Enabled(Step(s, EGet(id)), EPut(i))
    ensures var s' := Step(Step(s, EGet(id)), EPut(i)); |s'.slots| == NUM_INODES && s'.slots[j].refs == s.slots[j].refs
  {
    StepRefines(s, EGet(id), Id(0, 1));
    CountStep(s, EGet(id), j);
    CountStep(Step(s, EGet(id)), EPut(i), j);
    hide Step, Enabled;
  }

  /** After `iupdate` the disk has the inode as it is in memory. */
  lemma UpdateReachesDisk(s: State, i: nat)
    requires Inv(s) && Enabled(s, EUpdate(i))
    ensures var s' := Step(s, EUpdate(i)); Load(s'.maps, s'.disk, IdOf(s.slots[i])) == s.slots[i].f
  {
    UpdateTouches(s, i);
    SlotOf(s, i);
    var s' := Step(s, EUpdate(i));
    StepRefines(s, EUpdate(i), IdOf(s.slots[i]));
    SlotOf(s', i);
    hide Inv, Load, Store;
    assert !s'.slots[i].dirty && s'.slots[i].f == s.slots[i].f;
  }

  lemma SlotOf(s: State, i: nat)
    requires Inv(s) && i < NUM_INODES
    ensures |s.slots| == NUM_INODES && SlotInv(s.slots[i], i in s.filling, s.maps, s.disk)
  {
  }

  /** The last put of an unlinked inode leaves it without zones and without contents, in memory and on disk,
      and otherwise as it was. */
  lemma LastPut(s: State, i: nat)
    requires Inv(s) && Enabled(s, EPut(i)) && s.slots[i].refs == 1 && s.slots[i].f.nlinks == 0
    ensures var s', f := Step(s, EPut(i)), s.slots[i].f.(direct := [0, 0, 0, 0, 0, 0, 0], indirect := 0, size := 0);
      && |s'.slots| == NUM_INODES && s'.slots[i].f == f && Load(s'.maps, s'.disk, IdOf(s.slots[i])) == f
  {
    assert Emptied(s.slots[i].f).direct == [0, 0, 0, 0, 0, 0, 0];
    SlotOf(s, i);
    var s' := Step(s, EPut(i));
    StepRefines(s, EPut(i), IdOf(s.slots[i]));
    SlotOf(s', i);
    hide Inv, Load, Store;
    assert s'.slots[i] == s.slots[i].(refs := 0, f := Emptied(s.slots[i].f), dirty := false, wanted := false);
  }
}

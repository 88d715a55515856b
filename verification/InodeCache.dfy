/** The kernel's table of inodes, updated in place. */
module InodeCache {
  import opened Numbers
  import opened InodeCodec
  import opened InodeSpec

  class InodeCache {
    const inodes: array<Slot>
    const maps: nat
    var disk: Disk
    ghost var filling: set<nat>

    ghost function Now(): State
      reads this, inodes
    {
      State(inodes[..], filling, maps, disk)
    }

    ghost predicate Valid()
      reads this, inodes
    {
      inodes.Length == NUM_INODES && Inv(Now())
    }

    /** `inode_init`. */
    constructor (maps: nat, disk: Disk)
      ensures Valid() && Now() == Initial(maps, disk) && fresh(inodes)
    {
      inodes := new Slot[NUM_INODES](_ => Slot(NO_DEV, 0, false, false, false, 0, NOTHING));
      this.maps, this.disk, filling := maps, disk, {};
      new;
      assert inodes[..] == Initial(maps, disk).slots;
      InitialInv(maps, disk, Id(0, 1));
    }

    /** `iget` until it has the inode, sleeps on a locked slot and starts again, or goes to the disk. */
    method Iget(id: Id) returns (g: Got)
      requires Valid() && 1 <= id.ino
      modifies inodes, this`filling
      ensures Valid() && (Now(), g) == InodeSpec.Iget(old(Now()), id)
    {
      GetKeepsInv(Now(), id);
      hide Inv, View, Load;
      var i := Search(id);
      if i < NUM_INODES {
        g := Hit(i);
      } else {
        g := Miss(id);
      }
    }

    /** The slot that holds the inode, if one does. */
    method Search(id: Id) returns (i: nat)
      requires inodes.Length == NUM_INODES
      ensures i == Find(inodes[..], id, 0)
    {
      i := 0;
      while i < NUM_INODES
        invariant i <= NUM_INODES && Find(inodes[..], id, 0) == Find(inodes[..], id, i)
      {
        if inodes[i].dev == id.dev && inodes[i].ino == id.ino {
          return;
        }
        i := i + 1;
      }
    }

    /** The slot of a cached inode: wait for it, or take one more reference. */
    method Hit(i: nat) returns (g: Got)
      requires inodes.Length == NUM_INODES && i < NUM_INODES
      modifies inodes
      ensures var slot := old(inodes[i]);
        if slot.locked then g == MustSleep(i) && inodes[..] == old(inodes[..])[i := slot.(wanted := true)]
        else g == Inode(i) && inodes[..] == old(inodes[..])[i := slot.(refs := slot.refs + 1, wanted := false)]
    {
      ghost var slots := inodes[..];
      if inodes[i].locked {
        inodes[i] := inodes[i].(wanted := true);
        g := MustSleep(i);
      } else {
        inodes[i] := inodes[i].(locked := true, refs := inodes[i].refs + 1);
        inodes[i] := inodes[i].(locked := false, wanted := false);
        g := Inode(i);
      }
      assert inodes[..] == slots[i := inodes[i]];
    }

    /** No slot holds the inode: reserve the first one free for reuse, locked, before going to the disk. */
    method Miss(id: Id) returns (g: Got)
      requires inodes.Length == NUM_INODES && Find(inodes[..], id, 0) == NUM_INODES
      modifies inodes, this`filling
      ensures (Now(), g) == InodeSpec.Iget(old(Now()), id)
    {
      ghost var slots := inodes[..];
      var i := 0;
      while i < NUM_INODES
        invariant i <= NUM_INODES && FirstReusable(slots, 0) == FirstReusable(slots, i)
      {
        if inodes[i].refs == 0 && !inodes[i].dirty {
          inodes[i] := inodes[i].(dev := id.dev, ino := id.ino, refs := 1, locked := true, wanted := false,
              dirty := false);
          filling := filling + {i};
          assert inodes[..] == slots[i := inodes[i]];
          return Read(i);
        }
        i := i + 1;
      }
      return CacheFull;
    }

    /** The end of `iget`: the fields come from the disk and the slot is unlocked. */
    method Fill(i: nat)
      requires Valid() && Held(Now(), i) && i in filling
      modifies inodes, this`filling
      ensures Valid() && Now() == InodeSpec.Fill(old(Now()), i)
    {
      ghost var s := Now();
      StepRefines(s, EFill(i), IdOf(inodes[i]));
      hide Inv, View, Load;
      inodes[i] := inodes[i].(f := Load(maps, disk, IdOf(inodes[i])));
      inodes[i] := inodes[i].(locked := false, wanted := false);
      filling := filling - {i};
      assert inodes[..] == s.slots[i := inodes[i]];
    }

    /** The holder of an inode changes its fields. */
    method Change(i: nat, f: Fields)
      requires Valid() && Usable(Now(), i) && Fits(f)
      modifies inodes
      ensures Valid() && Now() == InodeSpec.Change(old(Now()), i, f)
    {
      ghost var s := Now();
      StepRefines(s, EChange(i, f), IdOf(inodes[i]));
      hide Inv, View, Load;
      inodes[i] := inodes[i].(f := f, dirty := true);
      assert inodes[..] == s.slots[i := inodes[i]];
    }

    method WriteOut(i: nat)
      requires inodes.Length == NUM_INODES && i < NUM_INODES && inodes[i].dev >= 0 && inodes[i].ino >= 1
          && |inodes[i].f.direct| == NDIRECT
      modifies inodes, this`disk
      ensures Now() == InodeSpec.Iupdate(old(Now()), i)
    {
      hide Store, Load;
      ghost var slots := inodes[..];
      if !inodes[i].dirty {
        return;
      }
      disk := Store(maps, disk, IdOf(inodes[i]), inodes[i].f);
      inodes[i] := inodes[i].(dirty := false);
      assert inodes[..] == slots[i := inodes[i]];
    }

    /** `iupdate`. */
    method Iupdate(i: nat)
      requires Valid() && Usable(Now(), i)
      modifies inodes, this`disk
      ensures Valid() && Now() == InodeSpec.Iupdate(old(Now()), i)
    {
      StepRefines(Now(), EUpdate(i), IdOf(inodes[i]));
      hide Inv, View, Load, InodeSpec.Iupdate;
      WriteOut(i);
    }

    /** `iput`; the zones and the number of the inode go back to maps that are not kept here. */
    method Iput(i: nat)
      requires Valid() && Usable(Now(), i) && !inodes[i].locked
      modifies inodes, this`disk
      ensures Valid() && Now() == InodeSpec.Iput(old(Now()), i)
    {
      ghost var s := Now();
      PutKeepsInv(s, i);
      hide Inv, View, Load, Store;
      inodes[i] := inodes[i].(refs := inodes[i].refs - 1);
      assert inodes[..] == s.slots[i := inodes[i]];
      if inodes[i].refs == 0 && inodes[i].f.nlinks == 0 {
        Empty(i);
        assert inodes[..] == s.slots[i := inodes[i]];
        WriteOut(i);
      }
    }

    /** The slot as truncation leaves it, to be written out. */
    method Empty(i: nat)
      requires inodes.Length == NUM_INODES && i < NUM_INODES
      modifies inodes
      ensures inodes[..] == old(inodes[..])
          [i := old(inodes[i]).(f := Emptied(old(inodes[i]).f), dirty := true, wanted := false)]
    {
      ghost var slots := inodes[..];
      inodes[i] := inodes[i].(f := Emptied(inodes[i].f), dirty := true, wanted := false);
      assert inodes[..] == slots[i := inodes[i]];
    }
  }

  lemma GetKeepsInv(s: State, id: Id)
    requires Inv(s) && 1 <= id.ino
    ensures Inv(InodeSpec.Iget(s, id).0)
  {
    StepRefines(s, EGet(id), id);
    hide Inv, View, InodeSpec.Iget;
  }

  lemma PutKeepsInv(s: State, i: nat)
    requires Inv(s) && Usable(s, i) && !s.slots[i].locked
    ensures Inv(InodeSpec.Iput(s, i))
  {
    StepRefines(s, EPut(i), IdOf(s.slots[i]));
    hide Inv, View, InodeSpec.Iput;
  }
}

/** The layers put on top of each other: the file system that is seen through the buffer cache, the inode
    cache and the zone map, and what each event below does to it. */
module Layers {
  import opened Numbers
  import opened Wrappers
  import FsSpec
  import FsData
  import FsTrunc
  import BufSpec
  import BufRun
  import InodeCodec
  import InodeSpec
  import Bitmap
  import ZoneRefine

  /** One device: its blocks behind the buffer cache, its inodes behind theirs, its zone map, and the
      numbers of the inodes in use. */
  datatype System = System(cache: BufSpec.Cache, inodes: InodeSpec.State, zmap: seq<Octet>, dev: nat, first: nat,
      nzones: nat, files: set<nat>)

  function AsBytes(b: seq<Octet>): seq<Byte> { seq(|b|, i requires 0 <= i < |b| => b[i] as int) }

  function Contents(y: System, z: nat): seq<Byte> { AsBytes(BufSpec.View(y.cache, BufSpec.Key(y.dev, z))) }

  /** Where an inode says its file is. */
  function Place(f: InodeCodec.Fields): FsSpec.Inode {
    FsSpec.Inode(f.direct, f.indirect, if f.size < 0 then 0 else f.size)
  }

  function PlaceOf(y: System, ino: nat): FsSpec.Inode {
    if ino == 0 then FsTrunc.Empty() else Place(InodeSpec.View(y.inodes, InodeCodec.Id(y.dev, ino)))
  }

  /** The file system these make up. */
  function FsOf(y: System): FsSpec.Fs
    requires 0 < y.first
  {
    FsSpec.Fs(seq(y.nzones, z requires 0 <= z < y.nzones => Contents(y, z)),
              ZoneRefine.TakenZones(y.zmap, y.first), y.first,
              map ino | ino in y.files :: PlaceOf(y, ino))
  }

  /** Part by part. */
  lemma FsParts(y: System)
    requires 0 < y.first
    ensures var fs := FsOf(y);
      && |fs.zones| == y.nzones && (forall z: nat :: z < y.nzones ==> fs.zones[z] == Contents(y, z))
      && fs.taken == ZoneRefine.TakenZones(y.zmap, y.first) && fs.first == y.first
      && fs.inodes.Keys == y.files && forall ino :: ino in y.files ==> fs.inodes[ino] == PlaceOf(y, ino)
  {
    hide Contents, PlaceOf;
  }

  lemma SameParts(fs: FsSpec.Fs, fs': FsSpec.Fs)
    requires |fs.zones| == |fs'.zones| && forall z :: 0 <= z < |fs.zones| ==> fs.zones[z] == fs'.zones[z]
    requires fs.taken == fs'.taken && fs.first == fs'.first
    requires fs.inodes.Keys == fs'.inodes.Keys && forall ino :: ino in fs.inodes ==> fs.inodes[ino] == fs'.inodes[ino]
    ensures fs == fs'
  {
    assert fs.zones == fs'.zones && fs.inodes == fs'.inodes;
  }

  /** Nothing but the contents of the zones and the places of the files counts. */
  ghost predicate Alike(y: System, y': System) {
    && y' == y.(cache := y'.cache, inodes := y'.inodes) && 0 < y.first
    && (y'.cache == y.cache || y'.inodes == y.inodes)
  }

  lemma SameFs(y: System, y': System)
    requires Alike(y, y')
    requires y'.cache != y.cache ==> forall z: nat :: z < y.nzones ==> Contents(y', z) == Contents(y, z)
    requires y'.inodes != y.inodes ==> forall ino :: ino in y.files ==> PlaceOf(y', ino) == PlaceOf(y, ino)
    ensures FsOf(y') == FsOf(y)
  {
    Unmoved(y, y');
    hide Contents, PlaceOf;
    assert FsOf(y').zones == FsOf(y).zones && FsOf(y').inodes == FsOf(y).inodes;
  }

  lemma Unmoved(y: System, y': System)
    requires y'.dev == y.dev
    ensures y'.cache == y.cache ==> forall z: nat :: Contents(y', z) == Contents(y, z)
    ensures y'.inodes == y.inodes ==> forall ino: nat :: PlaceOf(y', ino) == PlaceOf(y, ino)
  {
  }

  lemma OneZone(y: System, y': System, at: nat, b: seq<Byte>)
    requires Alike(y, y') && y'.inodes == y.inodes && at < y.nzones
    requires forall z: nat :: z < y.nzones ==> Contents(y', z) == if z == at then b else Contents(y, z)
    ensures FsOf(y') == FsData.PutBlock(FsOf(y), at, b)
  {
    Unmoved(y, y');
    hide Contents, PlaceOf;
    assert FsOf(y').zones == FsOf(y).zones[at := b] && FsOf(y').inodes == FsOf(y).inodes;
  }

  lemma OnePlace(y: System, y': System, at: nat, p: FsSpec.Inode)
    requires Alike(y, y') && y'.cache == y.cache && at in y.files
    requires forall ino :: ino in y.files ==> PlaceOf(y', ino) == if ino == at then p else PlaceOf(y, ino)
    ensures FsOf(y') == FsOf(y).(inodes := FsOf(y).inodes[at := p])
  {
    Unmoved(y, y');
    hide Contents, PlaceOf;
    assert FsOf(y').zones == FsOf(y).zones && FsOf(y').inodes == FsOf(y).inodes[at := p];
  }

  /** Fetching, sharing, recycling, writing back and releasing buffers are not seen above. */
  lemma CacheUnseen(y: System, e: BufRun.Event)
    requires 0 < y.first && BufSpec.Inv(y.cache) && BufRun.Enabled(y.cache, e) && !e.Change?
    ensures FsOf(y.(cache := BufRun.Step(y.cache, e))) == FsOf(y)
  {
    var y' := y.(cache := BufRun.Step(y.cache, e));
    forall z: nat | z < y.nzones
      ensures Contents(y', z) == Contents(y, z)
    {
      BufRun.StepRefines(y.cache, e, BufSpec.Key(y.dev, z));
    }
    hide BufRun.Step, Contents, PlaceOf, FsOf;
    SameFs(y, y');
  }

  /** Changing the buffer of a zone is replacing that block. */
  lemma CacheChange(y: System, i: nat, data: seq<Octet>, dirty: bool)
    requires 0 < y.first && BufSpec.Inv(y.cache) && BufRun.Enabled(y.cache, BufRun.Change(i, data, dirty))
    requires y.cache.bufs[i].key.dev == y.dev && y.cache.bufs[i].key.block < y.nzones
    ensures FsOf(y.(cache := BufSpec.Modify(y.cache, i, data, dirty)))
         == FsData.PutBlock(FsOf(y), y.cache.bufs[i].key.block, AsBytes(data))
  {
    var y' := y.(cache := BufSpec.Modify(y.cache, i, data, dirty));
    var at := y.cache.bufs[i].key.block;
    forall z: nat | z < y.nzones
      ensures Contents(y', z) == if z == at then AsBytes(data) else Contents(y, z)
    {
      BufRun.StepRefines(y.cache, BufRun.Change(i, data, dirty), BufSpec.Key(y.dev, z));
    }
    hide BufSpec.Modify, AsBytes, Contents, PlaceOf, FsOf;
    OneZone(y, y', at, AsBytes(data));
  }

  /** Whether the event writes an inode: a change, or the last release of an unlinked one. */
  predicate Writes(s: InodeSpec.State, e: InodeSpec.Event)
    requires InodeSpec.Enabled(s, e)
  {
    e.EChange? || (e.EPut? && s.slots[e.i].refs == 1 && s.slots[e.i].f.nlinks == 0)
  }

  /** Looking up, caching, evicting, locking and writing out inodes are not seen above. */
  lemma InodesUnseen(y: System, e: InodeSpec.Event)
    requires 0 < y.first && InodeSpec.Inv(y.inodes) && InodeSpec.Enabled(y.inodes, e) && !Writes(y.inodes, e)
    ensures FsOf(y.(inodes := InodeSpec.Step(y.inodes, e))) == FsOf(y)
  {
    var y' := y.(inodes := InodeSpec.Step(y.inodes, e));
    hide InodeSpec.Inv, InodeSpec.Enabled, InodeSpec.Step, Writes;
    forall ino | ino in y.files
      ensures PlaceOf(y', ino) == PlaceOf(y, ino)
    {
      if ino != 0 { SameView(y.inodes, e, InodeCodec.Id(y.dev, ino)); }
      hide InodeSpec.View, Place;
    }
    hide PlaceOf, Contents, FsOf;
    SameFs(y, y');
  }

  lemma SameView(s: InodeSpec.State, e: InodeSpec.Event, id: InodeCodec.Id)
    requires InodeSpec.Inv(s) && InodeSpec.Enabled(s, e) && !Writes(s, e) && 1 <= id.ino
    ensures InodeSpec.View(InodeSpec.Step(s, e), id) == InodeSpec.View(s, id)
  {
    InodeSpec.StepRefines(s, e, id);
    hide InodeSpec.Step, InodeSpec.View, InodeSpec.Inv;
  }

  /** Changing the fields of an inode in use moves that file and no other. */
  lemma InodeChange(y: System, i: nat, f: InodeCodec.Fields)
    requires 0 < y.first && InodeSpec.Inv(y.inodes) && InodeSpec.Enabled(y.inodes, InodeSpec.EChange(i, f))
    requires y.inodes.slots[i].dev == y.dev && y.inodes.slots[i].ino in y.files
    ensures FsOf(y.(inodes := InodeSpec.Change(y.inodes, i, f)))
         == FsOf(y).(inodes := FsOf(y).inodes[y.inodes.slots[i].ino := Place(f)])
  {
    var y' := y.(inodes := InodeSpec.Change(y.inodes, i, f));
    var at := y.inodes.slots[i].ino;
    hide InodeSpec.Inv, InodeSpec.Enabled, InodeSpec.Change, PlaceOf, Place, Contents;
    forall ino | ino in y.files
      ensures PlaceOf(y', ino) == if ino == at then Place(f) else PlaceOf(y, ino)
    {
      PlaceChanged(y, i, f, ino);
    }
    hide FsOf;
    OnePlace(y, y', at, Place(f));
  }

  lemma PlaceChanged(y: System, i: nat, f: InodeCodec.Fields, ino: nat)
    requires InodeSpec.Inv(y.inodes) && InodeSpec.Enabled(y.inodes, InodeSpec.EChange(i, f))
        && y.inodes.slots[i].dev == y.dev
    ensures PlaceOf(y.(inodes := InodeSpec.Change(y.inodes, i, f)), ino)
         == if ino == y.inodes.slots[i].ino then Place(f) else PlaceOf(y, ino)
  {
    assert InodeSpec.SlotInv(y.inodes.slots[i], i in y.inodes.filling, y.inodes.maps, y.inodes.disk);
    if ino != 0 { ChangedView(y.inodes, i, f, InodeCodec.Id(y.dev, ino)); }
    hide InodeSpec.Inv, InodeSpec.View, InodeSpec.Change, Place;
  }

  lemma ChangedView(s: InodeSpec.State, i: nat, f: InodeCodec.Fields, id: InodeCodec.Id)
    requires InodeSpec.Inv(s) && InodeSpec.Enabled(s, InodeSpec.EChange(i, f)) && 1 <= id.ino
    ensures InodeSpec.View(InodeSpec.Change(s, i, f), id)
         == if InodeSpec.Names(s.slots[i], id) then f else InodeSpec.View(s, id)
  {
    InodeSpec.StepRefines(s, InodeSpec.EChange(i, f), id);
    hide InodeSpec.View, InodeSpec.Inv;
  }

  /** The system after the last release of the inode in slot `i`, unlinked: its zones, in any order, and its
      number have been freed, and the inode written out. */
  function Released(y: System, i: nat, zs: seq<nat>): System
    requires 0 < y.first && InodeSpec.Enabled(y.inodes, InodeSpec.EPut(i))
    requires ZoneRefine.InMap(y.zmap, y.first, zs)
  {
    y.(inodes := InodeSpec.Step(y.inodes, InodeSpec.EPut(i)), zmap := ZoneRefine.Freed(y.zmap, y.first, zs),
       files := y.files - {y.inodes.slots[i].ino})
  }

  /** The zones to free are all marked in the map. */
  lemma ZonesMarked(y: System, at: nat, z: nat)
    requires 0 < y.first && FsSpec.Inv(FsOf(y)) && at in y.files && z in FsTrunc.ZonesOf(FsOf(y), at)
    ensures y.first - 1 <= z < y.first - 1 + 8 * |y.zmap| && ZoneRefine.ZoneTaken(y.zmap, y.first, z)
  {
    FsTrunc.ZonesTaken(FsOf(y), at);
    assert z in ZoneRefine.TakenZones(y.zmap, y.first);
  }

  /** The last release of an unlinked inode is a truncation: its zones are free, its number is out of use,
      every other file is as it was, and the file system is in order. */
  lemma ReleaseEmpties(y: System, i: nat, zs: seq<nat>)
    requires 0 < y.first && InodeSpec.Inv(y.inodes) && InodeSpec.Enabled(y.inodes, InodeSpec.EPut(i))
    requires y.inodes.slots[i].refs == 1 && y.inodes.slots[i].f.nlinks == 0
    requires y.inodes.slots[i].dev == y.dev && y.inodes.slots[i].ino in y.files && FsSpec.Inv(FsOf(y))
    requires (set z | z in zs) == FsTrunc.ZonesOf(FsOf(y), y.inodes.slots[i].ino)
    ensures ZoneRefine.InMap(y.zmap, y.first, zs)
    ensures var fs, fs', at := FsOf(y), FsOf(Released(y, i, zs)), y.inodes.slots[i].ino;
      && fs' == FsTrunc.Dropped(FsTrunc.Truncated(fs, at), at) && FsSpec.Inv(fs')
      && forall j :: j in fs.inodes && j != at ==> FsSpec.File(fs', j) == FsSpec.File(fs, j)
  {
    var fs, at := FsOf(y), y.inodes.slots[i].ino;
    AllMarked(y, at, zs);
    FsTrunc.TruncateKeeps(fs, at);
    hide InodeSpec.Inv, InodeSpec.Enabled, InodeSpec.Step, FsSpec.Inv;
    PlacesLeft(y, i, zs);
    ReleasedFs(y, Released(y, i, zs), at, zs);
    hide FsOf, Released;
    FsTrunc.DropKeeps(FsTrunc.Truncated(fs, at), at);
  }

  lemma AllMarked(y: System, at: nat, zs: seq<nat>)
    requires 0 < y.first && FsSpec.Inv(FsOf(y)) && at in y.files && (set z | z in zs) == FsTrunc.ZonesOf(FsOf(y), at)
    ensures ZoneRefine.InMap(y.zmap, y.first, zs)
  {
    hide FsSpec.Inv, FsOf, FsTrunc.ZonesOf;
    forall k | 0 <= k < |zs|
      ensures y.first - 1 <= zs[k] < y.first - 1 + 8 * |y.zmap|
    {
      assert zs[k] in (set z | z in zs);
      ZonesMarked(y, at, zs[k]);
    }
  }

  lemma ReleasedFs(y: System, y': System, at: nat, zs: seq<nat>)
    requires 0 < y.first && at in y.files && FsSpec.Shaped(FsOf(y)) && ZoneRefine.InMap(y.zmap, y.first, zs)
    requires y' == y.(inodes := y'.inodes, zmap := ZoneRefine.Freed(y.zmap, y.first, zs), files := y.files - {at})
    requires forall z: nat :: Contents(y', z) == Contents(y, z)
    requires forall ino :: ino in y.files && ino != at ==> PlaceOf(y', ino) == PlaceOf(y, ino)
    requires (set z | z in zs) == FsTrunc.ZonesOf(FsOf(y), at)
    ensures FsOf(y') == FsTrunc.Dropped(FsTrunc.Truncated(FsOf(y), at), at)
  {
    ZoneRefine.FreedRefines(y.zmap, y.first, zs);
    FsParts(y);
    FsParts(y');
    hide FsOf, FsSpec.Shaped, FsTrunc.ZonesOf, Contents, PlaceOf, ZoneRefine.Freed, ZoneRefine.InMap;
    SameParts(FsOf(y'), FsTrunc.Dropped(FsTrunc.Truncated(FsOf(y), at), at));
  }

  lemma PlacesLeft(y: System, i: nat, zs: seq<nat>)
    requires 0 < y.first && InodeSpec.Inv(y.inodes) && InodeSpec.Enabled(y.inodes, InodeSpec.EPut(i))
    requires y.inodes.slots[i].dev == y.dev && ZoneRefine.InMap(y.zmap, y.first, zs)
    ensures forall z: nat :: Contents(Released(y, i, zs), z) == Contents(y, z)
    ensures forall ino :: ino in y.files && ino != y.inodes.slots[i].ino ==>
        PlaceOf(Released(y, i, zs), ino) == PlaceOf(y, ino)
  {
    forall ino | ino in y.files && ino != y.inodes.slots[i].ino
      ensures PlaceOf(Released(y, i, zs), ino) == PlaceOf(y, ino)
    {
      if ino != 0 { InodeSpec.StepRefines(y.inodes, InodeSpec.EPut(i), InodeCodec.Id(y.dev, ino)); }
      hide InodeSpec.Step, InodeSpec.View, InodeSpec.Inv, Place;
    }
  }

  /** Until its number is given out again the inode is there, and empty. */
  lemma ReleasedEmpty(y: System, i: nat)
    requires InodeSpec.Inv(y.inodes) && InodeSpec.Enabled(y.inodes, InodeSpec.EPut(i)) && y.inodes.slots[i].dev == y.dev
    requires y.inodes.slots[i].refs == 1 && y.inodes.slots[i].f.nlinks == 0
    ensures PlaceOf(y.(inodes := InodeSpec.Step(y.inodes, InodeSpec.EPut(i))), y.inodes.slots[i].ino) == FsTrunc.Empty()
  {
    var s, f := y.inodes, y.inodes.slots[i].f;
    assert InodeSpec.SlotInv(s.slots[i], i in s.filling, s.maps, s.disk);
    InodeSpec.StepRefines(s, InodeSpec.EPut(i), InodeCodec.Id(y.dev, s.slots[i].ino));
    assert InodeSpec.Emptied(f).direct == [0, 0, 0, 0, 0, 0, 0];
    hide InodeSpec.Step, InodeSpec.View, InodeSpec.Inv;
  }

  /** Marking the first free bit of the map takes the zone the file system takes next. */
  lemma ZoneTaken(y: System)
    requires 0 < y.first <= y.nzones <= y.first - 1 + 8 * |y.zmap| && 0 < |y.zmap| && Bitmap.Taken(y.zmap, 0)
    requires forall u: nat :: y.nzones - (y.first - 1) <= u < 8 * |y.zmap| ==> Bitmap.Taken(y.zmap, u)
    requires FsSpec.Shaped(FsOf(y)) && FsSpec.Head(FsOf(y)) != 0
    ensures var u := Bitmap.FirstFree(y.zmap, 0);
      && u < 8 * |y.zmap| && FsSpec.Head(FsOf(y)) == y.first - 1 + u
      && FsOf(y.(zmap := Bitmap.SetBit(y.zmap, u))) == FsOf(y).(taken := FsOf(y).taken + {FsSpec.Head(FsOf(y))})
  {
    ZoneRefine.BallocRefines(y.zmap, y.first, y.nzones);
    var u := Bitmap.FirstFree(y.zmap, 0);
    assert u < 8 * |y.zmap|;
    var y' := y.(zmap := Bitmap.SetBit(y.zmap, u));
    hide Bitmap.Taken, Bitmap.SetBit, ZoneRefine.TakenZones;
    assert forall z: nat :: z < y.nzones ==> Contents(y', z) == Contents(y, z);
    assert FsOf(y').zones == FsOf(y).zones && FsOf(y').inodes == FsOf(y).inodes;
  }
}

/** The process protocol of a non-preemptive kernel: fork, exit, wait, sleep and wakeup as steps of
    a state machine over the process table, with the history of exits and deliveries. */
module ProcSpec {
  import opened Numbers
  import opened Wrappers

  const PID_LIMIT := 0x7FFF
  const INIT := 0                      // slot of the init process

  datatype Status = Unused | Idle | Running | Sleeping | Zombie

  /** A wait channel: the address of a process slot, or any other kernel address. */
  datatype Channel = Slot(slot: nat) | Other(address: nat)

  datatype Proc = Proc(state: Status, pid: nat, parent: Option<nat>, wchan: Option<Channel>, exitStatus: int)

  const BLANK := Proc(Unused, 0, None, None, 0)

  datatype Delivery = Delivery(status: int, receiver: nat)

  /** The table, the next pid, and history: who forked each pid, what each exited pid returned, and
      what `wait` has delivered to whom. */
  datatype Kernel = Kernel(procs: seq<Proc>, nextpid: nat,
                           forkedBy: map<nat, nat>, exited: map<nat, int>, delivered: map<nat, Delivery>)

  datatype Event =
    | Fork(cur: nat)
    | Exit(cur: nat, status: int)
    | Wait(cur: nat)
    | Sleep(cur: nat, address: nat)
    | WakeOther(address: nat)

  // ------------------------------------------------------------------ the operations

  function WakeOne(p: Proc, c: Channel): Proc {
    if p.state == Sleeping && p.wchan == Some(c) then p.(state := Running, wchan := None) else p
  }

  function Wakeup(procs: seq<Proc>, c: Channel): (r: seq<Proc>)
    ensures |r| == |procs| && forall i :: 0 <= i < |procs| ==> r[i] == WakeOne(procs[i], c)
  {
    seq(|procs|, i requires 0 <= i < |procs| => WakeOne(procs[i], c))
  }

  /** The first unused slot, or the size of the table. */
  function FreeSlot(procs: seq<Proc>, from: nat): (i: nat)
    requires from <= |procs|
    ensures from <= i <= |procs| && (forall j :: from <= j < i ==> procs[j].state != Unused)
    ensures i < |procs| ==> procs[i].state == Unused
    decreases |procs| - from
  {
    if from == |procs| || procs[from].state == Unused then from else FreeSlot(procs, from + 1)
  }

  function ForkStep(k: Kernel, cur: nat): Kernel
    requires cur < |k.procs|
  {
    var i := FreeSlot(k.procs, 0);
    if i == |k.procs| then k
    else if k.nextpid == PID_LIMIT then k.(procs := k.procs[i := BLANK])
    else k.(procs := k.procs[i := Proc(Running, k.nextpid, Some(cur), None, 0)], nextpid := k.nextpid + 1,
            forkedBy := k.forkedBy[k.nextpid := k.procs[cur].pid])
  }

  function Adopt(p: Proc, cur: nat): Proc {
    if p.parent == Some(cur) then p.(parent := Some(INIT)) else p
  }

  /** Children pass to init, which is woken when one of them is already a zombie. */
  function Reparent(procs: seq<Proc>, cur: nat): (r: seq<Proc>)
    ensures |r| == |procs|
  {
    var adopted := seq(|procs|, i requires 0 <= i < |procs| => Adopt(procs[i], cur));
    if exists i :: 0 <= i < |procs| && procs[i].parent == Some(cur) && procs[i].state == Zombie
    then Wakeup(adopted, Slot(INIT)) else adopted
  }

  function WakeParent(procs: seq<Proc>, parent: Option<nat>): (r: seq<Proc>)
    ensures |r| == |procs|
  {
    if parent.Some? then Wakeup(procs, Slot(parent.value)) else procs
  }

  function ExitStep(k: Kernel, cur: nat, status: int): Kernel
    requires cur < |k.procs|
  {
    var woken := WakeParent(Reparent(k.procs, cur), k.procs[cur].parent);
    k.(procs := woken[cur := woken[cur].(state := Zombie, exitStatus := status)],
       exited := k.exited[k.procs[cur].pid := status])
  }

  predicate IsChild(p: Proc, cur: nat) { p.state != Unused && p.parent == Some(cur) }

  predicate HasChild(procs: seq<Proc>, cur: nat) { exists i :: 0 <= i < |procs| && IsChild(procs[i], cur) }

  /** The first zombie child from slot `from` on, or the size of the table. */
  function ZombieChild(procs: seq<Proc>, cur: nat, from: nat): (i: nat)
    requires from <= |procs|
    ensures from <= i <= |procs|
    ensures forall j :: from <= j < i ==> !(IsChild(procs[j], cur) && procs[j].state == Zombie)
    ensures i < |procs| ==> IsChild(procs[i], cur) && procs[i].state == Zombie
    decreases |procs| - from
  {
    if from == |procs| || (IsChild(procs[from], cur) && procs[from].state == Zombie) then from
    else ZombieChild(procs, cur, from + 1)
  }

  /** One pass of `wait`: collect a zombie child, or sleep while there are children, or give up. */
  function WaitStep(k: Kernel, cur: nat): Kernel
    requires cur < |k.procs|
  {
    var z := ZombieChild(k.procs, cur, 0);
    if z < |k.procs| then
      k.(procs := k.procs[z := k.procs[z].(state := Unused)],
         delivered := k.delivered[k.procs[z].pid := Delivery(k.procs[z].exitStatus, k.procs[cur].pid)])
    else if HasChild(k.procs, cur) then
      k.(procs := k.procs[cur := k.procs[cur].(state := Sleeping, wchan := Some(Slot(cur)))])
    else k
  }

  function SleepStep(k: Kernel, cur: nat, address: nat): Kernel
    requires cur < |k.procs|
  {
    k.(procs := k.procs[cur := k.procs[cur].(state := Sleeping, wchan := Some(Other(address)))])
  }

  /** Init never exits; every other step is taken by a running process. */
  predicate Enabled(k: Kernel, e: Event) {
    match e
    case WakeOther(_) => true
    case Exit(cur, _) => cur != INIT && cur < |k.procs| && k.procs[cur].state == Running
    case _ => e.cur < |k.procs| && k.procs[e.cur].state == Running
  }

  function Next(k: Kernel, e: Event): Kernel
    requires Inv(k) && Enabled(k, e)
  {
    match e
    case Fork(cur) => ForkStep(k, cur)
    case Exit(cur, status) => ExitStep(k, cur, status)
    case Wait(cur) => WaitStep(k, cur)
    case Sleep(cur, address) => SleepStep(k, cur, address)
    case WakeOther(address) => k.(procs := Wakeup(k.procs, Other(address)))
  }

  // ------------------------------------------------------------------ the invariant

  predicate Alive(p: Proc) { p.state == Running || p.state == Sleeping }

  /** The process that should hear of `pid`: the one that forked it, or init once that one has exited. */
  predicate Heir(forkedBy: map<nat, nat>, exited: map<nat, int>, pid: nat, receiver: nat) {
    pid in forkedBy && (receiver == forkedBy[pid] || (receiver == 1 && forkedBy[pid] in exited))
  }

  /** What holds of one slot: its parent is alive and older, and it sleeps only where it said. */
  ghost predicate SlotInv(k: Kernel, i: nat)
    requires i < |k.procs|
  {
    var p := k.procs[i];
    && p.state != Idle
    && (p.state != Unused ==>
          && 1 <= p.pid < k.nextpid && (i == INIT <==> p.parent.None?)
          && (i != INIT ==> p.parent.value < |k.procs| && Alive(k.procs[p.parent.value])
                            && k.procs[p.parent.value].pid < p.pid
                            && Heir(k.forkedBy, k.exited, p.pid, k.procs[p.parent.value].pid)))
    && (p.state == Sleeping <==> p.state != Unused && p.wchan.Some?)
    && (p.state == Sleeping && p.wchan.value.Slot? ==> p.wchan == Some(Slot(i)) && WaitsProperly(k.procs, i))
    && (p.state == Zombie <==> p.state != Unused && p.pid in k.exited)
    && (p.state == Zombie ==> k.exited[p.pid] == p.exitStatus && p.pid !in k.delivered)
  }

  /** A process asleep in `wait` has a child, and none of its children is a zombie. */
  predicate WaitsProperly(procs: seq<Proc>, i: nat) {
    HasChild(procs, i) && forall j :: 0 <= j < |procs| && IsChild(procs[j], i) ==> procs[j].state != Zombie
  }

  ghost predicate PidsUnique(procs: seq<Proc>) {
    forall i, j :: 0 <= i < j < |procs| && procs[i].state != Unused && procs[j].state != Unused ==>
        procs[i].pid != procs[j].pid
  }

  /** An exit status is waiting in exactly one zombie, or has been delivered to its heir. */
  ghost predicate StatusKept(k: Kernel, pid: nat)
    requires pid in k.exited
  {
    if pid in k.delivered then
      k.delivered[pid].status == k.exited[pid] && Heir(k.forkedBy, k.exited, pid, k.delivered[pid].receiver)
    else exists i :: 0 <= i < |k.procs| && k.procs[i].state == Zombie && k.procs[i].pid == pid
  }

  ghost predicate Inv(k: Kernel) {
    && |k.procs| == NPROC && 1 <= k.nextpid <= PID_LIMIT
    && Alive(k.procs[INIT]) && k.procs[INIT].pid == 1
    && PidsUnique(k.procs)
    && (forall i :: 0 <= i < NPROC ==> SlotInv(k, i))
    && (forall pid :: pid in k.exited ==> 1 <= pid < k.nextpid && StatusKept(k, pid))
    && k.delivered.Keys <= k.exited.Keys
  }

  // ------------------------------------------------------------------ every step keeps it

  /** Facts about one slot, drawn from the invariant. */
  lemma SlotFacts(k: Kernel, i: nat)
    requires Inv(k) && i < NPROC
    ensures SlotInv(k, i)
  {
  }

  lemma ForkNewSlot(k: Kernel, cur: nat)
    requires Inv(k) && cur < NPROC && k.procs[cur].state == Running && FreeSlot(k.procs, 0) < NPROC
    ensures SlotInv(ForkStep(k, cur), FreeSlot(k.procs, 0))
  {
    SlotFacts(k, cur);
  }

  lemma ForkOldSlot(k: Kernel, cur: nat, i: nat)
    requires Inv(k) && cur < NPROC && k.procs[cur].state == Running && FreeSlot(k.procs, 0) < NPROC
    requires i < NPROC && i != FreeSlot(k.procs, 0)
    ensures SlotInv(ForkStep(k, cur), i)
  {
    var k' := ForkStep(k, cur);
    SlotFacts(k, i);
    assert k'.procs[i] == k.procs[i] && k'.exited == k.exited && k'.delivered == k.delivered;
    if k.procs[i].state == Sleeping && k.procs[i].wchan.value.Slot? {
      var j :| 0 <= j < NPROC && IsChild(k.procs[j], i);
      assert k'.procs[j] == k.procs[j];
      assert WaitsProperly(k'.procs, i);
    }
    var p := k.procs[i];
    if p.state != Unused && i != INIT {
      assert Alive(k.procs[p.parent.value]) && k'.procs[p.parent.value] == k.procs[p.parent.value];
      assert Heir(k'.forkedBy, k'.exited, p.pid, k'.procs[p.parent.value].pid);
    }
  }

  lemma ForkKeepsInv(k: Kernel, cur: nat)
    requires Inv(k) && cur < NPROC && k.procs[cur].state == Running
    ensures Inv(ForkStep(k, cur))
  {
    var k' := ForkStep(k, cur);
    if FreeSlot(k.procs, 0) < NPROC {
      forall i | 0 <= i < NPROC
        ensures SlotInv(k', i) && (k.procs[i].state != Unused ==> k.procs[i].pid < k.nextpid)
      {
        SlotFacts(k, i);
        if i == FreeSlot(k.procs, 0) { ForkNewSlot(k, cur); } else { ForkOldSlot(k, cur, i); }
      }
      forall pid | pid in k'.exited
        ensures 1 <= pid < k'.nextpid && StatusKept(k', pid)
      {
        assert StatusKept(k, pid);
        if pid !in k.delivered {
          var i :| 0 <= i < NPROC && k.procs[i].state == Zombie && k.procs[i].pid == pid;
          assert k'.procs[i] == k.procs[i];
        }
      }
    }
  }

  lemma SleepKeepsInv(k: Kernel, cur: nat, address: nat)
    requires Inv(k) && cur < NPROC && k.procs[cur].state == Running
    ensures Inv(SleepStep(k, cur, address))
  {
    var k' := SleepStep(k, cur, address);
    forall i | 0 <= i < NPROC
      ensures SlotInv(k', i)
    {
      SlotFacts(k, i);
      OneSlotWaits(k.procs, k'.procs, cur, i);
    }
    forall pid | pid in k'.exited
      ensures 1 <= pid < k'.nextpid && StatusKept(k', pid)
    {
      assert StatusKept(k, pid);
      OneSlotStatus(k, k', cur, pid);
    }
  }

  /** Changing how one live process is scheduled does not change who waits for whom. */
  lemma OneSlotWaits(procs: seq<Proc>, procs': seq<Proc>, cur: nat, i: nat)
    requires |procs| == |procs'| && cur < |procs| && Alive(procs[cur]) && Alive(procs'[cur])
    requires procs' == procs[cur := procs'[cur]] && procs'[cur].parent == procs[cur].parent
    ensures WaitsProperly(procs, i) ==> WaitsProperly(procs', i)
  {
    if HasChild(procs, i) {
      var j :| 0 <= j < |procs| && IsChild(procs[j], i);
      assert IsChild(procs'[j], i);
    }
  }

  lemma OneSlotStatus(k: Kernel, k': Kernel, cur: nat, pid: nat)
    requires pid in k.exited && StatusKept(k, pid) && cur < |k.procs| && k.procs[cur].state != Zombie
    requires k' == k.(procs := k'.procs) && |k'.procs| == |k.procs| && k'.procs == k.procs[cur := k'.procs[cur]]
    ensures StatusKept(k', pid)
  {
    if pid !in k.delivered {
      var i :| 0 <= i < |k.procs| && k.procs[i].state == Zombie && k.procs[i].pid == pid;
      assert k'.procs[i] == k.procs[i];
    }
  }

  lemma WakeOtherKeepsInv(k: Kernel, address: nat)
    requires Inv(k)
    ensures Inv(k.(procs := Wakeup(k.procs, Other(address))))
  {
    var k' := k.(procs := Wakeup(k.procs, Other(address)));
    forall i | 0 <= i < NPROC
      ensures SlotInv(k', i)
    {
      SlotFacts(k, i);
      if k.procs[i].state == Sleeping && k.procs[i].wchan.value.Slot? {
        var j :| 0 <= j < NPROC && IsChild(k.procs[j], i);
        assert IsChild(k'.procs[j], i);
      }
    }
    forall pid | pid in k'.exited
      ensures 1 <= pid < k'.nextpid && StatusKept(k', pid)
    {
      assert StatusKept(k, pid);
      if pid !in k.delivered {
        var i :| 0 <= i < NPROC && k.procs[i].state == Zombie && k.procs[i].pid == pid;
        assert k'.procs[i] == k.procs[i];
      }
    }
  }

  lemma WaitSlot(k: Kernel, cur: nat, i: nat)
    requires Inv(k) && cur < NPROC && k.procs[cur].state == Running && i < NPROC
    ensures SlotInv(WaitStep(k, cur), i)
  {
    var k' := WaitStep(k, cur);
    var z := ZombieChild(k.procs, cur, 0);
    SlotFacts(k, i);
    if z < NPROC {
      SlotFacts(k, z);
      if k.procs[i].state == Sleeping && k.procs[i].wchan.value.Slot? {
        var j :| 0 <= j < NPROC && IsChild(k.procs[j], i);
        assert k'.procs[j] == k.procs[j];
      }
    } else if HasChild(k.procs, cur) {
      OneSlotWaits(k.procs, k'.procs, cur, i);
      OneSlotWaits(k.procs, k'.procs, cur, cur);
    }
  }

  lemma WaitKeepsInv(k: Kernel, cur: nat)
    requires Inv(k) && cur < NPROC && k.procs[cur].state == Running
    ensures Inv(WaitStep(k, cur))
  {
    var k' := WaitStep(k, cur);
    var z := ZombieChild(k.procs, cur, 0);
    forall i | 0 <= i < NPROC
      ensures SlotInv(k', i)
    {
      WaitSlot(k, cur, i);
    }
    forall pid | pid in k'.exited
      ensures 1 <= pid < k'.nextpid && StatusKept(k', pid)
    {
      assert StatusKept(k, pid);
      if z == NPROC {
        if HasChild(k.procs, cur) { OneSlotStatus(k, k', cur, pid); }
      } else {
        SlotFacts(k, z);
        if pid !in k'.delivered {
          var i :| 0 <= i < NPROC && k.procs[i].state == Zombie && k.procs[i].pid == pid;
          assert k'.procs[i] == k.procs[i];
        }
      }
    }
    if z < NPROC { SlotFacts(k, z); }
  }

  /** What a slot looks like once its children are adopted and the two wakeups of an exit are done. */
  lemma WokenSlot(procs: seq<Proc>, cur: nat, i: nat)
    requires i < |procs| && cur < |procs|
    ensures var p := procs[i]; var q := WakeParent(Reparent(procs, cur), procs[cur].parent)[i];
      && (q == Adopt(p, cur) || (p.state == Sleeping && q == Adopt(p, cur).(state := Running, wchan := None)))
      && (q.state == Sleeping && procs[cur].parent.Some? ==> q.wchan != Some(Slot(procs[cur].parent.value)))
      && (q.state == Sleeping && q.wchan == Some(Slot(INIT)) ==>
            forall j :: 0 <= j < |procs| && procs[j].parent == Some(cur) ==> procs[j].state != Zombie)
  {
  }

  /** A slot after `cur` has exited: unchanged, adopted, woken, or the new zombie. */
  ghost predicate ExitedSlot(procs: seq<Proc>, procs': seq<Proc>, cur: nat, status: int, i: nat)
    requires |procs'| == |procs| && i < |procs| && cur < |procs|
  {
    var p, q := procs[i], procs'[i];
    && (i == cur ==> q == Adopt(p, cur).(state := Zombie, exitStatus := status))
    && (i != cur ==>
          || q == Adopt(p, cur)
          || (p.state == Sleeping && q == Adopt(p, cur).(state := Running, wchan := None)))
    && (q.state == Sleeping && procs[cur].parent.Some? ==> q.wchan != Some(Slot(procs[cur].parent.value)))
    && (q.state == Sleeping && q.wchan == Some(Slot(INIT)) ==>
          forall j :: 0 <= j < |procs| && procs[j].parent == Some(cur) ==> procs[j].state != Zombie)
  }

  lemma ExitSlots(k: Kernel, cur: nat, status: int)
    requires cur < |k.procs| && k.procs[cur].state == Running
    ensures forall i :: 0 <= i < |k.procs| ==> ExitedSlot(k.procs, ExitStep(k, cur, status).procs, cur, status, i)
  {
    forall i | 0 <= i < |k.procs|
      ensures ExitedSlot(k.procs, ExitStep(k, cur, status).procs, cur, status, i)
    {
      WokenSlot(k.procs, cur, i);
    }
  }

  lemma ExitOldSlot(k: Kernel, k': Kernel, cur: nat, status: int, i: nat)
    requires Inv(k) && cur < NPROC && cur != INIT && k.procs[cur].state == Running && i < NPROC && i != cur
    requires |k'.procs| == NPROC && forall j :: 0 <= j < NPROC ==> ExitedSlot(k.procs, k'.procs, cur, status, j)
    requires k' == k.(procs := k'.procs, exited := k.exited[k.procs[cur].pid := status])
    ensures SlotInv(k', i)
  {
    var p, q := k.procs[i], k'.procs[i];
    SlotFacts(k, i);
    SlotFacts(k, cur);
    SlotFacts(k, INIT);
    assert ExitedSlot(k.procs, k'.procs, cur, status, i) && ExitedSlot(k.procs, k'.procs, cur, status, INIT);
    if p.state != Unused && i != INIT {
      var o := p.parent.value;
      assert ExitedSlot(k.procs, k'.procs, cur, status, o);
      assert Alive(k'.procs[q.parent.value]);
      assert Heir(k'.forkedBy, k'.exited, p.pid, k'.procs[q.parent.value].pid);
    }
    assert p.state != Unused ==> p.pid != k.procs[cur].pid;
    if q.state == Sleeping && q.wchan.value.Slot? { ExitKeepsWaiting(k, k', cur, status, i); }
  }

  lemma ExitKeepsWaiting(k: Kernel, k': Kernel, cur: nat, status: int, i: nat)
    requires Inv(k) && cur < NPROC && cur != INIT && k.procs[cur].state == Running && i < NPROC && i != cur
    requires |k'.procs| == NPROC && forall j :: 0 <= j < NPROC ==> ExitedSlot(k.procs, k'.procs, cur, status, j)
    requires k'.procs[i].state == Sleeping && k'.procs[i].wchan.Some? && k'.procs[i].wchan.value.Slot?
    ensures WaitsProperly(k'.procs, i) && k'.procs[i].wchan == Some(Slot(i))
  {
    SlotFacts(k, i);
    SlotFacts(k, cur);
    assert ExitedSlot(k.procs, k'.procs, cur, status, i);
    assert k.procs[cur].parent != Some(i);
    var c :| 0 <= c < NPROC && IsChild(k.procs[c], i);
    assert ExitedSlot(k.procs, k'.procs, cur, status, c);
    assert IsChild(k'.procs[c], i);
    forall j | 0 <= j < NPROC && IsChild(k'.procs[j], i)
      ensures k'.procs[j].state != Zombie
    {
      assert ExitedSlot(k.procs, k'.procs, cur, status, j);
    }
  }

  lemma ExitKeepsInv(k: Kernel, cur: nat, status: int)
    requires Inv(k) && cur < NPROC && cur != INIT && k.procs[cur].state == Running
    ensures Inv(ExitStep(k, cur, status))
  {
    var k' := ExitStep(k, cur, status);
    ExitSlots(k, cur, status);
    SlotFacts(k, cur);
    hide ExitStep;
    forall i | 0 <= i < NPROC
      ensures SlotInv(k', i)
    {
      if i == cur { ExitNewZombie(k, k', cur, status); } else { ExitOldSlot(k, k', cur, status, i); }
    }
    forall i | 0 <= i < NPROC
      ensures k'.procs[i].pid == k.procs[i].pid && (k'.procs[i].state == Unused <==> k.procs[i].state == Unused)
      ensures k.procs[i].state == Zombie ==> k'.procs[i].state == Zombie
    {
      assert ExitedSlot(k.procs, k'.procs, cur, status, i);
    }
    assert k'.procs[cur].state == Zombie && Alive(k'.procs[INIT]) by {
      assert ExitedSlot(k.procs, k'.procs, cur, status, cur) && ExitedSlot(k.procs, k'.procs, cur, status, INIT);
    }
    forall pid | pid in k'.exited
      ensures 1 <= pid < k'.nextpid && StatusKept(k', pid)
    {
      if pid != k.procs[cur].pid {
        assert StatusKept(k, pid);
        if pid !in k.delivered {
          var i :| 0 <= i < NPROC && k.procs[i].state == Zombie && k.procs[i].pid == pid;
          assert k'.procs[i].state == Zombie;
        }
      }
    }
  }

  lemma ExitNewZombie(k: Kernel, k': Kernel, cur: nat, status: int)
    requires Inv(k) && cur < NPROC && cur != INIT && k.procs[cur].state == Running
    requires |k'.procs| == NPROC && forall j :: 0 <= j < NPROC ==> ExitedSlot(k.procs, k'.procs, cur, status, j)
    requires k' == k.(procs := k'.procs, exited := k.exited[k.procs[cur].pid := status])
    ensures SlotInv(k', cur)
  {
    SlotFacts(k, cur);
    var o := k.procs[cur].parent.value;
    assert ExitedSlot(k.procs, k'.procs, cur, status, cur) && ExitedSlot(k.procs, k'.procs, cur, status, o);
    assert k.procs[cur].pid !in k.exited;
  }

  lemma NextKeepsInv(k: Kernel, e: Event)
    requires Inv(k) && Enabled(k, e)
    ensures Inv(Next(k, e))
  {
    assert |k.procs| == NPROC;
    hide Inv, ForkStep, ExitStep, WaitStep, SleepStep, Wakeup;
    match e
    case Fork(cur) => ForkKeepsInv(k, cur);
    case Exit(cur, status) => ExitKeepsInv(k, cur, status);
    case Wait(cur) => WaitKeepsInv(k, cur);
    case Sleep(cur, address) => SleepKeepsInv(k, cur, address);
    case WakeOther(address) => WakeOtherKeepsInv(k, address);
  }

  // ------------------------------------------------------------------ what it means

  const INIT_PROC := Proc(Running, 1, None, None, 0)

  function Initial(): Kernel {
    Kernel([INIT_PROC] + seq(NPROC - 1, _ => BLANK), 2, map[], map[], map[])
  }

  lemma InitialInv()
    ensures Inv(Initial())
  {
    var k := Initial();
    assert forall i :: 0 < i < NPROC ==> k.procs[i] == BLANK;
  }

  ghost predicate Possible(k: Kernel, es: seq<Event>)
    requires Inv(k)
    decreases |es|
  {
    es == [] || (Enabled(k, es[0]) && (NextKeepsInv(k, es[0]); Possible(Next(k, es[0]), es[1..])))
  }

  function After(k: Kernel, es: seq<Event>): (k': Kernel)
    requires Inv(k) && Possible(k, es)
    ensures Inv(k')
    decreases |es|
  {
    if es == [] then k else NextKeepsInv(k, es[0]); After(Next(k, es[0]), es[1..])
  }

  ghost predicate Elder(k: Kernel, i: nat, parent: nat) {
    i < |k.procs| && parent < |k.procs| && k.procs[i].parent == Some(parent) && k.procs[parent].pid < k.procs[i].pid
  }

  /** The slots from process `i` up to init, following parent pointers. */
  function Ancestors(k: Kernel, i: nat): (chain: seq<nat>)
    requires Inv(k) && i < NPROC && k.procs[i].state != Unused
    ensures chain != [] && chain[0] == i && chain[|chain| - 1] == INIT
    ensures forall n :: 0 <= n < |chain| ==> chain[n] < NPROC && k.procs[chain[n]].state != Unused
    ensures forall n :: 0 <= n < |chain| - 1 ==> Elder(k, chain[n], chain[n + 1])
    decreases k.procs[i].pid
  {
    SlotFacts(k, i);
    if i == INIT then [INIT] else [i] + Ancestors(k, k.procs[i].parent.value)
  }

  /** History only grows: an exit status is never replaced and a delivery is never repeated. */
  lemma NextHistory(k: Kernel, e: Event)
    requires Inv(k) && Enabled(k, e)
    ensures var k' := Next(k, e);
      && (forall pid :: pid in k.exited ==> pid in k'.exited && k'.exited[pid] == k.exited[pid])
      && (forall pid :: pid in k.delivered ==> pid in k'.delivered && k'.delivered[pid] == k.delivered[pid])
      && (forall pid :: pid in k.forkedBy && pid < k.nextpid ==>
          pid in k'.forkedBy && k'.forkedBy[pid] == k.forkedBy[pid])
      && k.nextpid <= k'.nextpid
  {
    if e.Exit? { SlotFacts(k, e.cur); }
    if e.Wait? {
      var z := ZombieChild(k.procs, e.cur, 0);
      if z < NPROC { SlotFacts(k, z); }
    }
  }

  lemma {:induction false} RunHistory(k: Kernel, es: seq<Event>)
    requires Inv(k) && Possible(k, es)
    ensures var k' := After(k, es);
      && (forall pid :: pid in k.exited ==> pid in k'.exited && k'.exited[pid] == k.exited[pid])
      && (forall pid :: pid in k.delivered ==> pid in k'.delivered && k'.delivered[pid] == k.delivered[pid])
    decreases |es|
  {
    hide Inv, Next, Enabled;
    if es != [] {
      NextKeepsInv(k, es[0]);
      NextHistory(k, es[0]);
      RunHistory(Next(k, es[0]), es[1..]);
    }
  }

  /** A fork that took a pid is entered under that pid, with the process that forked. */
  function Entered(k: Kernel, e: Event, made: map<nat, nat>): map<nat, nat>
    requires Inv(k) && Enabled(k, e)
  {
    if e.Fork? && k.nextpid < Next(k, e).nextpid then made[k.nextpid := k.procs[e.cur].pid] else made
  }

  /** Who made each pid, by the events and the table alone: the process whose `Fork` took the pid. */
  ghost function Makers(k: Kernel, es: seq<Event>, made: map<nat, nat>): map<nat, nat>
    requires Inv(k) && Possible(k, es)
    decreases |es|
  {
    if es == [] then made
    else
      NextKeepsInv(k, es[0]);
      Makers(Next(k, es[0]), es[1..], Entered(k, es[0], made))
  }

  /** What each process that has exited handed to `Exit`. */
  ghost function Exits(k: Kernel, es: seq<Event>, exits: map<nat, int>): map<nat, int>
    requires Inv(k) && Possible(k, es)
    decreases |es|
  {
    if es == [] then exits
    else
      NextKeepsInv(k, es[0]);
      Exits(Next(k, es[0]), es[1..], if es[0].Exit? then exits[k.procs[es[0].cur].pid := es[0].status] else exits)
  }

  /** The history the kernel is given is that of the events. */
  lemma {:induction false} HistoryIsEvents(k: Kernel, es: seq<Event>)
    requires Inv(k) && Possible(k, es)
    ensures After(k, es).forkedBy == Makers(k, es, k.forkedBy) && After(k, es).exited == Exits(k, es, k.exited)
    decreases |es|
  {
    if es != [] {
      NextKeepsInv(k, es[0]);
      HistoryStep(k, es[0]);
      hide Inv, Next, Enabled;
      HistoryIsEvents(Next(k, es[0]), es[1..]);
    }
  }

  lemma HistoryStep(k: Kernel, e: Event)
    requires Inv(k) && Enabled(k, e)
    ensures var k' := Next(k, e);
      && k'.forkedBy == Entered(k, e, k.forkedBy)
      && k'.exited == (if e.Exit? then k.exited[k.procs[e.cur].pid := e.status] else k.exited)
      && (!e.Wait? ==> k'.delivered == k.delivered)
  {
  }

  /** A fork that finds a slot and a pid makes a running child of the process that forked, with the next pid;
      one that does not leaves every process as it was. */
  lemma ForkMakesChild(k: Kernel, cur: nat)
    requires Inv(k) && Enabled(k, Fork(cur))
    ensures var k' := Next(k, Fork(cur));
      if (exists i :: 0 <= i < NPROC && k.procs[i].state == Unused) && k.nextpid < PID_LIMIT then
        && k'.nextpid == k.nextpid + 1 && HasChild(k'.procs, cur)
        && exists c :: 0 <= c < NPROC && k.procs[c].state == Unused && IsChild(k'.procs[c], cur)
             && k'.procs[c].state == Running && k'.procs[c].pid == k.nextpid && k'.procs == k.procs[c := k'.procs[c]]
      else
        && k'.nextpid == k.nextpid
        && forall i :: 0 <= i < NPROC && k.procs[i].state != Unused ==> k'.procs[i] == k.procs[i]
  {
    var c := FreeSlot(k.procs, 0);
    if c < NPROC && k.nextpid < PID_LIMIT {
      assert IsChild(Next(k, Fork(cur)).procs[c], cur);
    }
  }

  /** Over any run every exit status, as handed to `Exit`, is either still held by exactly one zombie or has
      been delivered once, unchanged, to the process whose `Fork` made the one that exited, or to init once
      that process has exited too. */
  lemma EveryStatusOnce(es: seq<Event>, pid: nat)
    requires Inv(Initial()) && Possible(Initial(), es) && pid in Exits(Initial(), es, map[])
    ensures var k, makers, exits := After(Initial(), es), Makers(Initial(), es, map[]), Exits(Initial(), es, map[]);
        var zombies := set i | 0 <= i < NPROC && k.procs[i].state == Zombie && k.procs[i].pid == pid;
      if pid in k.delivered then
        && zombies == {} && k.delivered[pid].status == exits[pid] && pid in makers
        && (k.delivered[pid].receiver == makers[pid] || (k.delivered[pid].receiver == 1 && makers[pid] in exits))
      else exists z :: zombies == {z} && k.procs[z].exitStatus == exits[pid]
  {
    var k := After(Initial(), es);
    HistoryIsEvents(Initial(), es);
    assert StatusKept(k, pid);
    var zombies := set i | 0 <= i < NPROC && k.procs[i].state == Zombie && k.procs[i].pid == pid;
    if pid in k.delivered {
      forall i | i in zombies
        ensures false
      {
        SlotFacts(k, i);
      }
    } else {
      var z :| 0 <= z < NPROC && k.procs[z].state == Zombie && k.procs[z].pid == pid;
      SlotFacts(k, z);
      assert PidsUnique(k.procs);
      assert zombies == {z};
    }
  }

  /** Over any run the parent of a process is the one that made it, or init once that one has exited. */
  lemma ParentIsMaker(es: seq<Event>, i: nat)
    requires Inv(Initial()) && Possible(Initial(), es)
    requires INIT < i < NPROC && After(Initial(), es).procs[i].state != Unused
    ensures var k, makers, exits := After(Initial(), es), Makers(Initial(), es, map[]), Exits(Initial(), es, map[]);
      && k.procs[i].parent.Some? && k.procs[i].parent.value < NPROC && k.procs[i].pid in makers
      && var parent := k.procs[k.procs[i].parent.value];
      && (parent.pid == makers[k.procs[i].pid] || (parent.pid == 1 && makers[k.procs[i].pid] in exits))
  {
    HistoryIsEvents(Initial(), es);
    SlotFacts(After(Initial(), es), i);
  }

  /** The process sleeps on an address of the kernel's. */
  predicate AsleepOn(k: Kernel, cur: nat, address: nat) {
    cur < |k.procs| && k.procs[cur].state == Sleeping && k.procs[cur].wchan == Some(Other(address))
  }

  /** A wakeup of an address runs the processes asleep on it, as they were, and touches no other. */
  lemma WakeOtherRuns(k: Kernel, address: nat, i: nat)
    requires Inv(k) && i < NPROC
    ensures Next(k, WakeOther(address)).procs[i]
         == if AsleepOn(k, i, address) then k.procs[i].(state := Running, wchan := None) else k.procs[i]
  {
  }

  /** A process that goes to sleep on an address stays asleep there through anything but a wakeup of it. */
  lemma {:induction false} SleepsUntilWoken(k: Kernel, es: seq<Event>, cur: nat, address: nat)
    requires Inv(k) && Possible(k, es) && AsleepOn(k, cur, address) && WakeOther(address) !in es
    ensures AsleepOn(After(k, es), cur, address) && After(k, es).procs[cur].pid == k.procs[cur].pid
    decreases |es|
  {
    if es != [] {
      NextKeepsInv(k, es[0]);
      StaysAsleep(k, es[0], cur, address);
      hide Inv, Next, Enabled, AsleepOn;
      SleepsUntilWoken(Next(k, es[0]), es[1..], cur, address);
    }
  }

  lemma StaysAsleep(k: Kernel, e: Event, cur: nat, address: nat)
    requires Inv(k) && Enabled(k, e) && AsleepOn(k, cur, address) && e != WakeOther(address)
    ensures AsleepOn(Next(k, e), cur, address) && Next(k, e).procs[cur].pid == k.procs[cur].pid
  {
    if e.Exit? {
      SlotFacts(k, e.cur);
      hide Inv;
    }
  }

  /** `sleep`, anything else, `wakeup`: then, and not before, the process runs again. */
  lemma SleepThenWakeup(k: Kernel, es: seq<Event>, cur: nat, address: nat)
    requires Inv(k) && Enabled(k, Sleep(cur, address)) && Inv(Next(k, Sleep(cur, address)))
    requires Possible(Next(k, Sleep(cur, address)), es) && WakeOther(address) !in es
    ensures var k' := After(Next(k, Sleep(cur, address)), es);
      && AsleepOn(k', cur, address) && k'.procs[cur].pid == k.procs[cur].pid
      && var p := Next(k', WakeOther(address)).procs[cur];
      p.state == Running && p.pid == k.procs[cur].pid
  {
    SleepsUntilWoken(Next(k, Sleep(cur, address)), es, cur, address);
    WakeOtherRuns(After(Next(k, Sleep(cur, address)), es), address, cur);
  }

  /** An exit never leaves its parent, or the init that adopts a zombie, asleep in `wait`. */
  lemma ExitWakesWaiter(k: Kernel, cur: nat, status: int, waiter: nat)
    requires Inv(k) && Enabled(k, Exit(cur, status)) && waiter < NPROC
    requires k.procs[cur].parent == Some(waiter) ||
             (waiter == INIT &&
              exists j :: 0 <= j < NPROC && k.procs[j].state == Zombie && k.procs[j].parent == Some(cur))
    ensures Next(k, Exit(cur, status)).procs[waiter].wchan != Some(Slot(waiter))
  {
    var k' := Next(k, Exit(cur, status));
    SlotFacts(k, cur);
    SlotFacts(k, waiter);
    ExitSlots(k, cur, status);
    assert ExitedSlot(k.procs, k'.procs, cur, status, waiter);
    NextKeepsInv(k, Exit(cur, status));
    SlotFacts(k', waiter);
  }

  /** `wait` returns a zombie child whenever there is one, and gives up only without children. */
  lemma WaitOutcome(k: Kernel, cur: nat)
    requires Inv(k) && Enabled(k, Wait(cur))
    ensures var k' := Next(k, Wait(cur)); var news := k'.delivered.Keys - k.delivered.Keys;
      if exists i :: 0 <= i < NPROC && IsChild(k.procs[i], cur) && k.procs[i].state == Zombie
      then exists z :: 0 <= z < NPROC && IsChild(k.procs[z], cur) && k.procs[z].state == Zombie &&
                       news == {k.procs[z].pid} &&
                       k'.delivered[k.procs[z].pid] == Delivery(k.procs[z].exitStatus, k.procs[cur].pid) &&
                       k'.procs == k.procs[z := k.procs[z].(state := Unused)]
      else
        && news == {} && (k'.procs[cur].state == Sleeping <==> HasChild(k.procs, cur))
        && k'.procs == k.procs[cur := k'.procs[cur]] && (k'.procs[cur].state != Sleeping ==> k' == k)
  {
    var z := ZombieChild(k.procs, cur, 0);
    if z < NPROC { SlotFacts(k, z); }
  }
}

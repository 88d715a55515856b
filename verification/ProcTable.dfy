/** The kernel's process table: the loops of fork, exit, wait and wakeup over a fixed array of slots,
    each proved to take the corresponding step of the process protocol. */
module ProcTable {
  import opened Numbers
  import opened Wrappers
  import opened ProcSpec

  /** What one pass of `wait` reports to its caller. */
  datatype WaitResult = Collected(pid: nat, status: int) | Slept | NoChild

  class ProcTable {
    const proc: array<Proc>
    var nextpid: nat
    ghost var forkedBy: map<nat, nat>
    ghost var exited: map<nat, int>
    ghost var delivered: map<nat, Delivery>

    ghost function Now(): Kernel
      reads this, proc
    {
      Kernel(proc[..], nextpid, forkedBy, exited, delivered)
    }

    ghost predicate Valid()
      reads this, proc
    {
      proc.Length == NPROC && Inv(Now())
    }

    constructor ()
      ensures Valid() && Now() == Initial() && fresh(proc)
    {
      proc := new Proc[NPROC](i => if i == INIT then INIT_PROC else BLANK);
      nextpid := 2;
      forkedBy, exited, delivered := map[], map[], map[];
      new;
      assert proc[..] == Initial().procs;
      InitialInv();
    }

    /** Find an unused slot, clear it and give it the next pid; None when the table or the pids run out. */
    method ProcAlloc() returns (r: Option<nat>)
      requires proc.Length == NPROC
      modifies proc, this`nextpid
      ensures var i := FreeSlot(old(proc[..]), 0);
        if i == NPROC then
          r == None && proc[..] == old(proc[..]) && nextpid == old(nextpid)
        else if old(nextpid) == PID_LIMIT then
          r == None && proc[..] == old(proc[..])[i := BLANK] && nextpid == old(nextpid)
        else
          && r == Some(i) && nextpid == old(nextpid) + 1
          && proc[..] == old(proc[..])[i := Proc(Idle, old(nextpid), None, None, 0)]
    {
      var i := 0;
      ghost var procs := proc[..];
      while i < NPROC && proc[i].state != Unused
        invariant i <= NPROC && FreeSlot(procs, 0) == FreeSlot(procs, i)
      {
        i := i + 1;
      }
      if i == NPROC {
        return None;
      }
      proc[i] := BLANK;
      assert proc[..] == procs[i := BLANK];
      if nextpid == PID_LIMIT {
        return None;
      }
      proc[i] := Proc(Idle, nextpid, None, None, 0);
      nextpid := nextpid + 1;
      assert proc[..] == procs[i := proc[i]];
      return Some(i);
    }

    /** `fork`: the child's pid, or None. */
    method Fork(cur: nat) returns (pid: Option<nat>)
      requires Valid() && Enabled(Now(), Event.Fork(cur))
      modifies proc, this`nextpid, this`forkedBy
      ensures Valid() && Now() == Next(old(Now()), Event.Fork(cur))
      ensures pid.Some? <==> old(nextpid) < nextpid
      ensures pid.Some? ==> pid.value == old(nextpid)
    {
      ghost var k := Now();
      NextKeepsInv(k, Event.Fork(cur));
      hide Inv;
      var child := ProcAlloc();
      if child.None? {
        return None;
      }
      var c := child.value;
      assert cur != c && proc[cur] == k.procs[cur];
      proc[c] := proc[c].(parent := Some(cur));
      proc[c] := proc[c].(state := Running);
      forkedBy := forkedBy[proc[c].pid := proc[cur].pid];
      assert proc[..] == k.procs[c := Proc(Running, k.nextpid, Some(cur), None, 0)];
      return Some(proc[c].pid);
    }

    /** `wakeup`: every process asleep on the channel becomes runnable. */
    method Wakeup(c: Channel)
      modifies proc
      ensures proc[..] == ProcSpec.Wakeup(old(proc[..]), c)
    {
      var i := 0;
      while i < proc.Length
        invariant i <= proc.Length
        invariant forall j :: 0 <= j < proc.Length ==>
            proc[j] == if j < i then WakeOne(old(proc[j]), c) else old(proc[j])
      {
        if proc[i].state == Sleeping && proc[i].wchan == Some(c) {
          proc[i] := proc[i].(state := Running, wchan := None);
        }
        i := i + 1;
      }
    }

    /** The first loop of `exit`: orphans are adopted by init, which is woken for adopted zombies. */
    method AdoptChildren(cur: nat)
      requires proc.Length == NPROC
      modifies proc
      ensures proc[..] == Reparent(old(proc[..]), cur)
    {
      ghost var procs := proc[..];
      var i := 0;
      while i < NPROC
        invariant i <= NPROC
        invariant proc[..] == AdoptedUpTo(procs, cur, i)
      {
        AdoptOneMore(procs, cur, i);
        if proc[i].parent == Some(cur) {
          proc[i] := proc[i].(parent := Some(INIT));
          if proc[i].state == Zombie {
            Wakeup(Slot(INIT));
          }
        }
        i := i + 1;
      }
    }

    /** `exit`: adopt, wake the parent, become a zombie. */
    method Exit(cur: nat, status: int)
      requires Valid() && Enabled(Now(), Event.Exit(cur, status))
      modifies proc, this`exited
      ensures Valid() && Now() == Next(old(Now()), Event.Exit(cur, status))
    {
      ghost var k := Now();
      NextKeepsInv(k, Event.Exit(cur, status));
      NotOwnParent(k, cur);
      hide Inv, Reparent, ProcSpec.Wakeup;
      AdoptChildren(cur);
      ReparentSelf(k.procs, cur);
      Wakeup(Slot(proc[cur].parent.value));
      ghost var woken := proc[..];
      proc[cur] := proc[cur].(exitStatus := status);
      proc[cur] := proc[cur].(state := Zombie);
      assert proc[..] == woken[cur := woken[cur].(state := Zombie, exitStatus := status)];
      WokenSlot(k.procs, cur, cur);
      exited := exited[proc[cur].pid := status];
    }

    /** One pass of the loop of `wait`, up to its return or its sleep. */
    method Wait(cur: nat) returns (r: WaitResult)
      requires Valid() && Enabled(Now(), Event.Wait(cur))
      modifies proc, this`delivered
      ensures Valid() && Now() == Next(old(Now()), Event.Wait(cur))
      ensures match r
              case Collected(pid, status) => pid !in old(delivered) && pid in delivered
                  && delivered[pid] == Delivery(status, old(proc[cur].pid))
              case Slept => proc[cur].state == Sleeping && delivered == old(delivered)
              case NoChild => !HasChild(proc[..], cur) && delivered == old(delivered)
    {
      NextKeepsInv(Now(), Event.Wait(cur));
      ghost var procs := proc[..];
      var childCount, p := 0, 0;
      while p < NPROC
        invariant p <= NPROC && ZombieChild(procs, cur, 0) == ZombieChild(procs, cur, p)
        invariant childCount > 0 <==> exists i :: 0 <= i < p && IsChild(procs[i], cur)
      {
        if proc[p].state != Unused && proc[p].parent == Some(cur) {
          childCount := childCount + 1;
          if proc[p].state == Zombie {
            SlotFacts(Now(), p);
            hide Inv, HasChild;
            r := Collected(proc[p].pid, proc[p].exitStatus);
            delivered := delivered[proc[p].pid := Delivery(proc[p].exitStatus, proc[cur].pid)];
            proc[p] := proc[p].(state := Unused);
            assert proc[..] == procs[p := procs[p].(state := Unused)];
            return r;
          }
        }
        p := p + 1;
      }
      if childCount > 0 {
        proc[cur] := proc[cur].(wchan := Some(Slot(cur)));
        proc[cur] := proc[cur].(state := Sleeping);
        assert proc[..] == procs[cur := procs[cur].(state := Sleeping, wchan := Some(Slot(cur)))];
        return Slept;
      }
      return NoChild;
    }

    /** `sleep` on a channel of the caller's choice. */
    method Sleep(cur: nat, address: nat)
      requires Valid() && Enabled(Now(), Event.Sleep(cur, address))
      modifies proc
      ensures Valid() && Now() == Next(old(Now()), Event.Sleep(cur, address))
    {
      NextKeepsInv(Now(), Event.Sleep(cur, address));
      ghost var procs := proc[..];
      hide Inv;
      proc[cur] := proc[cur].(wchan := Some(Other(address)));
      proc[cur] := proc[cur].(state := Sleeping);
      assert proc[..] == procs[cur := procs[cur].(state := Sleeping, wchan := Some(Other(address)))];
    }
  }

  lemma NotOwnParent(k: Kernel, cur: nat)
    requires Inv(k) && cur < NPROC && k.procs[cur].state != Unused && cur != INIT
    ensures k.procs[cur].parent.Some? && k.procs[cur].parent != Some(cur)
  {
    SlotFacts(k, cur);
  }

  lemma ReparentSelf(procs: seq<Proc>, cur: nat)
    requires cur < |procs| && procs[cur].parent != Some(cur)
    ensures Reparent(procs, cur)[cur].parent == procs[cur].parent
  {
  }

  /** The table after the adoption loop has passed the first `n` slots. */
  ghost function AdoptedUpTo(procs: seq<Proc>, cur: nat, n: nat): (r: seq<Proc>)
    requires n <= |procs|
  {
    var adopted := seq(|procs|, i requires 0 <= i < |procs| => if i < n then Adopt(procs[i], cur) else procs[i]);
    if exists i :: 0 <= i < n && procs[i].parent == Some(cur) && procs[i].state == Zombie
    then ProcSpec.Wakeup(adopted, Slot(INIT)) else adopted
  }

  lemma AdoptOneMore(procs: seq<Proc>, cur: nat, n: nat)
    requires n < |procs|
    ensures var r := AdoptedUpTo(procs, cur, n); var p := r[n];
      && p.parent == procs[n].parent && (p.state == Zombie <==> procs[n].state == Zombie)
      && AdoptedUpTo(procs, cur, n + 1) ==
         if p.parent != Some(cur) then r
         else var q := r[n := p.(parent := Some(INIT))]; if p.state == Zombie then ProcSpec.Wakeup(q, Slot(INIT)) else q
  {
  }
}

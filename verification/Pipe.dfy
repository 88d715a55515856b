/** The kernel pipe: a byte ring addressed by two free-running 32-bit counters, and the process
    table whose read and write calls it serves. */
module Pipe {
  import opened Numbers
  import opened PipeSpec

  /** The `n` bytes of the ring from counter value `pos` on. */
  function RingBytes(buf: seq<Octet>, pos: nat, n: nat): (q: seq<Octet>)
    requires |buf| == PIPE_BUF
    ensures |q| == n
  {
    seq(n, i requires 0 <= i < n => buf[(pos + i) % PIPE_BUF])
  }

  function Bump(pos: nat): nat { (pos + 1) % UINT_MODULUS }

  /** Bytes held, in wrapping subtraction. */
  function Held(readPos: nat, writePos: nat): nat { (writePos - readPos) % UINT_MODULUS }

  lemma TakeHeld(readPos: nat, writePos: nat)
    requires readPos < UINT_MODULUS && writePos < UINT_MODULUS && readPos != writePos
    ensures Held(readPos, writePos) > 0 && Held(Bump(readPos), writePos) == Held(readPos, writePos) - 1
  {
  }

  lemma BumpIndex(pos: nat, i: nat)
    requires pos < UINT_MODULUS && i < PIPE_BUF
    ensures (Bump(pos) + i) % PIPE_BUF == (pos + (i + 1)) % PIPE_BUF
  {
    assert UINT_MODULUS == PIPE_BUF * 0x40_0000;
  }

  /** Taking the oldest byte, even when the counter wraps. */
  lemma TakeByte(buf: seq<Octet>, readPos: nat, writePos: nat)
    requires |buf| == PIPE_BUF && readPos < UINT_MODULUS && writePos < UINT_MODULUS && readPos != writePos
    requires Held(readPos, writePos) <= PIPE_BUF
    ensures var n := Held(readPos, writePos); var q := RingBytes(buf, readPos, n);
      && n > 0 && Held(Bump(readPos), writePos) == n - 1
      && q[0] == buf[readPos % PIPE_BUF] && RingBytes(buf, Bump(readPos), n - 1) == q[1..]
  {
    var n := Held(readPos, writePos);
    TakeHeld(readPos, writePos);
    hide Held, Bump;
    var q, q' := RingBytes(buf, readPos, n), RingBytes(buf, Bump(readPos), n - 1);
    forall i | 0 <= i < n - 1
      ensures q'[i] == q[i + 1]
    {
      BumpIndex(readPos, i);
    }
  }

  /** Appending a byte while the ring is not full, even when the counter wraps. */
  lemma PutByte(buf: seq<Octet>, readPos: nat, writePos: nat, b: Octet)
    requires |buf| == PIPE_BUF && readPos < UINT_MODULUS && writePos < UINT_MODULUS
        && Held(readPos, writePos) < PIPE_BUF
    ensures var n := Held(readPos, writePos); var buf' := buf[writePos % PIPE_BUF := b];
      && Held(readPos, Bump(writePos)) == n + 1
      && RingBytes(buf', readPos, n + 1) == RingBytes(buf, readPos, n) + [b]
  {
    var n := Held(readPos, writePos);
    var buf' := buf[writePos % PIPE_BUF := b];
    PutHeld(readPos, writePos);
    hide Held, Bump;
    var q, q' := RingBytes(buf, readPos, n), RingBytes(buf', readPos, n + 1);
    forall i | 0 <= i < n
      ensures q'[i] == q[i]
    {
      OtherCell(readPos, n, i);
    }
    assert q' == q + [b];
  }

  /** The next free cell lies behind the bytes held. */
  lemma PutHeld(readPos: nat, writePos: nat)
    requires readPos < UINT_MODULUS && writePos < UINT_MODULUS && Held(readPos, writePos) < PIPE_BUF
    ensures Held(readPos, Bump(writePos)) == Held(readPos, writePos) + 1
    ensures (readPos + Held(readPos, writePos)) % PIPE_BUF == writePos % PIPE_BUF
  {
    assert UINT_MODULUS == PIPE_BUF * 0x40_0000;
  }

  lemma OtherCell(readPos: nat, n: nat, i: nat)
    requires i < n < PIPE_BUF
    ensures (readPos + i) % PIPE_BUF != (readPos + n) % PIPE_BUF
  {
  }

  class Pipe {
    const buffer: array<Octet>
    var readPos: nat
    var writePos: nat
    var writers: nat

    ghost predicate Valid()
      reads this
    {
      buffer.Length == PIPE_BUF && readPos < UINT_MODULUS && writePos < UINT_MODULUS
          && Held(readPos, writePos) <= PIPE_BUF
    }

    ghost function Queue(): (q: seq<Octet>)
      requires Valid()
      reads this, buffer
    {
      RingBytes(buffer[..], readPos, Held(readPos, writePos))
    }

    constructor ()
      ensures Valid() && Queue() == [] && writers == 1 && fresh(buffer)
    {
      buffer := new Octet[PIPE_BUF](_ => 0);
      readPos, writePos, writers := 0, 0, 1;
    }

    /** The loop of a read call from one scheduling point to the next. */
    method Read(want: nat, got0: seq<Octet>) returns (got: seq<Octet>, sleeps: bool)
      requires Valid() && |got0| <= want
      modifies this`readPos
      ensures Valid()
      ensures var n := Min(want - |got0|, |old(Queue())|);
        && got == got0 + old(Queue())[..n] && Queue() == old(Queue())[n..]
        && (sleeps <==> |got| < want && got == [] && writers > 0)
    {
      got := got0;
      ghost var q, taken: nat := Queue(), 0;
      while |got| < want
        invariant Valid() && taken <= |q| && |got| == |got0| + taken <= want
        invariant got == got0 + q[..taken] && Queue() == q[taken..]
        decreases want - |got|
      {
        hide RingBytes, Held;
        if readPos == writePos {
          assert Queue() == [] by { EmptyRing(buffer[..], readPos); }
          if writers == 0 || |got| > 0 {
            return got, false;
          }
          return got, true;
        } else {
          TakeByte(buffer[..], readPos, writePos);
          got := got + [buffer[readPos % PIPE_BUF]];
          readPos := Bump(readPos);
          assert q[..taken + 1] == q[..taken] + [q[taken]];
          taken := taken + 1;
        }
      }
      return got, false;
    }

    /** The loop of a write call from one scheduling point to the next. */
    method Write(data: seq<Octet>, from: nat) returns (done: nat, sleeps: bool)
      requires Valid() && from <= |data|
      modifies this`writePos, buffer
      ensures Valid()
      ensures var n := Min(|data| - from, PIPE_BUF - |old(Queue())|);
        && done == from + n && Queue() == old(Queue()) + data[from..from + n]
        && (sleeps <==> done < |data|)
    {
      done := from;
      ghost var q := Queue();
      assert q == q + data[from..from];
      while done < |data|
        invariant Valid() && from <= done <= |data| && |q| + (done - from) <= PIPE_BUF
        invariant Queue() == q + data[from..done]
        decreases |data| - done
      {
        hide RingBytes;
        if Held(readPos, writePos) == PIPE_BUF {
          return done, true;
        } else {
          PutByte(buffer[..], readPos, writePos, data[done]);
          ghost var old_ := buffer[..];
          buffer[writePos % PIPE_BUF] := data[done];
          assert buffer[..] == old_[writePos % PIPE_BUF := data[done]];
          writePos := Bump(writePos);
          assert data[from..done + 1] == data[from..done] + [data[done]];
          done := done + 1;
        }
      }
      return done, false;
    }
  }

  lemma EmptyRing(buf: seq<Octet>, pos: nat)
    requires |buf| == PIPE_BUF && pos < UINT_MODULUS
    ensures Held(pos, pos) == 0 && RingBytes(buf, pos, 0) == []
  {
  }

  lemma OpState(s: State, pid: nat)
    requires Inv(s) && pid < |s.ops|
    ensures s.ops[pid].Reading? ==> s.ops[pid].got == []
    ensures s.ops[pid].Writing? ==> s.ops[pid].done <= |s.ops[pid].data|
    ensures |s.queue| <= PIPE_BUF
  {
    assert OpInv(s, s.ops[pid]);
  }

  /** A read call's results determine the next state. */
  lemma ReaderOutcome(s: State, pid: nat, got: seq<Octet>, sleeps: bool)
    requires Inv(s) && Enabled(s, Event.Run(pid)) && s.ops[pid].Reading?
    requires var want := s.ops[pid].want; var n := Min(want - |s.ops[pid].got|, |s.queue|);
      && |s.ops[pid].got| <= want && got == s.ops[pid].got + s.queue[..n]
      && (sleeps <==> |got| < want && got == [] && s.open)
    ensures var op := s.ops[pid]; var n := Min(op.want - |op.got|, |s.queue|);
      && got[|op.got|..] == s.queue[..n]
      && Next(s, Event.Run(pid)) == State(s.queue[n..], if sleeps then s.ops[pid := Reading(op.want, got, true)]
          else WakeAll(s.ops)[pid := Idle],
                                          s.open, s.written, s.consumed + s.queue[..n])
  {
    hide Inv;
  }

  /** The kernel's view: one pipe and the calls in progress. */
  class PipeKernel {
    const pipe: Pipe
    var ops: seq<Op>
    ghost var written: seq<Octet>
    ghost var consumed: seq<Octet>

    ghost predicate Valid()
      reads this, pipe, pipe.buffer
    {
      pipe.Valid() && Inv(Now())
    }

    ghost function Now(): State
      requires pipe.Valid()
      reads this, pipe, pipe.buffer
    {
      State(pipe.Queue(), ops, pipe.writers > 0, written, consumed)
    }

    constructor (procs: nat)
      ensures Valid() && Now() == Initial(procs)
    {
      pipe := new Pipe();
      ops := seq(procs, _ => Idle);
      written, consumed := [], [];
    }

    /** wakeup on the pipe: every sleeper becomes runnable. */
    method Wakeup()
      modifies this`ops
      ensures ops == WakeAll(old(ops))
    {
      var i := 0;
      while i < |ops|
        invariant i <= |ops| == |old(ops)|
        invariant forall k :: 0 <= k < |ops| ==> ops[k] == if k < i then Wake(old(ops)[k]) else old(ops)[k]
      {
        ops := ops[i := Wake(ops[i])];
        i := i + 1;
      }
    }

    method StartRead(pid: nat, want: nat)
      requires Valid() && Enabled(Now(), Event.StartRead(pid, want))
      modifies this`ops
      ensures Valid() && Now() == Next(old(Now()), Event.StartRead(pid, want))
    {
      NextKeepsInv(Now(), Event.StartRead(pid, want));
      ops := ops[pid := Reading(want, [], false)];
    }

    method StartWrite(pid: nat, data: seq<Octet>)
      requires Valid() && Enabled(Now(), Event.StartWrite(pid, data))
      modifies this`ops
      ensures Valid() && Now() == Next(old(Now()), Event.StartWrite(pid, data))
    {
      NextKeepsInv(Now(), Event.StartWrite(pid, data));
      ops := ops[pid := Writing(data, 0, false)];
    }

    /** `taken` is what the caller finds in its buffer. */
    method RunReadCall(pid: nat) returns (taken: seq<Octet>)
      requires Valid() && Enabled(Now(), Event.Run(pid)) && ops[pid].Reading?
      modifies this`ops, this`consumed, pipe`readPos
      ensures pipe.Valid() && Now() == Next(old(Now()), Event.Run(pid))
      ensures taken + pipe.Queue() == old(pipe.Queue())
    {
      hide Inv, OpInv, RingBytes, WakeAll, Next, Held, Min;
      ghost var s := Now();
      OpState(s, pid);
      var want, got0 := ops[pid].want, ops[pid].got;
      ghost var n := Min(want - |got0|, |s.queue|);
      var got, sleeps := pipe.Read(want, got0);
      ReaderOutcome(s, pid, got, sleeps);
      hide Pipe.Queue;
      assert pipe.Queue() == s.queue[n..] && got[|got0|..] == s.queue[..n];
      taken := got[|got0|..];
      consumed := consumed + taken;
      assert s.queue[..n] + s.queue[n..] == s.queue;
      if sleeps {
        ops := ops[pid := Reading(want, got, true)];
      } else {
        Wakeup();
        ops := ops[pid := Idle];
      }
    }

    method RunWriteCall(pid: nat)
      requires Valid() && Enabled(Now(), Event.Run(pid)) && ops[pid].Writing?
      modifies this`ops, this`written, pipe`writePos, pipe.buffer
      ensures pipe.Valid() && Now() == Next(old(Now()), Event.Run(pid))
    {
      hide Inv, OpInv, RingBytes, WakeAll;
      OpState(Now(), pid);
      var data, from := ops[pid].data, ops[pid].done;
      var done, sleeps := pipe.Write(data, from);
      written := written + data[from..done];
      Wakeup();
      ops := ops[pid := if sleeps then Writing(data, done, true) else Idle];
    }

    /** Switch to a runnable process and run it to its next scheduling point. */
    method Run(pid: nat) returns (taken: seq<Octet>)
      requires Valid() && Enabled(Now(), Event.Run(pid))
      modifies this, pipe, pipe.buffer
      ensures Valid() && Now() == Next(old(Now()), Event.Run(pid))
      ensures if old(ops[pid]).Reading? then taken + pipe.Queue() == old(pipe.Queue()) else taken == []
    {
      NextKeepsInv(Now(), Event.Run(pid));
      hide Inv, RingBytes, RunReader, RunWriter;
      if ops[pid].Reading? {
        taken := RunReadCall(pid);
      } else {
        taken := [];
        RunWriteCall(pid);
      }
    }
  }
}

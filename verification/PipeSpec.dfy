/** Readers and writers of one pipe as a state machine over the points where the kernel switches
    processes: between two such points a process runs its loop until it sleeps or returns. */
module PipeSpec {
  import opened Numbers

  const PIPE_BUF := 1024

  /** What a process is doing with the pipe. */
  datatype Op =
    | Idle
    | Reading(want: nat, got: seq<Octet>, asleep: bool)
    | Writing(data: seq<Octet>, done: nat, asleep: bool)

  /** The bytes in the pipe, the processes, and the history: all bytes ever written and ever read. */
  datatype State = State(queue: seq<Octet>, ops: seq<Op>, open: bool, written: seq<Octet>, consumed: seq<Octet>)

  datatype Event =
    | StartRead(pid: nat, want: nat)
    | StartWrite(pid: nat, data: seq<Octet>)
    | Run(pid: nat)
    | CloseWriters

  function Wake(op: Op): Op {
    match op
    case Idle => Idle
    case Reading(w, g, _) => Reading(w, g, false)
    case Writing(d, n, _) => Writing(d, n, false)
  }

  function WakeAll(ops: seq<Op>): (r: seq<Op>)
    ensures |r| == |ops| && forall i :: 0 <= i < |ops| ==> r[i] == Wake(ops[i])
  {
    if ops == [] then [] else [Wake(ops[0])] + WakeAll(ops[1..])
  }

  /** The reader takes what it can; it sleeps only when it has got nothing and writers remain. */
  function RunReader(s: State, pid: nat): State
    requires pid < |s.ops| && s.ops[pid].Reading? && |s.ops[pid].got| <= s.ops[pid].want
  {
    var op := s.ops[pid];
    var n := Min(op.want - |op.got|, |s.queue|);
    var got := op.got + s.queue[..n];
    var t := s.(queue := s.queue[n..], consumed := s.consumed + s.queue[..n]);
    if |got| < op.want && got == [] && s.open
    then t.(ops := s.ops[pid := Reading(op.want, got, true)])
    else t.(ops := WakeAll(s.ops)[pid := Idle])
  }

  /** The writer fills the pipe; when bytes remain it wakes the others and sleeps. */
  function RunWriter(s: State, pid: nat): State
    requires pid < |s.ops| && s.ops[pid].Writing? && s.ops[pid].done <= |s.ops[pid].data| && |s.queue| <= PIPE_BUF
  {
    var op := s.ops[pid];
    var n := Min(|op.data| - op.done, PIPE_BUF - |s.queue|);
    var chunk := op.data[op.done..op.done + n];
    var t := s.(queue := s.queue + chunk, written := s.written + chunk);
    t.(ops := WakeAll(s.ops)[pid := if op.done + n < |op.data| then Writing(op.data, op.done + n, true) else Idle])
  }

  /** The kernel runs a process only while it is awake. */
  ghost predicate Enabled(s: State, e: Event) {
    match e
    case StartRead(pid, _) => pid < |s.ops| && s.ops[pid].Idle?
    case StartWrite(pid, _) => pid < |s.ops| && s.ops[pid].Idle? && s.open
    case Run(pid) => pid < |s.ops| && !s.ops[pid].Idle? && !s.ops[pid].asleep
    case CloseWriters => s.open && forall i :: 0 <= i < |s.ops| ==> !s.ops[i].Writing?
  }

  function Next(s: State, e: Event): State
    requires Inv(s) && Enabled(s, e)
  {
    match e
    case StartRead(pid, want) => s.(ops := s.ops[pid := Reading(want, [], false)])
    case StartWrite(pid, data) => s.(ops := s.ops[pid := Writing(data, 0, false)])
    case Run(pid) => if s.ops[pid].Reading? then RunReader(s, pid) else RunWriter(s, pid)
    case CloseWriters => s.(open := false)
  }

  /** A sleeping reader means an empty pipe, a sleeping writer a full one; no byte is lost or reordered. */
  ghost predicate Inv(s: State) {
    && |s.queue| <= PIPE_BUF
    && s.written == s.consumed + s.queue
    && forall i :: 0 <= i < |s.ops| ==> OpInv(s, s.ops[i])
  }

  ghost predicate OpInv(s: State, op: Op) {
    match op
    case Idle => true
    case Reading(want, got, asleep) => got == [] && (asleep ==> s.queue == [] && want > 0)
    case Writing(data, done, asleep) => done <= |data| && (asleep ==> |s.queue| == PIPE_BUF && done < |data|)
  }

  lemma NextKeepsInv(s: State, e: Event)
    requires Inv(s) && Enabled(s, e)
    ensures Inv(Next(s, e))
  {
    if e.Run? {
      if s.ops[e.pid].Reading? { ReaderKeepsInv(s, e.pid); } else { WriterKeepsInv(s, e.pid); }
    }
  }

  lemma ReaderKeepsInv(s: State, pid: nat)
    requires Inv(s) && pid < |s.ops| && s.ops[pid].Reading? && !s.ops[pid].asleep
    ensures Inv(RunReader(s, pid))
  {
    var op, t := s.ops[pid], RunReader(s, pid);
    assert OpInv(s, op);
    var n := Min(op.want, |s.queue|);
    assert t.queue == s.queue[n..] && t.consumed == s.consumed + s.queue[..n] && t.written == s.written
        && |t.ops| == |s.ops|;
    hide RunReader, WakeAll, Min, OpInv;
    Moved(s.written, s.consumed, s.queue, n);
    forall i: nat | i < |t.ops|
      ensures OpInv(t, t.ops[i])
    {
      if i != pid { ReaderOthers(s, pid, i); } else { ReaderSelf(s, pid); }
    }
  }

  /** Bytes that move from the pipe to a reader stay in their place in the stream. */
  lemma Moved(written: seq<Octet>, consumed: seq<Octet>, queue: seq<Octet>, n: nat)
    requires written == consumed + queue && n <= |queue|
    ensures written == (consumed + queue[..n]) + queue[n..]
  {
    assert queue == queue[..n] + queue[n..];
  }

  lemma ReaderSelf(s: State, pid: nat)
    requires Inv(s) && pid < |s.ops| && s.ops[pid].Reading? && |s.ops[pid].got| <= s.ops[pid].want
    ensures |RunReader(s, pid).ops| == |s.ops| && OpInv(RunReader(s, pid), RunReader(s, pid).ops[pid])
  {
    assert OpInv(s, s.ops[pid]);
    hide Inv, WakeAll;
  }

  /** A reader that moved something woke the others, and one that did not left them as they were. */
  lemma ReaderOthers(s: State, pid: nat, i: nat)
    requires Inv(s) && pid < |s.ops| && s.ops[pid].Reading? && |s.ops[pid].got| <= s.ops[pid].want
        && i < |s.ops| && i != pid
    ensures |RunReader(s, pid).ops| == |s.ops| && OpInv(RunReader(s, pid), RunReader(s, pid).ops[i])
  {
    assert OpInv(s, s.ops[i]) && OpInv(s, s.ops[pid]);
    hide Inv;
  }

  lemma WriterKeepsInv(s: State, pid: nat)
    requires Inv(s) && pid < |s.ops| && s.ops[pid].Writing? && !s.ops[pid].asleep
    ensures Inv(RunWriter(s, pid))
  {
    var op, t := s.ops[pid], RunWriter(s, pid);
    assert OpInv(s, op);
    forall i | 0 <= i < |t.ops|
      ensures OpInv(t, t.ops[i])
    {
      assert OpInv(s, s.ops[i]);
    }
  }

  // ------------------------------------------------------------------ whole runs

  function Initial(procs: nat): State { State([], seq(procs, _ => Idle), true, [], []) }

  ghost predicate Enabling(s: State, es: seq<Event>)
    requires Inv(s)
    decreases |es|
  {
    es == [] || (Enabled(s, es[0]) && (NextKeepsInv(s, es[0]); Enabling(Next(s, es[0]), es[1..])))
  }

  function After(s: State, es: seq<Event>): (t: State)
    requires Inv(s) && Enabling(s, es)
    ensures Inv(t)
    decreases |es|
  {
    if es == [] then s else NextKeepsInv(s, es[0]); After(Next(s, es[0]), es[1..])
  }

  // ------------------------------------------------------------------ one call from its start to its end

  /** The bytes a process puts into the pipe in one event: those that stand behind the others afterwards. */
  function Piece(s: State, e: Event, pid: nat): seq<Octet>
    requires Inv(s) && Enabled(s, e)
  {
    var t := Next(s, e);
    if e == Run(pid) && s.ops[pid].Writing? && |s.queue| <= |t.queue| then t.queue[|s.queue|..] else []
  }

  /** The bytes a process takes out of the pipe in one event: those that are no longer before the others. */
  function Share(s: State, e: Event, pid: nat): seq<Octet>
    requires Inv(s) && Enabled(s, e)
  {
    var t := Next(s, e);
    if e == Run(pid) && s.ops[pid].Reading? && |t.queue| <= |s.queue| then s.queue[..|s.queue| - |t.queue|] else []
  }

  /** The pieces over a run, one after the other. */
  ghost function Put(s: State, es: seq<Event>, pid: nat): seq<Octet>
    requires Inv(s) && Enabling(s, es)
    decreases |es|
  {
    if es == [] then []
    else NextKeepsInv(s, es[0]); Piece(s, es[0], pid) + Put(Next(s, es[0]), es[1..], pid)
  }

  ghost function Taken(s: State, es: seq<Event>, pid: nat): seq<Octet>
    requires Inv(s) && Enabling(s, es)
    decreases |es|
  {
    if es == [] then []
    else NextKeepsInv(s, es[0]); Share(s, es[0], pid) + Taken(Next(s, es[0]), es[1..], pid)
  }

  /** The process is in a call before each event of the run. */
  ghost predicate InCall(s: State, es: seq<Event>, pid: nat)
    requires Inv(s) && Enabling(s, es)
    decreases |es|
  {
    es == [] || (pid < |s.ops| && !s.ops[pid].Idle? && (NextKeepsInv(s, es[0]); InCall(Next(s, es[0]), es[1..], pid)))
  }

  /** What an event does to the call of one process: a writer running puts its next bytes behind all others,
      a reader takes the first, and nobody else changes what the call is about. */
  lemma CallStep(s: State, e: Event, pid: nat)
    requires Inv(s) && Enabled(s, e) && pid < |s.ops| && !s.ops[pid].Idle?
    ensures var t, op := Next(s, e), s.ops[pid];
      && |t.ops| == |s.ops|
      && (e != Run(pid) ==> t.ops[pid] == op || t.ops[pid] == Wake(op))
      && (e == Run(pid) && op.Writing? ==>
            var n := Min(|op.data| - op.done, PIPE_BUF - |s.queue|);
            && 0 <= n && t.queue == s.queue + op.data[op.done..op.done + n]
            && t.ops[pid] == if op.done + n < |op.data| then Writing(op.data, op.done + n, true) else Idle)
      && (e == Run(pid) && op.Reading? ==>
            var n := Min(op.want, |s.queue|);
            && t.queue == s.queue[n..]
            && t.ops[pid] == if n == 0 < op.want && s.open then Reading(op.want, [], true) else Idle)
  {
    assert OpInv(s, s.ops[pid]);
    if e.Run? { assert OpInv(s, s.ops[e.pid]); }
  }

  /** From `op` to `op'` the bytes `put` of a write call's data have gone into the pipe, the next ones in order:
      all that were left if the call has returned, and not all if it has not. */
  predicate Written(op: Op, op': Op, put: seq<Octet>) {
    && op.Writing? && op.done + |put| <= |op.data| && put == op.data[op.done..op.done + |put|]
    && if op'.Idle? then op.done + |put| == |op.data|
       else && op'.Writing? && op'.data == op.data && op'.done == op.done + |put|
            && (put != [] ==> op'.done < |op.data|)
  }

  lemma WrittenOn(op: Op, mid: Op, op': Op, a: seq<Octet>, b: seq<Octet>)
    requires Written(op, mid, a) && !mid.Idle? && Written(mid, op', b)
    ensures Written(op, op', a + b)
  {
  }

  lemma PieceWritten(s: State, e: Event, pid: nat)
    requires Inv(s) && Enabled(s, e) && pid < |s.ops| && s.ops[pid].Writing?
    ensures pid < |Next(s, e).ops| && Written(s.ops[pid], Next(s, e).ops[pid], Piece(s, e, pid))
  {
    CallStep(s, e, pid);
    assert OpInv(s, s.ops[pid]);
    hide Inv, Next, Enabled;
    if e == Run(pid) {
      var op := s.ops[pid];
      var n := Min(|op.data| - op.done, PIPE_BUF - |s.queue|);
      assert Piece(s, e, pid) == op.data[op.done..op.done + n];
    }
  }

  /** A write call under way puts the rest of its data into the pipe, piece by piece and in order. */
  lemma {:induction false} WriteGoesOn(s: State, es: seq<Event>, pid: nat)
    requires Inv(s) && Enabling(s, es) && InCall(s, es, pid) && pid < |s.ops| && s.ops[pid].Writing?
    ensures pid < |After(s, es).ops| && Written(s.ops[pid], After(s, es).ops[pid], Put(s, es, pid))
    decreases |es|
  {
    assert OpInv(s, s.ops[pid]);
    hide Inv, Enabled, Next, Piece, Written;
    if es == [] {
      NothingWritten(s.ops[pid]);
    } else {
      var t := Next(s, es[0]);
      NextKeepsInv(s, es[0]);
      PieceWritten(s, es[0], pid);
      if t.ops[pid].Idle? {
        CallOver(t, es[1..], pid);
        assert Piece(s, es[0], pid) + [] == Piece(s, es[0], pid);
      } else {
        StaysWrite(s.ops[pid], t.ops[pid], Piece(s, es[0], pid));
        WriteGoesOn(t, es[1..], pid);
        WrittenOn(s.ops[pid], t.ops[pid], After(s, es).ops[pid], Piece(s, es[0], pid), Put(t, es[1..], pid));
      }
    }
  }

  lemma NothingWritten(op: Op)
    requires op.Writing? && op.done <= |op.data|
    ensures Written(op, op, [])
  {
  }

  lemma StaysWrite(op: Op, op': Op, put: seq<Octet>)
    requires Written(op, op', put) && !op'.Idle?
    ensures op'.Writing?
  {
  }

  lemma CallOver(s: State, es: seq<Event>, pid: nat)
    requires Inv(s) && Enabling(s, es) && InCall(s, es, pid) && pid < |s.ops| && s.ops[pid].Idle?
    ensures es == []
  {
  }

  /** From its start to its return a write call puts exactly its data into the pipe, whoever runs in between
      and however often it sleeps; before it returns it has put in a beginning of them, and never all. */
  lemma WriteDelivers(s: State, pid: nat, data: seq<Octet>, es: seq<Event>)
    requires Inv(s) && Enabled(s, StartWrite(pid, data))
    requires Inv(Next(s, StartWrite(pid, data))) && Enabling(Next(s, StartWrite(pid, data)), es)
    requires InCall(Next(s, StartWrite(pid, data)), es, pid)
    ensures var s1 := Next(s, StartWrite(pid, data)); var t, put := After(s1, es), Put(s1, es, pid);
      && pid < |t.ops| && |put| <= |data| && put == data[..|put|]
      && (t.ops[pid].Idle? ==> put == data)
      && (!t.ops[pid].Idle? && data != [] ==> |put| < |data|)
  {
    WriteGoesOn(Next(s, StartWrite(pid, data)), es, pid);
  }

  /** From `op` to `op'` the bytes `taken` have come out of the pipe: none before the call returns, and then as
      many as there were up to those wanted, and none only if none are wanted or the writers are gone. */
  predicate Read(op: Op, op': Op, taken: seq<Octet>, queue: seq<Octet>, open: bool) {
    && op.Reading? && |taken| <= op.want
    && if op'.Idle? then (taken == [] ==> op.want == 0 || !open) && (queue != [] ==> |taken| == op.want)
       else taken == [] && op'.Reading? && op'.want == op.want
  }

  lemma ShareRead(s: State, e: Event, pid: nat)
    requires Inv(s) && Enabled(s, e) && pid < |s.ops| && s.ops[pid].Reading?
    ensures var t := Next(s, e); pid < |t.ops| && Read(s.ops[pid], t.ops[pid], Share(s, e, pid), t.queue, t.open)
    ensures e == Run(pid) ==> Share(s, e, pid) + Next(s, e).queue == s.queue
  {
    CallStep(s, e, pid);
    assert e.Run? ==> Next(s, e).open == s.open;
    hide Inv, Enabled;
  }

  lemma {:induction false} ReadCollects(s: State, es: seq<Event>, pid: nat)
    requires Inv(s) && Enabling(s, es) && InCall(s, es, pid) && pid < |s.ops| && s.ops[pid].Reading?
    ensures var t := After(s, es);
      pid < |t.ops| && Read(s.ops[pid], t.ops[pid], Taken(s, es, pid), t.queue, t.open)
    decreases |es|
  {
    hide Inv, Enabled, Next, Share;
    if es != [] {
      var t := Next(s, es[0]);
      NextKeepsInv(s, es[0]);
      ShareRead(s, es[0], pid);
      if t.ops[pid].Idle? {
        CallOver(t, es[1..], pid);
        assert Share(s, es[0], pid) + [] == Share(s, es[0], pid);
      } else {
        ReadCollects(t, es[1..], pid);
        assert [] + Taken(t, es[1..], pid) == Taken(t, es[1..], pid);
      }
    }
  }

  /** From its start to its return a read call takes bytes only at its end, from the front of the pipe: as many
      as wanted or all there are, and none only if none are wanted or the writers are gone. */
  lemma ReadReturns(s: State, pid: nat, want: nat, es: seq<Event>)
    requires Inv(s) && Enabled(s, StartRead(pid, want))
    requires Inv(Next(s, StartRead(pid, want))) && Enabling(Next(s, StartRead(pid, want)), es)
    requires InCall(Next(s, StartRead(pid, want)), es, pid)
    ensures var s1 := Next(s, StartRead(pid, want)); var t, taken := After(s1, es), Taken(s1, es, pid);
      && pid < |t.ops| && |taken| <= want
      && (!t.ops[pid].Idle? ==> taken == [])
      && (t.ops[pid].Idle? && taken == [] ==> want == 0 || !t.open)
      && (t.ops[pid].Idle? && t.queue != [] ==> |taken| == want)
  {
    ReadCollects(Next(s, StartRead(pid, want)), es, pid);
  }

  /** A reader and a writer are never asleep at the same time. */
  ghost predicate NoStandoff(ops: seq<Op>) {
    forall i, j :: 0 <= i < |ops| && 0 <= j < |ops| && ops[i].Reading? && ops[i].asleep && ops[j].Writing? ==>
        !ops[j].asleep
  }

  /** Over any run: what was written is what was read followed by what is in the pipe, the pipe
      never holds more than its buffer, and no reader sleeps while a writer sleeps. */
  lemma RunIsSafe(procs: nat, es: seq<Event>)
    requires Inv(Initial(procs)) && Enabling(Initial(procs), es)
    ensures var t := After(Initial(procs), es);
      && t.written == t.consumed + t.queue && |t.queue| <= PIPE_BUF
      && NoStandoff(t.ops)
  {
    var t := After(Initial(procs), es);
    forall i, j | 0 <= i < |t.ops| && 0 <= j < |t.ops| && t.ops[i].Reading? && t.ops[i].asleep && t.ops[j].Writing?
      ensures !t.ops[j].asleep
    {
      assert OpInv(t, t.ops[i]) && OpInv(t, t.ops[j]);
    }
  }

  /** Running an awake process advances it: a call returns, bytes move, or it was a reader at an
      empty pipe or a writer at a full one, which then sleeps. */
  lemma RunAdvances(s: State, pid: nat)
    requires Inv(s) && Enabled(s, Run(pid))
    ensures var t := Next(s, Run(pid)); var op := s.ops[pid];
      || t.ops[pid].Idle?
      || |t.consumed| + |t.written| > |s.consumed| + |s.written|
      || (t.ops[pid].asleep && if op.Reading? then s.queue == [] else |s.queue| == PIPE_BUF)
  {
    assert OpInv(s, s.ops[pid]);
  }

  /** A call that returns after reading has delivered the next bytes of the stream in order. */
  lemma ReadDelivers(s: State, pid: nat)
    requires Inv(s) && Enabled(s, Run(pid)) && s.ops[pid].Reading?
    ensures var t := Next(s, Run(pid)); var n := |t.consumed| - |s.consumed|;
      && 0 <= n == Min(s.ops[pid].want, |s.queue|) && t.consumed[|s.consumed|..] == s.written[|s.consumed|..][..n]
      && (t.ops[pid].Idle? <==> n > 0 || s.ops[pid].want == 0 || !s.open)
  {
    assert OpInv(s, s.ops[pid]);
  }
}

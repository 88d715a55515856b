/** The terminal driver: the interrupt-side input ring and the reading side of canonical mode. */
module Tty {
  import opened TtyLine
  import opened Console
  import opened Numbers

  /** Everything a `read` may come back with. */
  datatype Outcome = Line(line: seq<char>) | EndOfInput(line: seq<char>) | Interrupted(line: seq<char>)

  /** What one character does: raw mode takes it as it is and stops, canonical mode edits the line. */
  function KeyStep(canonical: bool, line: seq<char>, c: char, count: nat): Step {
    if canonical then EditStep(line, c, count) else Finished(line + [c])
  }

  /** Result of a read as a function of the queued characters and of the batches that arrive while it
      sleeps, with the screen it leaves; a signal is what ends the wait when no further batch comes. */
  datatype Result = Result(outcome: Outcome, queue: seq<char>, screen: Screen)

  /** How the terminal is set. */
  datatype Mode = Mode(canonical: bool, echo: bool)

  function ScreenStep(mode: Mode, s: Screen, line: seq<char>, c: char): (r: Screen)
    requires WellFormed(s)
    ensures WellFormed(r)
  {
    if mode.canonical && mode.echo then EchoStep(s, line, c) else s
  }

  function ReadResult(mode: Mode, queue: seq<char>, arrivals: seq<seq<char>>, line: seq<char>, count: nat,
      s: Screen): Result
    requires WellFormed(s)
    decreases |arrivals|, |queue|
  {
    if queue == [] then
      if arrivals == [] then Result(Interrupted(line), [], s)
      else ReadResult(mode, Accept([], arrivals[0]), arrivals[1..], line, count, s)
    else
      var step, s' := KeyStep(mode.canonical, line, queue[0], count), ScreenStep(mode, s, line, queue[0]);
      if step.More? then ReadResult(mode, queue[1..], arrivals, step.line, count, s')
      else Result(if step.Finished? then Line(step.line) else EndOfInput(step.line), queue[1..], s')
  }

  lemma KeyRead(mode: Mode, queue: seq<char>, arrivals: seq<seq<char>>, line: seq<char>, count: nat, s: Screen)
    requires WellFormed(s) && queue != []
    ensures var step, s' := KeyStep(mode.canonical, line, queue[0], count), ScreenStep(mode, s, line, queue[0]);
            ReadResult(mode, queue, arrivals, line, count, s) ==
            if step.More? then ReadResult(mode, queue[1..], arrivals, step.line, count, s')
            else Result(if step.Finished? then Line(step.line) else EndOfInput(step.line), queue[1..], s')
  {
  }

  lemma EofKey(line: seq<char>, c: char, count: nat, s: Screen)
    requires WellFormed(s) && c as int == CTRL_D
    ensures KeyStep(true, line, c, count) == EndOfFile(line) && EchoStep(s, line, c) == s
  {
  }

  // ------------------------------------------------------------------ what the user sees

  /** At every point before the read returns, the screen shows the line as edited so far. */
  ghost predicate AlwaysShown(queue: seq<char>, arrivals: seq<seq<char>>, line: seq<char>, count: nat, s: Screen,
      before: seq<char>)
    requires WellFormed(s)
    decreases |arrivals|, |queue|
  {
    && Shows(s, before, line)
    && if queue == [] then arrivals == [] || AlwaysShown(Accept([], arrivals[0]), arrivals[1..], line, count, s, before)
       else
         var step := EditStep(line, queue[0], count);
         step.More? ==> AlwaysShown(queue[1..], arrivals, step.line, count, EchoStep(s, line, queue[0]), before)
  }

  /** Every key that does not end the read is plain. */
  predicate AllPlain(queue: seq<char>, arrivals: seq<seq<char>>, line: seq<char>, count: nat, s: Screen)
    requires WellFormed(s)
    decreases |arrivals|, |queue|
  {
    if queue == [] then arrivals == [] || AllPlain(Accept([], arrivals[0]), arrivals[1..], line, count, s)
    else
      var step := EditStep(line, queue[0], count);
      step.More? ==>
        && Plain(s, line, queue[0])
        && AllPlain(queue[1..], arrivals, step.line, count, EchoStep(s, line, queue[0]))
  }

  /** In canonical mode with echo, however keys and erasures come in, the screen shows the line until the
      read returns exactly when every key takes one cell and finds room. */
  lemma {:induction false} ShownExactly(queue: seq<char>, arrivals: seq<seq<char>>, line: seq<char>, count: nat,
      s: Screen, before: seq<char>)
    requires Shows(s, before, line)
    ensures AlwaysShown(queue, arrivals, line, count, s, before) <==> AllPlain(queue, arrivals, line, count, s)
    decreases |arrivals|, |queue|
  {
    assert WellFormed(s);
    hide EditStep, EchoStep, Shows, Plain, Accept;
    if queue == [] {
      if arrivals != [] { ShownExactly(Accept([], arrivals[0]), arrivals[1..], line, count, s, before); }
    } else {
      var step := EditStep(line, queue[0], count);
      if step.More? {
        EchoShowsExactly(s, before, line, queue[0], count);
        if Plain(s, line, queue[0]) {
          ShownExactly(queue[1..], arrivals, step.line, count, EchoStep(s, line, queue[0]), before);
        }
      }
    }
  }

  /** A tab, then an erasure: the line is empty and the cursor stands beside the prompt. */
  lemma TabIsNotPlain(count: nat, s: Screen, before: seq<char>)
    requires Shows(s, before, []) && s.cursor + 8 < CELLS && count > 1
    ensures !AlwaysShown([TAB, DELETE as char], [], [], count, s, before)
    ensures var result := ReadResult(Mode(true, true), [TAB, DELETE as char], [], [], count, s);
            result.outcome == Interrupted([]) && s.cursor + 4 <= result.screen.cursor
  {
    var keys := [TAB, DELETE as char];
    var s1 := EchoStep(s, [], TAB);
    assert EditStep([], TAB, count) == More([TAB]) && s1 == Put(s, TAB);
    PutShowsExactly(s, before, [], TAB);
    assert keys[1..] == [DELETE as char] && keys[1..][1..] == [];
    ShownExactly(keys, [], [], count, s, before);
    KeyRead(Mode(true, true), keys, [], [], count, s);
    assert EditStep([TAB], DELETE as char, count) == More([])
        && EchoStep(s1, [TAB], DELETE as char) == PutAll(s1, ERASE);
    KeyRead(Mode(true, true), keys[1..], [], [TAB], count, s1);
    TabThenErase(s, before);
  }

  class Tty {
    const rxBuf: array<char>
    var rxHead: nat                    // uint8_t: wraps at 256
    var rxTail: nat
    var canonical: bool
    var echo: bool
    var screen: Screen

    ghost predicate Valid()
      reads this
    {
      rxBuf.Length == RING && rxHead < RING && rxTail < RING && WellFormed(screen)
    }

    /** The unread characters, oldest first. */
    ghost function Queue(): (q: seq<char>)
      requires Valid()
      reads this, rxBuf
    {
      RingQueue(rxBuf[..], rxHead, rxTail)
    }

    constructor ()
      ensures Valid() && Queue() == [] && canonical && echo && fresh(rxBuf)
      ensures Shows(screen, [], [])
    {
      rxBuf := new char[RING](i => ' ');
      rxHead, rxTail := 0, 0;
      canonical, echo := true, true;
      screen := Screen([], seq(CELLS, _ => ' '), 0, Normal);
    }

    /** A character from the device: queued unless it is the interrupt key, dropping the oldest when full. */
    method Input(c: char)
      requires Valid()
      modifies this`rxHead, this`rxTail, rxBuf
      ensures Valid() && Queue() == Accept(old(Queue()), [c])
    {
      hide RingQueue, Newest, Accept;
      AcceptOne(Queue(), c);
      if c as int != CTRL_C {
        RingPush(rxBuf[..], rxHead, rxTail, c);
        rxBuf[rxHead] := c;
        rxHead := Succ(rxHead, RING);
        if rxHead == rxTail {
          rxTail := Succ(rxTail, RING);
        }
        assert rxBuf[..] == old(rxBuf[..])[old(rxHead) := c];
      }
    }

    method InputAll(batch: seq<char>)
      requires Valid()
      modifies this`rxHead, this`rxTail, rxBuf
      ensures Valid() && Queue() == Accept(old(Queue()), batch)
    {
      var k := 0;
      while k < |batch|
        invariant k <= |batch| && Valid()
        invariant Accept(Queue(), batch[k..]) == Accept(old(Queue()), batch)
      {
        ghost var q := Queue();
        Input(batch[k]);
        AcceptOne(q, batch[k]);
        assert batch[k..][1..] == batch[k + 1..];
        k := k + 1;
      }
    }

    /** Write to the device, character by character. */
    method Write(text: seq<char>)
      requires WellFormed(screen)
      modifies this`screen
      ensures WellFormed(screen) && screen == PutAll(old(screen), text)
    {
      var i := 0;
      while i < |text|
        invariant i <= |text| && WellFormed(screen) && PutAll(screen, text[i..]) == PutAll(old(screen), text)
      {
        screen := Put(screen, text[i]);
        assert text[i..][1..] == text[i + 1..];
        i := i + 1;
      }
    }

    /** The screen after `n` erasures, with echo on. */
    ghost function Erased(s: Screen, n: nat): (r: Screen)
      requires WellFormed(s)
      reads this`echo
      ensures WellFormed(r)
    {
      if echo then EraseTimes(s, n) else s
    }

    method EraseEcho(ghost s: Screen, ghost n: nat)
      requires WellFormed(s) && screen == Erased(s, n)
      modifies this`screen
      ensures screen == Erased(s, n + 1)
    {
      if echo {
        EraseOnceMore(s, n);
        Write([BS, ' ', BS]);
      }
    }

    /** CTRL-w: the length the line is cut back to. */
    method EraseWord(dest: array<char>, len: nat) returns (i: nat)
      requires len <= dest.Length && WellFormed(screen)
      modifies this`screen
      ensures i <= len && dest[..i] == KillWord(dest[..len])
      ensures screen == Erased(old(screen), len - i)
    {
      hide KillWord, EraseTimes, Put;
      ghost var s, line := screen, dest[..len];
      i := len;
      NoErasure(s);
      if i == 0 {
        KillNothing();
        return i;
      }
      EraseEcho(s, 0);
      i := i - 1;
      while i > 0 && dest[i] == ' '
        invariant i < len && screen == Erased(s, len - i)
        invariant forall j :: i < j < len ==> line[j] == ' '
      {
        EraseEcho(s, len - i);
        i := i - 1;
      }
      ghost var t := if line[i] == ' ' then i else i + 1;
      while i > 0 && dest[i] != ' '
        invariant i < len && i <= t && screen == Erased(s, len - i)
        invariant forall j :: i < j < t ==> line[j] != ' '
      {
        EraseEcho(s, len - i);
        i := i - 1;
      }
      KillWordFound(line, t, i);
      assert line[..i] == dest[..i];
    }

    /** CTRL-u: erase the whole line from the screen. */
    method EraseLine(i: nat)
      requires WellFormed(screen)
      modifies this`screen
      ensures screen == Erased(old(screen), i)
    {
      ghost var s := screen;
      NoErasure(s);
      for k := 0 to i
        invariant screen == Erased(s, k)
      {
        EraseEcho(s, k);
      }
    }

    /** One character of canonical mode other than end-of-file; `stop` leaves the reading loop. */
    method EditKey(c: char, dest: array<char>, len: nat, count: nat) returns (i: nat, stop: bool)
      requires len < count <= dest.Length && c as int != CTRL_D && WellFormed(screen)
      modifies this`screen, dest
      ensures i <= count && EditStep(old(dest[..len]), c, count) == if stop then Finished(dest[..i])
          else More(dest[..i])
      ensures stop || i < count
      ensures WellFormed(screen) && screen == if echo then EchoStep(old(screen), old(dest[..len]), c) else old(screen)
    {
      hide Put, EraseTimes, KillWord;
      i, stop := len, false;
      ghost var line := dest[..len];
      if IsErase(c) {
        if i > 0 {
          NoErasure(screen);
          OneErasure(screen);
          EraseEcho(screen, 0);
          i := i - 1;
          dest[i] := '\0';
          assert dest[..i] == line[..i];
        }
      } else if c as int == CTRL_W {
        i := EraseWord(dest, i);
      } else if c as int == CTRL_U {
        EraseLine(i);
        i := 0;
      } else if c as int == CTRL_L {
        if i == 0 {
          if echo {
            HomeAndClear(screen);
            Write([ESC, '[', 'H']);
            Write([ESC, '[', '2', 'J']);
          }
          stop := true;
        }
      } else {
        var ch := if c == '\r' then '\n' else c;
        if echo {
          OneCharacter(screen, ch);
          Write([ch]);
        }
        dest[i] := ch;
        i := i + 1;
        assert dest[..i] == line + [ch];
        stop := ch == '\n' || i == count;
      }
    }

    /** `read` on a terminal: a negative result is -EINTR. */
    method Read(dest: array<char>, count: nat, arrivals: seq<seq<char>>) returns (r: int)
      requires Valid() && dest != rxBuf && count <= dest.Length
      modifies this`rxHead, this`rxTail, this`screen, rxBuf, dest
      ensures Valid()
      ensures count == 0 ==> r == 0 && Queue() == old(Queue()) && screen == old(screen)
      ensures count > 0 ==> var result := ReadResult(Mode(canonical, echo), old(Queue()), arrivals, [],
          count, old(screen));
        && Queue() == result.queue && screen == result.screen
        && match result.outcome
           case Line(line) => r == |line| <= dest.Length && line == dest[..r]
           case EndOfInput(_) => r == 0
           case Interrupted(_) => r == -1
    {
      hide EditStep, EchoStep, Accept, RingQueue;
      if count == 0 {
        return 0;
      }
      ghost var mode := Mode(canonical, echo);
      ghost var result := ReadResult(mode, Queue(), arrivals, [], count, screen);
      var i: nat, stop, a: nat := 0, false, 0;
      assert dest[..0] == [] && arrivals[0..] == arrivals;
      while !stop
        invariant Valid() && i <= count && a <= |arrivals|
        invariant !stop ==> i < count && (!canonical ==> i == 0)
        invariant !stop ==> ReadResult(mode, Queue(), arrivals[a..], dest[..i], count, screen) == result
        invariant stop ==> result == Result(Line(dest[..i]), Queue(), screen)
        decreases !stop, |arrivals| - a, |Queue()|
      {
        ghost var line, a0, queue0 := dest[..i], a, Queue();
        while rxHead == rxTail
          invariant Valid() && a <= |arrivals| && dest[..i] == line
          invariant ReadResult(mode, Queue(), arrivals[a..], line, count, screen) == result
          invariant a0 <= a && (a == a0 ==> Queue() == queue0)
          modifies this`rxHead, this`rxTail, rxBuf
          decreases |arrivals| - a
        {
          RingEmpty(rxBuf[..], rxHead);
          if a == |arrivals| {
            return -1;
          }
          assert arrivals[a..][1..] == arrivals[a + 1..];
          InputAll(arrivals[a]);
          a := a + 1;
        }
        RingPop(rxBuf[..], rxHead, rxTail);
        ghost var queue := Queue();
        var c := rxBuf[rxTail];
        rxTail := Succ(rxTail, RING);
        assert dest[..i] == line;
        KeyRead(mode, queue, arrivals[a..], line, count, screen);
        if !canonical {
          dest[i] := c;
          i := i + 1;
          assert dest[..i] == line + [c] && line == [];
          break;
        }
        if c as int == CTRL_D {
          EofKey(line, c, count, screen);
          return 0;
        }
        i, stop := EditKey(c, dest, i, count);
      }
      return i;
    }
  }

  // ------------------------------------------------------------------ small facts about the echo

  lemma NoErasure(s: Screen)
    requires WellFormed(s)
    ensures EraseTimes(s, 0) == s
  {
  }

  lemma OneErasure(s: Screen)
    requires WellFormed(s)
    ensures EraseTimes(s, 1) == PutAll(s, ERASE)
  {
    assert EraseTimes(PutAll(s, ERASE), 0) == PutAll(s, ERASE);
  }

  lemma KillNothing()
    ensures KillWord([]) == []
  {
  }

  lemma OneCharacter(s: Screen, c: char)
    requires WellFormed(s)
    ensures PutAll(s, [c]) == Put(s, c)
  {
    assert [c][1..] == [];
  }

  lemma {:induction false} PutAllAppend(s: Screen, a: seq<char>, b: seq<char>)
    requires WellFormed(s)
    ensures PutAll(PutAll(s, a), b) == PutAll(s, a + b)
    decreases |a|
  {
    if a == [] {
      assert a + b == b;
    } else {
      assert (a + b)[1..] == a[1..] + b;
      PutAllAppend(Put(s, a[0]), a[1..], b);
    }
  }

  lemma HomeAndClear(s: Screen)
    requires WellFormed(s)
    ensures PutAll(PutAll(s, [ESC, '[', 'H']), [ESC, '[', '2', 'J']) == PutAll(s, CLEAR)
  {
    hide Put;
    PutAllAppend(s, [ESC, '[', 'H'], [ESC, '[', '2', 'J']);
    assert [ESC, '[', 'H'] + [ESC, '[', '2', 'J'] == CLEAR;
  }

  // ------------------------------------------------------------------ what a read comes to

  /** What is read does not depend on the screen, and without echo the screen does not change. */
  lemma {:induction false} ScreenApart(mode: Mode, queue: seq<char>, arrivals: seq<seq<char>>, line: seq<char>,
      count: nat, s: Screen, t: Screen)
    requires WellFormed(s) && WellFormed(t)
    ensures var r := ReadResult(mode, queue, arrivals, line, count, s);
      var r' := ReadResult(mode, queue, arrivals, line, count, t);
      && r.outcome == r'.outcome && r.queue == r'.queue
      && (!mode.canonical || !mode.echo ==> r.screen == s)
    decreases |arrivals|, |queue|
  {
    hide EditStep, EchoStep, Accept;
    if queue == [] {
      if arrivals != [] { ScreenApart(mode, Accept([], arrivals[0]), arrivals[1..], line, count, s, t); }
    } else {
      var step := KeyStep(mode.canonical, line, queue[0], count);
      if step.More? {
        ScreenApart(mode, queue[1..], arrivals, step.line, count,
                    ScreenStep(mode, s, line, queue[0]), ScreenStep(mode, t, line, queue[0]));
      }
    }
  }

  /** Characters that only go into the line. */
  predicate Text(keys: seq<char>) {
    forall i :: 0 <= i < |keys| ==> Typed(keys[i]) && keys[i] != '\r' && keys[i] != '\n'
  }

  /** A line typed as it is, is read as it was typed: up to and with a newline, or up to the size asked for,
      and what is typed behind stays in the queue. */
  lemma {:induction false} TextReads(echo: bool, keys: seq<char>, enter: char, rest: seq<char>,
      arrivals: seq<seq<char>>, line: seq<char>, count: nat, s: Screen)
    requires WellFormed(s) && Text(keys) && (enter == '\r' || enter == '\n') && |line| < count
    ensures var r := ReadResult(Mode(true, echo), keys + [enter] + rest, arrivals, line, count, s);
      if |line| + |keys| < count then r.outcome == Line(line + keys + ['\n']) && r.queue == rest
      else r.outcome == Line(line + keys[..count - |line|]) && r.queue == keys[count - |line|..] + [enter] + rest
    decreases |keys|
  {
    var queue, mode := keys + [enter] + rest, Mode(true, echo);
    KeyRead(mode, queue, arrivals, line, count, s);
    hide EchoStep;
    if keys == [] {
      assert queue == [enter] + rest && line + [] + ['\n'] == line + ['\n'];
    } else {
      var line' := line + [keys[0]];
      assert queue[0] == keys[0] && queue[1..] == keys[1..] + [enter] + rest;
      if |line'| < count {
        TextReads(echo, keys[1..], enter, rest, arrivals, line', count, ScreenStep(mode, s, line, keys[0]));
        assert line' + keys[1..] == line + keys;
        if |line| + |keys| >= count {
          var n := count - |line|;
          assert line' + keys[1..][..n - 1] == line + keys[..n] && keys[1..][n - 1..] == keys[n..];
        }
      } else {
        assert keys[..1] == [keys[0]];
      }
    }
  }

  /** A character and an erasure leave what is read as it is without them; kill line starts it again; end of file
      ends it at once, and on an empty line so does clear screen, which otherwise does nothing; and in raw mode
      the first character is all that is read. */
  lemma KeysRead(echo: bool, c: char, erase: char, rest: seq<char>, arrivals: seq<seq<char>>, line: seq<char>,
      count: nat, s: Screen)
    requires WellFormed(s) && IsErase(erase) && Typed(c) && c != '\r' && c != '\n' && |line| + 1 < count
    ensures var mode := Mode(true, echo);
      var plain := ReadResult(mode, rest, arrivals, line, count, s);
      && (var r := ReadResult(mode, [c, erase] + rest, arrivals, line, count, s);
          r.outcome == plain.outcome && r.queue == plain.queue)
      && (var r, anew := ReadResult(mode, [CTRL_U as char] + rest, arrivals, line, count, s),
                           ReadResult(mode, rest, arrivals, [], count, s);
          r.outcome == anew.outcome && r.queue == anew.queue)
      && (var r := ReadResult(mode, [CTRL_D as char] + rest, arrivals, line, count, s);
          r.outcome == EndOfInput(line) && r.queue == rest && r.screen == s)
      && (var r := ReadResult(mode, [CTRL_L as char] + rest, arrivals, line, count, s);
          if line == [] then r.outcome == Line([]) && r.queue == rest
          else r.outcome == plain.outcome && r.queue == plain.queue)
    ensures ReadResult(Mode(false, echo), [c] + rest, arrivals, [], count, s) == Result(Line([c]), rest, s)
  {
    var mode := Mode(true, echo);
    var two, kill, eof := [c, erase] + rest, [CTRL_U as char] + rest, [CTRL_D as char] + rest;
    var clear := [CTRL_L as char] + rest;
    assert clear[1..] == rest;
    assert two[1..] == [erase] + rest && two[1..][1..] == rest && kill[1..] == rest && eof[1..] == rest;
    assert ([c] + rest)[1..] == rest;
    var s1 := ScreenStep(mode, s, line, c);
    var s2 := ScreenStep(mode, s1, line + [c], erase);
    var s3 := ScreenStep(mode, s, line, CTRL_U as char);
    EraseUndoesKey(line, c, erase, count);
    EofKey(line, CTRL_D as char, count, s);
    KeyRead(mode, two, arrivals, line, count, s);
    KeyRead(mode, two[1..], arrivals, line + [c], count, s1);
    KeyRead(mode, kill, arrivals, line, count, s);
    KeyRead(mode, eof, arrivals, line, count, s);
    KeyRead(mode, clear, arrivals, line, count, s);
    KeyRead(Mode(false, echo), [c] + rest, arrivals, [], count, s);
    assert [] + [c] == [c];
    hide ReadResult, EchoStep;
    ScreenApart(mode, rest, arrivals, line, count, s, s2);
    ScreenApart(mode, rest, arrivals, [], count, s, s3);
    ScreenApart(mode, rest, arrivals, line, count, s, ScreenStep(mode, s, line, CTRL_L as char));
  }
}

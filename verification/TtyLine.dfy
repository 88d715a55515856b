/** What a terminal line is, apart from any buffer: the pure line editor of canonical mode,
    the bounded input queue, and what the echo of each key makes of the screen. */
module TtyLine {
  import opened Console
  import opened Numbers

  const RING := 256
  const BACKSPACE := 8
  const CTRL_L := 12
  const CTRL_D := 4
  const CTRL_C := 3
  const CTRL_U := 21
  const CTRL_W := 23
  const DELETE := 127

  // ------------------------------------------------------------------ input queue

  /** The queue keeps the newest unread characters, at most one less than the ring holds. */
  function Newest(s: seq<char>): (r: seq<char>)
    ensures |r| < RING
  {
    if |s| < RING then s else s[|s| - (RING - 1)..]
  }

  /** The queue after the characters of `batch` arrive one by one; an interrupt key is not queued. */
  function Accept(queue: seq<char>, batch: seq<char>): seq<char>
    decreases |batch|
  {
    if batch == [] then queue
    else if batch[0] as int == CTRL_C then Accept(queue, batch[1..])
    else Accept(Newest(queue + [batch[0]]), batch[1..])
  }

  function WithoutInterrupts(batch: seq<char>): seq<char>
    decreases |batch|
  {
    if batch == [] then []
    else (if batch[0] as int == CTRL_C then [] else [batch[0]]) + WithoutInterrupts(batch[1..])
  }

  lemma {:induction false} AcceptAll(queue: seq<char>, batch: seq<char>)
    requires |queue| < RING
    ensures Accept(queue, batch) == Newest(queue + WithoutInterrupts(batch))
    decreases |batch|
  {
    if batch != [] && batch[0] as int != CTRL_C {
      var rest := WithoutInterrupts(batch[1..]);
      AcceptAll(Newest(queue + [batch[0]]), batch[1..]);
      NewestTwice(queue + [batch[0]], rest);
      hide Newest;
      assert queue + WithoutInterrupts(batch) == (queue + [batch[0]]) + rest;
    } else if batch != [] {
      AcceptAll(queue, batch[1..]);
      assert WithoutInterrupts(batch) == WithoutInterrupts(batch[1..]);
    } else {
      assert queue + [] == queue;
    }
  }

  /** However the characters arrive, the queue holds the most recent unread ones, at most 255. */
  lemma AcceptKeepsNewest(queue: seq<char>, batch: seq<char>)
    requires |queue| < RING
    ensures var all := queue + WithoutInterrupts(batch); Accept(queue, batch) == all[|all| - Min(|all|, 255)..]
  {
    AcceptAll(queue, batch);
  }

  /** Interrupt keys are taken out, wherever they are, and nothing else is. */
  lemma {:induction false} InterruptTakenOut(a: seq<char>, b: seq<char>)
    ensures WithoutInterrupts(a + [CTRL_C as char] + b) == WithoutInterrupts(a + b)
    ensures CTRL_C as char !in a ==> WithoutInterrupts(a) == a
    decreases |a|
  {
    var with := a + [CTRL_C as char] + b;
    if a == [] {
      assert with[1..] == b && a + b == b;
    } else {
      InterruptTakenOut(a[1..], b);
      assert with[1..] == a[1..] + [CTRL_C as char] + b && (a + b)[1..] == a[1..] + b;
      assert CTRL_C as char !in a ==> a[0] as int != CTRL_C && a == [a[0]] + a[1..];
    }
  }

  /** The characters between `tail` and `head` of the ring, oldest first. */
  function RingQueue(buf: seq<char>, head: nat, tail: nat): (q: seq<char>)
    requires |buf| == RING && head < RING && tail < RING
    ensures |q| < RING
  {
    if tail <= head then buf[tail..head] else buf[tail..] + buf[..head]
  }

  /** Storing at the head, and giving up the oldest character when the ring is full. */
  lemma RingPush(buf: seq<char>, head: nat, tail: nat, c: char)
    requires |buf| == RING && head < RING && tail < RING
    ensures RingQueue(buf[head := c], Succ(head, RING), if Succ(head, RING) == tail then Succ(tail, RING) else tail)
            == Newest(RingQueue(buf, head, tail) + [c])
  {
    var q, buf', head' := RingQueue(buf, head, tail), buf[head := c], Succ(head, RING);
    if head' != tail {
      assert RingQueue(buf', head', tail) == q + [c];
    } else {
      assert |q + [c]| == RING;
      assert Newest(q + [c]) == (q + [c])[1..];
      assert RingQueue(buf', head', Succ(tail, RING)) == q[1..] + [c];
    }
  }

  lemma RingPop(buf: seq<char>, head: nat, tail: nat)
    requires |buf| == RING && head < RING && tail < RING && head != tail
    ensures var q := RingQueue(buf, head, tail);
            q != [] && q[0] == buf[tail] && RingQueue(buf, head, Succ(tail, RING)) == q[1..]
  {
    if tail <= head {
      assert buf[tail..head][1..] == buf[tail + 1..head];
    } else if tail + 1 < RING {
      assert (buf[tail..] + buf[..head])[1..] == buf[tail + 1..] + buf[..head];
    } else {
      assert (buf[tail..] + buf[..head])[1..] == buf[0..head];
    }
  }

  lemma RingEmpty(buf: seq<char>, head: nat)
    requires |buf| == RING && head < RING
    ensures RingQueue(buf, head, head) == []
  {
  }

  lemma AcceptOne(queue: seq<char>, c: char)
    ensures Accept(queue, [c]) == if c as int == CTRL_C then queue else Newest(queue + [c])
  {
    assert [c][1..] == [];
  }

  lemma NewestTwice(s: seq<char>, t: seq<char>)
    ensures Newest(Newest(s) + t) == Newest(s + t)
  {
  }

  // ------------------------------------------------------------------ line editing

  /** Length of the line without its trailing spaces. */
  function WordEnd(line: seq<char>): (t: nat)
    ensures t <= |line| && (forall j :: t <= j < |line| ==> line[j] == ' ')
    ensures t > 0 ==> line[t - 1] != ' '
  {
    if line == [] || line[|line| - 1] != ' ' then |line| else WordEnd(line[..|line| - 1])
  }

  /** Position of the last space of the line, or 0. */
  function LastSpace(line: seq<char>): (k: nat)
    ensures k <= |line| && (line != [] ==> k < |line|)
    ensures k > 0 ==> line[k] == ' '
    ensures forall j :: k < j < |line| ==> line[j] != ' '
  {
    if line == [] then 0
    else if line[|line| - 1] == ' ' then |line| - 1
    else LastSpace(line[..|line| - 1])
  }

  /** Kill word: trailing spaces, then the last word, then the one space before it. */
  function KillWord(line: seq<char>): seq<char> { line[..LastSpace(line[..WordEnd(line)])] }

  /** Kill word stops at the start of the line or at a space, which goes too; nothing else is removed
      but one run of non-spaces and the spaces after it. */
  lemma KillWordStops(line: seq<char>)
    ensures var k := |KillWord(line)|; var t := WordEnd(line);
      && KillWord(line) == line[..k] && (line != [] ==> k < |line|)
      && (k == 0 || line[k] == ' ')
      && (forall j :: k < j < t ==> line[j] != ' ') && (forall j :: t <= j < |line| ==> line[j] == ' ')
  {
    var t := WordEnd(line);
    assert forall j :: 0 <= j < t ==> line[..t][j] == line[j];
  }

  /** The two counting loops of the driver find exactly that place. */
  lemma KillWordFound(line: seq<char>, t: nat, k: nat)
    requires line != [] && k < |line| && t <= |line| && (if t == 0 then k == 0 else k < t)
    requires forall j :: t <= j < |line| ==> line[j] == ' '
    requires t > 0 ==> line[t - 1] != ' '
    requires k == 0 || line[k] == ' '
    requires forall j :: k < j < t ==> line[j] != ' '
    ensures KillWord(line) == line[..k]
  {
    var t' := WordEnd(line);
    assert t == t';
    var k' := LastSpace(line[..t]);
    assert forall j :: 0 <= j < t ==> line[..t][j] == line[j];
    assert k == k';
  }

  datatype Step = More(line: seq<char>) | Finished(line: seq<char>) | EndOfFile(line: seq<char>)

  predicate IsErase(c: char) { c as int == DELETE || c as int == BACKSPACE }

  /** One input character in canonical mode; `count` is the size of the caller's buffer. */
  function EditStep(line: seq<char>, c: char, count: nat): Step {
    if IsErase(c) then More(if line == [] then [] else line[..|line| - 1])
    else if c as int == CTRL_W then More(KillWord(line))
    else if c as int == CTRL_U then More([])
    else if c as int == CTRL_L then (if line == [] then Finished([]) else More(line))
    else if c as int == CTRL_D then EndOfFile(line)
    else
      var ch := if c == '\r' then '\n' else c;
      if ch == '\n' || |line| + 1 >= count then Finished(line + [ch]) else More(line + [ch])
  }

  // ------------------------------------------------------------------ echo

  /** Characters without a meaning of their own, which are put into the line. */
  predicate Typed(c: char) {
    !IsErase(c) && c as int != CTRL_W && c as int != CTRL_U && c as int != CTRL_L && c as int != CTRL_D
  }

  function EraseTimes(s: Screen, n: nat): (r: Screen)
    requires WellFormed(s)
    ensures WellFormed(r)
    decreases n
  {
    if n == 0 then s else EraseTimes(PutAll(s, ERASE), n - 1)
  }

  function TypedChar(c: char): char { if c == '\r' then '\n' else c }

  /** The screen after the echo of one key. */
  function EchoStep(s: Screen, line: seq<char>, c: char): (r: Screen)
    requires WellFormed(s)
    ensures WellFormed(r)
  {
    if IsErase(c) then (if line == [] then s else PutAll(s, ERASE))
    else if c as int == CTRL_W then EraseTimes(s, |line| - |KillWord(line)|)
    else if c as int == CTRL_U then EraseTimes(s, |line|)
    else if c as int == CTRL_L then (if line == [] then PutAll(s, CLEAR) else s)
    else if c as int == CTRL_D then s
    else Put(s, TypedChar(c))
  }

  lemma {:induction false} EraseTimesShows(s: Screen, before: seq<char>, line: seq<char>, n: nat)
    requires Shows(s, before, line) && n <= |line|
    ensures Shows(EraseTimes(s, n), before, line[..|line| - n])
    decreases n
  {
    if n == 0 {
      assert line[..|line|] == line;
    } else {
      EraseShows(s, before, line);
      EraseTimesShows(PutAll(s, ERASE), before, line[..|line| - 1], n - 1);
      assert line[..|line| - 1][..|line| - n] == line[..|line| - n];
    }
  }

  /** Erasing one cell more from the front of the count or from its end is the same. */
  lemma {:induction false} EraseOnceMore(s: Screen, n: nat)
    requires WellFormed(s)
    ensures PutAll(EraseTimes(s, n), ERASE) == EraseTimes(s, n + 1)
    decreases n
  {
    if n > 0 { EraseOnceMore(PutAll(s, ERASE), n - 1); }
  }

  /** The key is no typed character, or one that takes one cell and finds room. */
  predicate Plain(s: Screen, line: seq<char>, c: char) { Typed(c) ==> OneCell(c) && Room(s, line) }

  /** After a key that does not end the read the screen shows the edited line exactly when the key is plain. */
  lemma EchoShowsExactly(s: Screen, before: seq<char>, line: seq<char>, c: char, count: nat)
    requires Shows(s, before, line) && EditStep(line, c, count).More?
    ensures Shows(EchoStep(s, line, c), before, EditStep(line, c, count).line) <==> Plain(s, line, c)
  {
    if IsErase(c) {
      if line != [] { EraseShows(s, before, line); }
    } else if c as int == CTRL_W {
      EraseTimesShows(s, before, line, |line| - |KillWord(line)|);
    } else if c as int == CTRL_U {
      EraseTimesShows(s, before, line, |line|);
    } else if Typed(c) {
      PutShowsExactly(s, before, line, c);
    }
  }

  // ------------------------------------------------------------------ what editing comes to

  /** An erasure undoes a typed character. */
  lemma EraseUndoesKey(line: seq<char>, c: char, erase: char, count: nat)
    requires Typed(c) && IsErase(erase) && EditStep(line, c, count).More?
    ensures EditStep(EditStep(line, c, count).line, erase, count) == More(line)
  {
    assert (line + [c])[..|line|] == line;
  }

  /** Kill word takes a word typed behind a space away, together with that space. */
  lemma KillWordTakesWord(line: seq<char>, word: seq<char>, spaces: nat)
    requires word != [] && forall i :: 0 <= i < |word| ==> word[i] != ' '
    ensures KillWord(line + [' '] + word + Spaces(spaces)) == line
  {
    var all, k := line + [' '] + word + Spaces(spaces), |line|;
    KillWordFound(all, k + 1 + |word|, k);
    assert all[..k] == line;
  }
}

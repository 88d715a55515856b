/** The text console: 25 rows of 80 cells, one after the other, and what each character written to it does. */
module Console {
  import opened Numbers

  const WIDTH := 80
  const CELLS := 2000

  const BS := '\U{8}'
  const TAB := '\t'
  const ESC := '\U{1B}'
  const NUL := '\0'

  /** Where the console stands in an escape sequence; `count` arguments have been begun. */
  datatype Escape = Normal | Start | Bracket(count: nat, args: seq<nat>)

  /** `gone` is the text that has scrolled off the top, oldest first. */
  datatype Screen = Screen(gone: seq<char>, cells: seq<char>, cursor: nat, esc: Escape)

  predicate WellFormed(s: Screen) { |s.cells| == CELLS && s.cursor < CELLS }

  predicate Blank(c: char) { c == ' ' || c == NUL }

  function Spaces(n: nat): seq<char> { seq(n, _ => ' ') }

  /** The cursor has been moved to `pos`; past the last cell the text scrolls up by one row. */
  function MoveTo(s: Screen, pos: nat): Screen
    requires |s.cells| == CELLS
  {
    if pos < CELLS then s.(cursor := pos)
    else s.(gone := s.gone + s.cells[..WIDTH], cells := s.cells[WIDTH..] + Spaces(WIDTH), cursor := CELLS - WIDTH)
  }

  /** `cn_putchar_raw`; going back from the first cell wraps the 16-bit position and scrolls. */
  function Raw(s: Screen, c: char): (r: Screen)
    requires WellFormed(s)
    ensures WellFormed(r) && r.esc == s.esc
  {
    if c == '\r' then MoveTo(s, s.cursor / WIDTH * WIDTH)
    else if c == '\n' then MoveTo(s, s.cursor / WIDTH * WIDTH + WIDTH)
    else if c == BS then MoveTo(s, if s.cursor > 0 then s.cursor - 1 else 0xFFFF)
    else if c == TAB then MoveTo(s, (s.cursor + 8) / 4 * 4)
    else MoveTo(s.(cells := s.cells[s.cursor := c]), s.cursor + 1)
  }

  predicate IsDigit(c: char) { '0' <= c <= '9' }
  predicate IsPrint(c: char) { 32 <= c as int < 127 }

  function Clear(s: Screen): Screen { s.(cells := seq(|s.cells|, _ => NUL)) }

  function EraseRow(s: Screen): Screen
    requires WellFormed(s)
  {
    var start := s.cursor / WIDTH * WIDTH;
    s.(cells := s.cells[..start] + seq(WIDTH, _ => NUL) + s.cells[start + WIDTH..])
  }

  function Arg(args: seq<nat>, i: nat): nat { if i < |args| then args[i] else 0 }

  function WithDigit(args: seq<nat>, i: nat, d: nat): seq<nat> {
    var padded := if i < |args| then args else args + seq(i + 1 - |args|, _ => 0);
    padded[i := (padded[i] * 10 + d) % UINT_MODULUS]
  }

  /** What a finished escape sequence does. */
  function Command(s: Screen, c: char, count: nat, args: seq<nat>): (r: Screen)
    requires WellFormed(s)
    ensures WellFormed(r)
  {
    if c == 'H' then s.(cursor := 0)
    else if c == 'J' then Clear(s)
    else if c == 'K' && count == 1 then EraseRow(s)
    else if c == 'f' && count == 2 then
      s.(cursor := (Arg(args, 0) + UINT_MODULUS - 1) % UINT_MODULUS % (CELLS / WIDTH) * WIDTH + Arg(args, 1) % WIDTH)
    else s
  }

  /** `cn_putchar`. */
  function Put(s: Screen, c: char): (r: Screen)
    requires WellFormed(s)
    ensures WellFormed(r)
  {
    match s.esc
    case Normal => if c == ESC then s.(esc := Start) else Raw(s, c)
    case Start => if c == '[' then s.(esc := Bracket(0, [])) else Raw(Raw(s.(esc := Normal), ESC), c)
    case Bracket(count, args) =>
      if !IsPrint(c) then s.(esc := Normal)
      else if IsDigit(c) then
        var n := if count == 0 then 1 else count;
        s.(esc := Bracket(n, WithDigit(args, n - 1, c as int - '0' as int)))
      else if c == ';' then s.(esc := Bracket(count + 1, args))
      else Command(s.(esc := Normal), c, count, args)
  }

  function PutAll(s: Screen, text: seq<char>): (r: Screen)
    requires WellFormed(s)
    ensures WellFormed(r)
    decreases |text|
  {
    if text == [] then s else PutAll(Put(s, text[0]), text[1..])
  }

  // ------------------------------------------------------------------ a line on the screen

  /** The characters that take one cell each. */
  predicate OneCell(c: char) { c != '\r' && c != '\n' && c != BS && c != TAB && c != ESC }

  /** The screen shows `line` behind the text `before`, the whole line in sight, the cursor behind it and
      blanks beyond. */
  ghost predicate Shows(s: Screen, before: seq<char>, line: seq<char>) {
    && WellFormed(s) && s.esc == Normal
    && s.gone + s.cells[..s.cursor] == before + line
    && |s.gone| <= |before|
    && forall j :: s.cursor <= j < CELLS ==> Blank(s.cells[j])
  }

  /** There is a cell for one more character, or a row to scroll off that holds nothing of the line. */
  predicate Room(s: Screen, line: seq<char>) { s.cursor + 1 < CELLS || |line| + 1 <= CELLS - WIDTH }

  /** One more character: the screen shows the longer line exactly when the character takes one cell and
      there is room for it. */
  lemma PutShowsExactly(s: Screen, before: seq<char>, line: seq<char>, c: char)
    requires Shows(s, before, line)
    ensures Shows(Put(s, c), before, line + [c]) <==> OneCell(c) && Room(s, line)
  {
    var t := Put(s, c);
    assert |s.gone| + s.cursor == |before| + |line|;
    if OneCell(c) {
      if s.cursor + 1 < CELLS { Written(s, before, line, c); } else { WrittenLast(s, before, line, c); }
    } else if c != ESC {
      Unwritten(s, before, line, c);
    }
  }

  lemma Written(s: Screen, before: seq<char>, line: seq<char>, c: char)
    requires Shows(s, before, line) && OneCell(c) && s.cursor + 1 < CELLS
    ensures Shows(Put(s, c), before, line + [c])
  {
    var t := Put(s, c);
    assert t.cells[..t.cursor] == s.cells[..s.cursor] + [c];
    assert t.gone + t.cells[..t.cursor] == (before + line) + [c];
  }

  /** The last cell is filled and the text scrolls. */
  lemma WrittenLast(s: Screen, before: seq<char>, line: seq<char>, c: char)
    requires Shows(s, before, line) && OneCell(c) && s.cursor + 1 == CELLS
    ensures Shows(Put(s, c), before, line + [c]) <==> |line| + 1 <= CELLS - WIDTH
  {
    var t, full := Put(s, c), s.cells[s.cursor := c];
    assert t == MoveTo(s.(cells := full), CELLS);
    assert full == s.cells[..s.cursor] + [c];
    assert t.cells[..t.cursor] == full[WIDTH..];
    assert full[..WIDTH] + full[WIDTH..] == full;
    assert t.gone + t.cells[..t.cursor] == s.gone + full;
    assert s.gone + full == (s.gone + s.cells[..s.cursor]) + [c];
    assert t.gone + t.cells[..t.cursor] == before + (line + [c]);
    assert |t.gone| == |s.gone| + WIDTH && |s.gone| + s.cursor == |before| + |line|;
    assert forall j :: t.cursor <= j < CELLS ==> t.cells[j] == ' ';
  }

  /** A character that only moves the cursor leaves no such character behind. */
  lemma Unwritten(s: Screen, before: seq<char>, line: seq<char>, c: char)
    requires Shows(s, before, line) && !OneCell(c) && c != ESC
    ensures !Shows(Put(s, c), before, line + [c])
  {
    var t := Put(s, c);
    var text, want := t.gone + t.cells[..t.cursor], before + (line + [c]);
    assert |want| == |s.gone| + s.cursor + 1 && want[|want| - 1] == c;
    if |text| == |want| {
      assert c == TAB || c == '\n';
      assert text[|text| - 1] == t.cells[t.cursor - 1] == s.cells[s.cursor];
    }
  }

  const ERASE: seq<char> := [BS, ' ', BS]

  /** Back up, blank, back up: the last character of the line disappears. */
  lemma EraseShows(s: Screen, before: seq<char>, line: seq<char>)
    requires Shows(s, before, line) && line != []
    ensures Shows(PutAll(s, ERASE), before, line[..|line| - 1])
  {
    assert |s.gone| + s.cursor == |before| + |line|;
    var s1 := Put(s, BS);
    var s2 := Put(s1, ' ');
    var s3 := Put(s2, BS);
    assert ERASE[1..] == [' ', BS] && [' ', BS][1..] == [BS] && [BS][1..] == [];
    assert PutAll(s2, [BS]) == s3;
    assert PutAll(s1, [' ', BS]) == PutAll(s2, [BS]);
    assert s3 == s.(cells := s.cells[s.cursor - 1 := ' '], cursor := s.cursor - 1);
    assert s3.cells[..s3.cursor] == s.cells[..s.cursor][..s3.cursor];
    assert s.gone + s3.cells[..s3.cursor] == (s.gone + s.cells[..s.cursor])[..|s.gone| + s3.cursor];
    assert before + line[..|line| - 1] == (before + line)[..|before| + |line| - 1];
  }

  const CLEAR: seq<char> := [ESC, '[', 'H', ESC, '[', '2', 'J']

  /** Cursor home and clear leave an empty screen. */
  lemma ClearShows(s: Screen)
    requires WellFormed(s) && s.esc == Normal
    ensures var t := PutAll(s, CLEAR); t.esc == Normal && t.cursor == 0 && Shows(t, s.gone, [])
  {
    var home := s.(cursor := 0);
    assert PutAll(s, CLEAR) == PutAll(s.(esc := Start), CLEAR[1..]);
    assert CLEAR[1..][1..] == CLEAR[2..];
    assert PutAll(s, CLEAR) == PutAll(s.(esc := Bracket(0, [])), CLEAR[2..]);
    assert CLEAR[2..][1..] == CLEAR[3..];
    assert PutAll(s, CLEAR) == PutAll(home, CLEAR[3..]);
    assert CLEAR[3..][1..] == CLEAR[4..];
    assert PutAll(s, CLEAR) == PutAll(home.(esc := Start), CLEAR[4..]);
    assert CLEAR[4..][1..] == CLEAR[5..];
    assert PutAll(s, CLEAR) == PutAll(home.(esc := Bracket(0, [])), CLEAR[5..]);
    assert CLEAR[5..][1..] == CLEAR[6..];
    assert PutAll(s, CLEAR) == PutAll(home.(esc := Bracket(1, WithDigit([], 0, 2))), CLEAR[6..]);
    assert CLEAR[6..] == ['J'] && ['J'][1..] == [];
    assert PutAll(s, CLEAR) == Clear(home);
  }

  /** A tab and then an erasure: the line is empty again, the cursor is not back where it was. */
  lemma TabThenErase(s: Screen, before: seq<char>)
    requires Shows(s, before, []) && s.cursor + 8 < CELLS
    ensures var t := PutAll(Put(s, TAB), ERASE);
            s.cursor + 4 <= t.cursor == (s.cursor + 8) / 4 * 4 - 1 && !Shows(t, before, [])
  {
    var s1 := Put(s, TAB);
    var s2 := Put(s1, BS);
    var s3 := Put(s2, ' ');
    var s4 := Put(s3, BS);
    assert ERASE[1..] == [' ', BS] && [' ', BS][1..] == [BS] && [BS][1..] == [];
    assert PutAll(s3, [BS]) == s4;
    assert PutAll(s2, [' ', BS]) == PutAll(s3, [BS]);
    assert PutAll(s1, ERASE) == s4;
    assert s4.gone == s.gone && |s.gone| + s.cursor == |before|;
    assert |s4.gone + s4.cells[..s4.cursor]| > |before + []|;
  }

  /** An escape sequence typed into a line is in the line and not on the screen. */
  lemma EscapeSwallowed(s: Screen, before: seq<char>)
    requires Shows(s, before, [])
    ensures PutAll(s, [ESC, '[', 'm']) == s && !Shows(s, before, [ESC, '[', 'm'])
  {
    var text := [ESC, '[', 'm'];
    assert text[1..] == ['[', 'm'] && ['[', 'm'][1..] == ['m'] && ['m'][1..] == [];
    var s1 := s.(esc := Start);
    var s2 := s.(esc := Bracket(0, []));
    assert PutAll(s2, ['m']) == PutAll(Put(s2, 'm'), []) == s;
    assert PutAll(s1, ['[', 'm']) == PutAll(s2, ['m']);
    assert |before + text| > |before + []|;
  }

  // ------------------------------------------------------------------ the other control characters

  function Row(s: Screen): nat { s.cursor / WIDTH }

  /** Carriage return goes to the start of the row, and a newline to the start of the next, below the last row by
      scrolling; neither changes a character, on the screen or scrolled off it. */
  lemma RowMoves(s: Screen)
    requires WellFormed(s) && s.esc == Normal
    ensures Put(s, '\r') == s.(cursor := Row(s) * WIDTH)
    ensures var t := Put(s, '\n');
      && t.esc == Normal && t.cursor % WIDTH == 0
      && (Row(s) < 24 ==> t == s.(cursor := (Row(s) + 1) * WIDTH))
      && (Row(s) == 24 ==> Row(t) == 24 && t.gone + t.cells == s.gone + s.cells + Spaces(WIDTH)
                           && |t.gone| == |s.gone| + WIDTH)
  {
    assert s.cells[..WIDTH] + s.cells[WIDTH..] == s.cells;
    var t := Put(s, '\n');
    if Row(s) == 24 {
      assert t.gone + t.cells == s.gone + (s.cells[..WIDTH] + s.cells[WIDTH..]) + Spaces(WIDTH);
    }
  }

  /** A backspace goes one cell back and a tab to the second multiple of four at most behind the cursor. */
  lemma CellMoves(s: Screen)
    requires WellFormed(s) && s.esc == Normal
    ensures 0 < s.cursor ==> Put(s, BS) == s.(cursor := s.cursor - 1)
    ensures s.cursor + 8 < CELLS ==>
              var t := Put(s, TAB);
              t == s.(cursor := t.cursor) && t.cursor % 4 == 0 && s.cursor + 4 < t.cursor <= s.cursor + 8
  {
  }

  /** Between ESC [ and the letter K the row of the cursor is blanked, and nothing else, if one argument is given. */
  lemma RowErased(s: Screen, d: char)
    requires WellFormed(s) && s.esc == Normal && '0' <= d <= '9'
    ensures var t := PutAll(s, [ESC, '[', d, 'K']);
      && t == s.(cells := t.cells) && |t.cells| == CELLS
      && forall i :: 0 <= i < CELLS ==> t.cells[i] == if i / WIDTH == Row(s) then NUL else s.cells[i]
  {
    var text := [ESC, '[', d, 'K'];
    assert text[1..] == ['[', d, 'K'] && ['[', d, 'K'][1..] == [d, 'K'] && [d, 'K'][1..] == ['K'] && ['K'][1..] == [];
    var s2 := s.(esc := Bracket(0, []));
    var s3 := s.(esc := Bracket(1, WithDigit([], 0, d as int - '0' as int)));
    assert Put(s2, d) == s3;
    assert PutAll(s3, ['K']) == Put(s3, 'K');
    assert PutAll(s2, [d, 'K']) == PutAll(s3, ['K']);
    assert PutAll(s.(esc := Start), ['[', d, 'K']) == PutAll(s2, [d, 'K']);
    assert Put(s3, 'K') == EraseRow(s);
    var start := Row(s) * WIDTH;
    assert start + WIDTH <= CELLS;
    forall i | 0 <= i < CELLS
      ensures i / WIDTH == Row(s) <==> start <= i < start + WIDTH
    {
    }
  }

  function DigitOf(c: char): nat
    requires IsDigit(c)
  {
    c as int - '0' as int
  }

  /** Two numbers of two digits and the letter f move the cursor to that row, counted from 1, and that column,
      counted from 0, both modulo the size of the screen. */
  lemma CursorPlaced(s: Screen, a: char, b: char, c: char, d: char)
    requires WellFormed(s) && s.esc == Normal && (a != '0' || b != '0')
    requires '0' <= a <= '9' && '0' <= b <= '9' && '0' <= c <= '9' && '0' <= d <= '9'
    ensures var row, column := 10 * DigitOf(a) + DigitOf(b), 10 * DigitOf(c) + DigitOf(d);
            PutAll(s, [ESC, '[', a, b, ';', c, d, 'f']) == s.(cursor := (row - 1) % 25 * 80 + column % 80)
  {
    var row, column := 10 * DigitOf(a) + DigitOf(b), 10 * DigitOf(c) + DigitOf(d);
    hide Put, PutAll, DigitOf;
    var text3 := [c, d] + ['f'];
    var text2 := [a, b] + ([';'] + text3);
    assert [ESC, '[', a, b, ';', c, d, 'f'] == [ESC, '['] + text2;
    Opening(s, text2);
    NumberTyped(s, 0, [], a, b, [';'] + text3);
    assert [] + [row] == [row];
    NextArgument(s, row, text3);
    NumberTyped(s, 2, [row], c, d, ['f']);
    assert [row] + [column] == [row, column];
    TwoDigits(a, b);
    TwoDigits(c, d);
    Placed(s, row, column);
  }

  lemma TwoDigits(a: char, b: char)
    requires IsDigit(a) && IsDigit(b)
    ensures 10 * DigitOf(a) + DigitOf(b) < 100
    ensures a != '0' || b != '0' ==> 0 < 10 * DigitOf(a) + DigitOf(b)
  {
  }

  lemma NextArgument(s: Screen, row: nat, text: seq<char>)
    requires WellFormed(s)
    ensures PutAll(s.(esc := Bracket(1, [row])), [';'] + text) == PutAll(s.(esc := Bracket(2, [row])), text)
  {
    assert ([';'] + text)[1..] == text;
  }

  lemma Placed(s: Screen, row: nat, column: nat)
    requires WellFormed(s) && s.esc == Normal && 0 < row < 100 && column < 100
    ensures PutAll(s.(esc := Bracket(2, [row, column])), ['f']) == s.(cursor := (row - 1) % 25 * 80 + column % 80)
  {
    var s6 := s.(esc := Bracket(2, [row, column]));
    assert ['f'][1..] == [] && PutAll(s6, ['f']) == Put(s6, 'f');
    assert (row + UINT_MODULUS - 1) % UINT_MODULUS == row - 1;
  }

  lemma Opening(s: Screen, text: seq<char>)
    requires WellFormed(s) && s.esc == Normal
    ensures PutAll(s, [ESC, '['] + text) == PutAll(s.(esc := Bracket(0, [])), text)
  {
    var all := [ESC, '['] + text;
    assert all[1..] == ['['] + text && all[1..][1..] == text;
  }

  /** Two digits are taken as one number, the next argument. */
  lemma NumberTyped(s: Screen, count: nat, args: seq<nat>, a: char, b: char, text: seq<char>)
    requires WellFormed(s) && IsDigit(a) && IsDigit(b) && |args| + 1 == if count == 0 then 1 else count
    ensures PutAll(s.(esc := Bracket(count, args)), [a, b] + text)
         == PutAll(s.(esc := Bracket(|args| + 1, args + [10 * DigitOf(a) + DigitOf(b)])), text)
  {
    var all, n := [a, b] + text, |args| + 1;
    assert all[1..] == [b] + text && all[1..][1..] == text;
    assert WithDigit(args, n - 1, DigitOf(a)) == args + [DigitOf(a)];
    assert WithDigit(args + [DigitOf(a)], n - 1, DigitOf(b)) == args + [10 * DigitOf(a) + DigitOf(b)];
  }

  /** A control character ends an escape sequence, and so does any letter but the four that mean something, with
      nothing on the screen changed. */
  lemma EscapeEnds(s: Screen, count: nat, args: seq<nat>, c: char)
    requires WellFormed(s) && s.esc == Bracket(count, args)
    requires c as int < 32 || 127 <= c as int || 'A' <= c <= 'Z' || 'a' <= c <= 'z'
    requires c != 'H' && c != 'J' && c != 'K' && c != 'f'
    ensures Put(s, c) == s.(esc := Normal)
  {
  }
}

/**
  The text monitor of drivers/monitor/monitor.c against an unbounded text screen: a monitor's buffer
  is always the last 64 rows of the screen.
 */
module MonitorSpec {

  const COLS: int := 80
  const KEPT: int := 64                    // rows of a monitor's buffer
  const LIMIT: int := 5120                 // CRT_BUF_SIZE
  const CRT_SIZE: int := 2000              // cells of the visible window

  const BS: char := '\U{8}'                // backspace

  datatype Cell = Cell(color: nat, ch: char)

  const BLANK: Cell := Cell(7, '\0')

  // ----- the reference: rows without end

  /** All rows ever written, each 80 cells wide, and the place of the cursor. */
  datatype Text = Text(rows: seq<seq<Cell>>, row: nat, col: nat)

  function BlankRow(): (r: seq<Cell>)
    ensures |r| == COLS
  {
    seq(COLS, _ => BLANK)
  }

  ghost predicate TextOk(t: Text) {
    && |t.rows| >= KEPT && t.row < |t.rows| && t.col < COLS
    && forall r :: 0 <= r < |t.rows| ==> |t.rows[r]| == COLS
  }

  function SetCell(t: Text, cell: Cell): Text
    requires t.row < |t.rows| && t.col < |t.rows[t.row]|
  {
    t.(rows := t.rows[t.row := t.rows[t.row][t.col := cell]])
  }

  /** The cursor at (row, col); a fresh blank row appears when it moves past the last one. */
  function MoveTo(t: Text, row: nat, col: nat): Text {
    t.(row := row, col := col, rows := if row == |t.rows| then t.rows + [BlankRow()] else t.rows)
  }

  /** One character typed on the unbounded screen. */
  function Type(t: Text, color: nat, c: char): Text
    requires TextOk(t) && (c == BS ==> t.row > 0 || t.col > 0)
  {
    if c == '\n' then MoveTo(t, t.row + 1, 0)
    else if c == BS then
      var back := if t.col > 0 then t.(col := t.col - 1) else t.(row := t.row - 1, col := COLS - 1);
      SetCell(back, BLANK)
    else
      var t' := SetCell(t, Cell(color, c));
      if t.col == COLS - 1 then MoveTo(t', t.row + 1, 0) else MoveTo(t', t.row, t.col + 1)
  }

  // ----- the monitor: one buffer of 64 rows

  datatype Buffer = Buffer(cells: seq<Cell>, cursor: nat)

  /** One row up: the first is lost and the last is blank. */
  function Shift(cells: seq<Cell>): (r: seq<Cell>)
    requires |cells| == LIMIT
    ensures |r| == LIMIT
  {
    cells[COLS..] + BlankRow()
  }

  function Settle(b: Buffer): Buffer
    requires |b.cells| == LIMIT
  {
    if b.cursor == LIMIT then Buffer(Shift(b.cells), b.cursor - COLS) else b
  }

  /** monitor_putchar on the buffer. */
  function Put(b: Buffer, color: nat, c: char): Buffer
    requires |b.cells| == LIMIT && b.cursor < LIMIT && (c == BS ==> b.cursor > 0)
  {
    Settle(
      if c == '\n' then b.(cursor := b.cursor + COLS - b.cursor % COLS)
      else if c == BS then Buffer(b.cells[b.cursor - 1 := BLANK], b.cursor - 1)
      else Buffer(b.cells[b.cursor := Cell(color, c)], b.cursor + 1))
  }

  // ----- agreement

  /** The buffer holds the last 64 rows of the screen, with the cursor at the same place. */
  ghost predicate Shows(t: Text, b: Buffer) {
    && TextOk(t) && |b.cells| == LIMIT
    && var off := |t.rows| - KEPT;
       && off <= t.row && b.cursor == (t.row - off) * COLS + t.col
       && forall i :: 0 <= i < LIMIT ==> b.cells[i] == t.rows[off + i / COLS][i % COLS]
  }

  lemma ShowsSet(t: Text, b: Buffer, row: nat, col: nat, cell: Cell)
    requires Shows(t, b) && |t.rows| - KEPT <= row < |t.rows| && col < COLS
    ensures var i := (row - (|t.rows| - KEPT)) * COLS + col;
            && 0 <= i < LIMIT
            && Shows(SetCell(t.(row := row, col := col), cell), Buffer(b.cells[i := cell], i))
  {
    var off := |t.rows| - KEPT;
    var i := (row - off) * COLS + col;
    assert i / COLS == row - off && i % COLS == col;
    var t' := SetCell(t.(row := row, col := col), cell);
    forall k | 0 <= k < LIMIT
      ensures b.cells[i := cell][k] == t'.rows[off + k / COLS][k % COLS]
    {
      if k != i && k / COLS == i / COLS {
        assert k % COLS != i % COLS;
      }
    }
  }

  /** Moving the cursor to the start of the next row, or staying in a row, agrees on both sides. */
  lemma ShowsMove(t: Text, b: Buffer, row: nat, col: nat)
    requires Shows(t, b) && |t.rows| - KEPT <= row <= |t.rows| && col < COLS && (row == |t.rows| ==> col == 0)
    ensures Shows(MoveTo(t, row, col), Settle(b.(cursor := (row - (|t.rows| - KEPT)) * COLS + col)))
  {
    if row == |t.rows| {
      var t' := MoveTo(t, row, col);
      var off := |t.rows| - KEPT;
      forall i | 0 <= i < LIMIT
        ensures Shift(b.cells)[i] == t'.rows[off + 1 + i / COLS][i % COLS]
      {
        ShiftedCell(t, b, i);
      }
    }
  }

  lemma ShiftedCell(t: Text, b: Buffer, i: nat)
    requires Shows(t, b) && i < LIMIT
    ensures var off := |t.rows| - KEPT;
            Shift(b.cells)[i] == (t.rows + [BlankRow()])[off + 1 + i / COLS][i % COLS]
  {
    if i < LIMIT - COLS {
      assert Shift(b.cells)[i] == b.cells[i + COLS];
      assert (i + COLS) / COLS == i / COLS + 1 && (i + COLS) % COLS == i % COLS;
    } else {
      assert i / COLS == KEPT - 1;
    }
  }

  /** What agreement says of the cursor alone. */
  lemma CursorPlace(t: Text, b: Buffer)
    requires Shows(t, b)
    ensures TextOk(t) && |b.cells| == LIMIT && b.cursor < LIMIT && |t.rows| - KEPT <= t.row
    ensures b.cursor == (t.row - (|t.rows| - KEPT)) * COLS + t.col && b.cursor % COLS == t.col
  {
  }

  lemma NewlineAgrees(t: Text, b: Buffer, color: nat)
    requires Shows(t, b) && b.cursor < LIMIT
    ensures Shows(Type(t, color, '\n'), Put(b, color, '\n'))
  {
    hide Shift, Settle, MoveTo, Shows;
    CursorPlace(t, b);
    ShowsMove(t, b, t.row + 1, 0);
    assert (t.row + 1 - (|t.rows| - KEPT)) * COLS == b.cursor + COLS - b.cursor % COLS;
  }

  lemma BackspaceAgrees(t: Text, b: Buffer, color: nat)
    requires Shows(t, b) && 0 < b.cursor < LIMIT
    ensures t.row > 0 || t.col > 0
    ensures Shows(Type(t, color, BS), Put(b, color, BS))
  {
    hide Shift, Shows, SetCell;
    CursorPlace(t, b);
    var row, col := if t.col > 0 then t.row else t.row - 1, if t.col > 0 then t.col - 1 else COLS - 1;
    assert t.col == 0 ==> t.row > |t.rows| - KEPT;
    ShowsSet(t, b, row, col, BLANK);
    assert (row - (|t.rows| - KEPT)) * COLS + col == b.cursor - 1;
    assert t.(row := row, col := col) ==
           if t.col > 0 then t.(col := t.col - 1) else t.(row := t.row - 1, col := COLS - 1);
  }

  lemma PrintAgrees(t: Text, b: Buffer, color: nat, c: char)
    requires Shows(t, b) && b.cursor < LIMIT && c != '\n' && c != BS
    ensures Shows(Type(t, color, c), Put(b, color, c))
  {
    hide Shift, Shows, Settle, MoveTo;
    CursorPlace(t, b);
    ShowsSet(t, b, t.row, t.col, Cell(color, c));
    assert t.(row := t.row, col := t.col) == t;
    var t', b' := SetCell(t, Cell(color, c)), Buffer(b.cells[b.cursor := Cell(color, c)], b.cursor);
    if t.col == COLS - 1 {
      ShowsMove(t', b', t.row + 1, 0);
      assert (t.row + 1 - (|t.rows| - KEPT)) * COLS == b.cursor + 1;
    } else {
      ShowsMove(t', b', t.row, t.col + 1);
    }
  }

  /** Typing a character keeps buffer and screen in agreement, unless it is a backspace at the start of the buffer. */
  lemma PutAgrees(t: Text, b: Buffer, color: nat, c: char)
    requires Shows(t, b) && (c == BS ==> b.cursor > 0)
    ensures b.cursor < LIMIT && (c == BS ==> t.row > 0 || t.col > 0)
    ensures Shows(Type(t, color, c), Put(b, color, c))
  {
    hide Shift, Settle, MoveTo, Shows, Type, Put;
    CursorPlace(t, b);
    if c == '\n' {
      NewlineAgrees(t, b, color);
    } else if c == BS {
      BackspaceAgrees(t, b, color);
    } else {
      PrintAgrees(t, b, color, c);
    }
  }

  // ----- runs

  /** A run of characters with their colours; no backspace at the start of the buffer. */
  ghost predicate Typable(b: Buffer, cs: seq<(nat, char)>)
    requires |b.cells| == LIMIT && b.cursor < LIMIT
    decreases |cs|
  {
    cs == [] ||
    ((cs[0].1 == BS ==> b.cursor > 0) &&
     var b' := Put(b, cs[0].0, cs[0].1);
     |b'.cells| == LIMIT && b'.cursor < LIMIT && Typable(b', cs[1..]))
  }

  ghost function PutAll(b: Buffer, cs: seq<(nat, char)>): Buffer
    requires |b.cells| == LIMIT && b.cursor < LIMIT && Typable(b, cs)
    decreases |cs|
  {
    if cs == [] then b else PutAll(Put(b, cs[0].0, cs[0].1), cs[1..])
  }

  ghost function TypeAll(t: Text, b: Buffer, cs: seq<(nat, char)>): Text
    requires Shows(t, b) && b.cursor < LIMIT && Typable(b, cs)
    decreases |cs|
  {
    if cs == [] then t else
    PutAgrees(t, b, cs[0].0, cs[0].1);
    TypeAll(Type(t, cs[0].0, cs[0].1), Put(b, cs[0].0, cs[0].1), cs[1..])
  }

  /** After any run of characters the buffer is the last 64 rows of the screen that got the same characters. */
  lemma {:induction false} RunAgrees(t: Text, b: Buffer, cs: seq<(nat, char)>)
    requires Shows(t, b) && b.cursor < LIMIT && Typable(b, cs)
    ensures Shows(TypeAll(t, b, cs), PutAll(b, cs))
    decreases |cs|
  {
    if cs != [] {
      PutAgrees(t, b, cs[0].0, cs[0].1);
      RunAgrees(Type(t, cs[0].0, cs[0].1), Put(b, cs[0].0, cs[0].1), cs[1..]);
    }
  }

  /** The screen a monitor starts with, as monitor_init finds it in video memory: the 64 rows, and the cursor in
      them. */
  function Opened(b: Buffer): Text
    requires |b.cells| == LIMIT
  {
    Text(seq(KEPT, r requires 0 <= r < KEPT => b.cells[r * COLS..(r + 1) * COLS]), b.cursor / COLS, b.cursor % COLS)
  }

  /** Whatever monitor_init finds, buffer and screen agree, so every run of characters may start there. */
  lemma OpenedShows(b: Buffer)
    requires |b.cells| == LIMIT && b.cursor < LIMIT
    ensures Shows(Opened(b), b)
  {
    var t := Opened(b);
    forall i | 0 <= i < LIMIT
      ensures b.cells[i] == t.rows[i / COLS][i % COLS]
    {
      assert i == i / COLS * COLS + i % COLS;
    }
  }

  // ----- several monitors

  /** A call: a character for a monitor, a row up or down on the one shown, or another one shown. */
  datatype Call = Char(i: nat, c: char) | Up | Down | Show(i: nat)

  /** The characters of a sequence of calls that are for monitor `i`. */
  function For(calls: seq<Call>, i: nat): seq<char> {
    if calls == [] then []
    else (if calls[0].Char? && calls[0].i == i then [calls[0].c] else []) + For(calls[1..], i)
  }

  /** The monitor shown after the calls. */
  function Shown(calls: seq<Call>, i: nat): nat {
    if calls == [] then i else Shown(calls[1..], if calls[0].Show? then calls[0].i else i)
  }

  /** Characters in one colour. */
  function Coloured(color: nat, cs: seq<char>): (r: seq<(nat, char)>)
    ensures |r| == |cs|
  {
    seq(|cs|, k requires 0 <= k < |cs| => (color, cs[k]))
  }

  /** What a call leaves of the characters for monitor `i`. */
  lemma ForStep(calls: seq<Call>, i: nat, color: nat)
    requires calls != []
    ensures var cs, rest := Coloured(color, For(calls, i)), Coloured(color, For(calls[1..], i));
            if calls[0].Char? && calls[0].i == i then |cs| > 0 && cs[0] == (color, calls[0].c) && cs[1..] == rest
            else cs == rest
  {
  }

  /** Taking the first call, monitor `i` can go on with the rest, and gets to the same buffer. */
  lemma PutStep(b: Buffer, color: nat, calls: seq<Call>, i: nat)
    requires |b.cells| == LIMIT && b.cursor < LIMIT && calls != [] && Typable(b, Coloured(color, For(calls, i)))
    ensures var rest := Coloured(color, For(calls[1..], i));
            if calls[0].Char? && calls[0].i == i then
              && (calls[0].c == BS ==> b.cursor > 0)
              && var b' := Put(b, color, calls[0].c);
                 && |b'.cells| == LIMIT && b'.cursor < LIMIT && Typable(b', rest)
                 && PutAll(b, Coloured(color, For(calls, i))) == PutAll(b', rest)
            else Typable(b, rest) && PutAll(b, Coloured(color, For(calls, i))) == PutAll(b, rest)
  {
    hide Put, For, Coloured;
    ForStep(calls, i, color);
  }

  /** From the window `was` on, `now` is the first whole number of rows further down that shows the cursor. */
  predicate FirstShowing(was: nat, cursor: nat, now: nat) {
    && was <= now && (now - was) % COLS == 0
    && cursor < now + CRT_SIZE && (now == was || now - COLS + CRT_SIZE <= cursor)
  }

  // ----- which cell a character touches

  /** The video cell written for a character other than a newline, in the 16 bits the code passes on. */
  function Target(start: nat, cursor: nat, c: char): int {
    (if c == BS then start + cursor - 1 else start + cursor) % 0x1_0000
  }

  /** A character is written inside its own monitor exactly unless it is a backspace at the start of the buffer, which
      lands on the cell before, for the first monitor on the last one that 16 bits reach. */
  lemma TargetInside(start: nat, cursor: nat, c: char)
    requires start + LIMIT <= 0x1_0000 && cursor < LIMIT
    ensures start <= Target(start, cursor, c) < start + LIMIT <==> !(c == BS && cursor == 0)
    ensures c == BS && cursor == 0 ==> Target(start, cursor, c) == if start == 0 then 0xFFFF else start - 1
  {
  }
}

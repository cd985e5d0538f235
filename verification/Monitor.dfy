/**
  drivers/monitor/monitor.c in its own form: several monitors over one video memory and one pair of
  hardware registers.
 */
module Monitor {
  import opened MonitorSpec

  /** A monitor: its first video cell, and its window and cursor relative to it. */
  datatype Mon = Mon(start: nat, screen: nat, cursor: nat, color: nat, foreground: bool)

  class Video {
    const vram: array<Cell>
    var mons: seq<Mon>
    var crtStart: nat
    var crtCursor: nat

    /** Each monitor has its own stretch of video memory; every window is a whole number of rows into its buffer and
        ends inside it; and the registers show the one monitor in the foreground. */
    ghost predicate Valid()
      reads this
    {
      && |mons| * LIMIT <= vram.Length
      && (forall i :: 0 <= i < |mons| ==>
            && mons[i].start == i * LIMIT && mons[i].cursor < LIMIT
            && mons[i].screen % COLS == 0 && mons[i].screen + CRT_SIZE <= LIMIT
            && (mons[i].foreground ==> crtStart == mons[i].start + mons[i].screen))
      && (forall i, j :: 0 <= i < j < |mons| ==> !(mons[i].foreground && mons[j].foreground))
    }

    /** monitor_init of `n` monitors over a video memory; the first takes its window and cursor from the hardware. */
    constructor (vram: array<Cell>, n: nat, window: nat, cursor: nat)
      requires n * LIMIT <= vram.Length
      ensures this.vram == vram && |mons| == n && crtStart == window && crtCursor == cursor
      ensures forall i :: 0 <= i < n ==>
                mons[i] == Mon(i * LIMIT, if i == 0 then window else 0,
                        if i == 0 then cursor else 0, BLANK.color, false)
      ensures n == 0 || (window % COLS == 0 && window + CRT_SIZE <= LIMIT && cursor < LIMIT) <==> Valid()
    {
      this.vram := vram;
      mons := seq(n, i requires 0 <= i < n =>
        Mon(i * LIMIT, if i == 0 then window else 0, if i == 0 then cursor else 0, BLANK.color, false));
      crtStart, crtCursor := window, cursor;
      new;
      assert n > 0 ==> mons[0].screen == window && mons[0].cursor == cursor;
    }

    ghost function BufferOf(i: nat): Buffer
      requires Valid() && i < |mons|
      reads this, vram
    {
      StartBound(i, |mons|);
      Buffer(vram[mons[i].start..mons[i].start + LIMIT], mons[i].cursor)
    }

    /** memmove of all rows but the first one row up. */
    method MoveRows(start: nat)
      requires start + LIMIT <= vram.Length
      modifies vram
      ensures forall x :: 0 <= x < vram.Length ==>
                vram[x] == old(vram[if start <= x < start + LIMIT - COLS then x + COLS else x])
    {
      var i := start;
      while i < start + LIMIT - COLS
        invariant start <= i <= start + LIMIT - COLS
        invariant forall x :: 0 <= x < vram.Length ==> vram[x] == old(vram[if start <= x < i then x + COLS else x])
      {
        vram[i] := vram[i + COLS];
        i := i + 1;
      }
    }

    method BlankLastRow(start: nat)
      requires start + LIMIT <= vram.Length
      modifies vram
      ensures forall x :: 0 <= x < vram.Length ==>
                vram[x] == if start + LIMIT - COLS <= x < start + LIMIT then BLANK else old(vram[x])
    {
      var i := start + LIMIT - COLS;
      while i < start + LIMIT
        invariant start + LIMIT - COLS <= i <= start + LIMIT
        invariant forall x :: 0 <= x < vram.Length ==>
                    vram[x] == if start + LIMIT - COLS <= x < i then BLANK else old(vram[x])
      {
        vram[i] := BLANK;
        i := i + 1;
      }
    }

    /** shift by one row up: move, then blank the last row. */
    method ShiftUp(start: nat)
      requires start + LIMIT <= vram.Length
      modifies vram
      ensures vram[start..start + LIMIT] == Shift(old(vram[start..start + LIMIT]))
      ensures forall x :: 0 <= x < vram.Length && !(start <= x < start + LIMIT) ==> vram[x] == old(vram[x])
    {
      ghost var was := vram[start..start + LIMIT];
      MoveRows(start);
      BlankLastRow(start);
      forall x | 0 <= x < LIMIT
        ensures vram[start..start + LIMIT][x] == Shift(was)[x]
      {
        assert x < LIMIT - COLS ==> was[x + COLS] == old(vram[start + x + COLS]);
      }
    }

    /** _monitor_putchar at cell `k` of the monitor at `start`. */
    method Poke(start: nat, k: nat, cell: Cell)
      requires start + LIMIT <= vram.Length && k < LIMIT
      modifies vram
      ensures vram[start..start + LIMIT] == old(vram[start..start + LIMIT])[k := cell]
      ensures forall x :: 0 <= x < vram.Length && !(start <= x < start + LIMIT) ==> vram[x] == old(vram[x])
    {
      vram[start + k] := cell;
    }

    /** The part of monitor_putchar that writes: the cells of the monitor at `start`, and its next cursor. */
    method Write(start: nat, at: nat, color: nat, c: char) returns (cursor: nat)
      requires start + LIMIT <= vram.Length && at < LIMIT && (c == BS ==> at > 0)
      modifies vram
      ensures cursor < LIMIT
      ensures Buffer(vram[start..start + LIMIT], cursor) == Put(Buffer(old(vram[start..start + LIMIT]), at), color, c)
      ensures forall x :: 0 <= x < vram.Length && !(start <= x < start + LIMIT) ==> vram[x] == old(vram[x])
    {
      hide Shift;
      cursor := at;
      if c == '\n' {
        cursor := cursor + COLS - cursor % COLS;
      } else if c == BS {
        cursor := cursor - 1;
        Poke(start, cursor, BLANK);
      } else {
        Poke(start, cursor, Cell(color, c));
        cursor := cursor + 1;
      }
      if cursor == LIMIT {
        ShiftUp(start);
        cursor := cursor - COLS;
      }
    }

    /** screen_detached, scrolled until it no longer holds. */
    method Follow(i: nat)
      requires Valid() && i < |mons| && mons[i].foreground
      modifies this`mons, this`crtStart
      ensures Valid() && |mons| == |old(mons)| && mons == old(mons)[i := old(mons)[i].(screen := mons[i].screen)]
      ensures FirstShowing(old(mons)[i].screen, mons[i].cursor, mons[i].screen)
    {
      ghost var was, cursor := mons[i].screen, mons[i].cursor;
      while mons[i].cursor >= mons[i].screen + CRT_SIZE
        invariant Valid() && |mons| == |old(mons)| && mons == old(mons)[i := old(mons)[i].(screen := mons[i].screen)]
        invariant was <= mons[i].screen && (mons[i].screen - was) % COLS == 0
        invariant mons[i].screen == was || mons[i].screen - COLS + CRT_SIZE <= cursor
        decreases LIMIT - mons[i].screen
      {
        ScrollDown(i);
      }
    }

    /** The first half of monitor_putchar, up to the new cursor. */
    method Draw(i: nat, c: char)
      requires Valid() && i < |mons| && (c == BS ==> mons[i].cursor > 0)
      modifies this`mons, vram
      ensures Valid() && |mons| == |old(mons)| && mons == old(mons)[i := old(mons)[i].(cursor := mons[i].cursor)]
      ensures BufferOf(i) == Put(old(BufferOf(i)), old(mons)[i].color, c)
      ensures forall j :: 0 <= j < |mons| && j != i ==> BufferOf(j) == old(BufferOf(j))
      ensures forall x :: 0 <= x < vram.Length && !(i * LIMIT <= x < (i + 1) * LIMIT) ==> vram[x] == old(vram[x])
    {
      hide Put;
      StartBound(i, |mons|);
      var m := mons[i];
      ghost var was := vram[..];
      var cursor := Write(m.start, m.cursor, m.color, c);
      mons := mons[i := m.(cursor := cursor)];
      forall j | 0 <= j < |mons| && j != i
        ensures BufferOf(j) == old(BufferOf(j))
      {
        StartBound(j, |mons|);
        OthersKeep(was, vram[..], i, j);
      }
    }

    /** monitor_putchar: the buffer takes the character in the monitor's colour; a monitor in the foreground scrolls
        down as far as it must to show the cursor, one in the background leaves the registers alone. */
    method PutChar(i: nat, c: char)
      requires Valid() && i < |mons| && (c == BS ==> mons[i].cursor > 0)
      modifies this, vram
      ensures Valid() && |mons| == |old(mons)|
      ensures BufferOf(i) == Put(old(BufferOf(i)), old(mons)[i].color, c)
      ensures mons == old(mons)[i := old(mons)[i].(cursor := mons[i].cursor, screen := mons[i].screen)]
      ensures forall j :: 0 <= j < |mons| && j != i ==> BufferOf(j) == old(BufferOf(j))
      ensures forall x :: 0 <= x < vram.Length && !(i * LIMIT <= x < (i + 1) * LIMIT) ==> vram[x] == old(vram[x])
      ensures if old(mons)[i].foreground
              then FirstShowing(old(mons)[i].screen, mons[i].cursor, mons[i].screen)
                   && crtCursor == mons[i].start + mons[i].cursor
              else mons[i].screen == old(mons)[i].screen && crtStart == old(crtStart) && crtCursor == old(crtCursor)
    {
      hide Put, FirstShowing;
      Draw(i, c);
      if mons[i].foreground {
        Follow(i);
        crtCursor := mons[i].start + mons[i].cursor;
      }
    }

    method ScrollUp(i: nat)
      requires Valid() && i < |mons| && mons[i].foreground
      modifies this`mons, this`crtStart
      ensures Valid()
      ensures mons == old(mons)[i :=
                old(mons)[i].(screen := if old(mons)[i].screen == 0 then 0 else old(mons)[i].screen - COLS)]
    {
      var m := mons[i];
      if m.screen == 0 { assert mons == mons[i := m]; return; }
      mons := mons[i := m.(screen := m.screen - COLS)];
      crtStart := m.start + m.screen - COLS;
    }

    method ScrollDown(i: nat)
      requires Valid() && i < |mons| && mons[i].foreground
      modifies this`mons, this`crtStart
      ensures Valid()
      ensures var m := old(mons)[i];
              mons == old(mons)[i := m.(screen := if m.cursor < m.screen + CRT_SIZE then m.screen else m.screen + COLS)]
    {
      var m := mons[i];
      if m.cursor < m.screen + CRT_SIZE { assert mons == mons[i := m]; return; }
      mons := mons[i := m.(screen := m.screen + COLS)];
      crtStart := m.start + m.screen + COLS;
    }

    /** monitor_switch from the foreground monitor, if any, to monitor `i`. */
    method Switch(was: int, i: nat)
      requires Valid() && i < |mons| && -1 <= was < |mons|
      requires forall j :: 0 <= j < |mons| && mons[j].foreground ==> j == was
      modifies this
      ensures Valid() && |mons| == |old(mons)| && mons[i].foreground
      ensures mons[i] == old(mons)[i].(foreground := true, screen := mons[i].screen)
      ensures FirstShowing(old(mons)[i].screen, mons[i].cursor, mons[i].screen)
      ensures crtStart == mons[i].start + mons[i].screen && crtCursor == mons[i].start + mons[i].cursor
      ensures forall j :: 0 <= j < |mons| && j != i ==> mons[j] == old(mons)[j].(foreground := false)
    {
      if was != -1 {
        mons := mons[was := mons[was].(foreground := false)];
      }
      mons := mons[i := mons[i].(foreground := true)];
      crtStart := mons[i].start + mons[i].screen;
      crtCursor := mons[i].start + mons[i].cursor;
      Follow(i);
    }

    /** One call. */
    method Take(call: Call, shown: nat) returns (now: nat)
      requires Valid() && shown < |mons| && mons[shown].foreground
      requires call.Char? ==> call.i < |mons| && (call.c == BS ==> mons[call.i].cursor > 0)
      requires call.Show? ==> call.i < |mons|
      modifies this, vram
      ensures Valid() && |mons| == |old(mons)| && now < |mons| && mons[now].foreground
      ensures now == if call.Show? then call.i else shown
      ensures forall j :: 0 <= j < |mons| ==>
                && mons[j].color == old(mons)[j].color
                && BufferOf(j) == if call.Char? && call.i == j
                                  then Put(old(BufferOf(j)), old(mons)[j].color, call.c) else old(BufferOf(j))
    {
      hide Put;
      now := shown;
      if call.Char? {
        PutChar(call.i, call.c);
      } else if call.Up? {
        ScrollUp(shown);
      } else if call.Down? {
        ScrollDown(shown);
      } else {
        Switch(shown, call.i);
        now := call.i;
      }
    }

    /** Any calls in any order: each monitor's buffer takes the characters for it, in order, all in its own colour, and
        nothing else; and the monitor shown last is in the foreground. */
    method Serve(calls: seq<Call>, shown: nat) returns (now: nat)
      requires Valid() && shown < |mons| && mons[shown].foreground
      requires forall k :: 0 <= k < |calls| && (calls[k].Char? || calls[k].Show?) ==> calls[k].i < |mons|
      requires forall i :: 0 <= i < |mons| ==> Typable(BufferOf(i), Coloured(mons[i].color, For(calls, i)))
      modifies this, vram
      ensures Valid() && |mons| == |old(mons)| && now == Shown(calls, shown) < |mons| && mons[now].foreground
      ensures forall i :: 0 <= i < |mons| ==>
                && mons[i].color == old(mons)[i].color
                && BufferOf(i) == PutAll(old(BufferOf(i)), Coloured(old(mons)[i].color, For(calls, i)))
      decreases |calls|
    {
      hide Put, For, Coloured;
      now := shown;
      if calls == [] {
        assert forall i :: For(calls, i) == [] by { NoCalls(calls); }
        return;
      }
      forall i | 0 <= i < |mons| {
        PutStep(BufferOf(i), mons[i].color, calls, i);
      }
      now := Take(calls[0], shown);
      now := Serve(calls[1..], now);
    }
  }

  /** What a monitor holds is out of reach of a character for another. */
  lemma OthersKeep(was: seq<Cell>, now: seq<Cell>, i: nat, j: nat)
    requires |was| == |now| && j * LIMIT + LIMIT <= |was| && i != j
    requires forall x :: 0 <= x < |now| && !(i * LIMIT <= x < i * LIMIT + LIMIT) ==> now[x] == was[x]
    ensures now[j * LIMIT..j * LIMIT + LIMIT] == was[j * LIMIT..j * LIMIT + LIMIT]
  {
    assert j < i ==> j * LIMIT + LIMIT <= i * LIMIT;
    assert i < j ==> i * LIMIT + LIMIT <= j * LIMIT;
  }

  lemma NoCalls(calls: seq<Call>)
    requires calls == []
    ensures forall i :: For(calls, i) == []
  {
  }

  lemma StartBound(i: nat, n: nat)
    requires i < n
    ensures i * LIMIT + LIMIT <= n * LIMIT
  {
  }
}

/** The scrolling screen buffer of kernel/arch/i386/tty.c, edited in place and proved to show
    the last 25 lines of the transcript of TerminalSpec. */
module Terminal {
  import opened Page
  import opened TerminalSpec

  class Screen {
    const buffer: array<uint16>
    var row: nat
    var column: nat
    var color: byte
    ghost var session: Session

    ghost predicate Valid()
      reads this, buffer
    {
      && buffer.Length == CELLS
      && Wrapped(session) && color == session.color
      && row == (if |session.lines| <= HEIGHT then |session.lines| - 1 else HEIGHT - 1)
      && column == |session.lines[|session.lines| - 1].cells|
      && forall i :: 0 <= i < CELLS ==> buffer[i] == Shown(session, i)
    }

    /** terminal_initialize */
    constructor (buffer: array<uint16>)
      requires buffer.Length == CELLS
      modifies buffer
      ensures Valid() && session == Initial() && this.buffer == buffer
    {
      this.buffer := buffer;
      row, column, color, session := 0, 0, LIGHT_GREY_ON_BLACK, Initial();
      new;
      var y := 0;
      while y < HEIGHT
        invariant y <= HEIGHT && row == 0 && column == 0 && color == LIGHT_GREY_ON_BLACK && session == Initial()
        invariant forall i :: 0 <= i < y * WIDTH ==> buffer[i] == VgaEntry(BLANK, color)
      {
        var x := 0;
        while x < WIDTH
          invariant x <= WIDTH && row == 0 && column == 0 && color == LIGHT_GREY_ON_BLACK && session == Initial()
          invariant forall i :: 0 <= i < y * WIDTH + x ==> buffer[i] == VgaEntry(BLANK, color)
        {
          buffer[y * WIDTH + x] := VgaEntry(BLANK, color);
          x := x + 1;
        }
        y := y + 1;
      }
    }

    method SetColor(color: byte)
      requires Valid()
      modifies this
      ensures Valid() && session == old(session).(color := color)
    {
      this.color := color;
      session := session.(color := color);
    }

    /** The scrolling loops of inc_terminal_row: every row moves up, the last one is blanked. */
    method Scroll()
      requires buffer.Length == CELLS
      modifies buffer
      ensures forall i :: 0 <= i < CELLS - WIDTH ==> buffer[i] == old(buffer[i + WIDTH])
      ensures forall i :: CELLS - WIDTH <= i < CELLS ==> buffer[i] == 32 + 0x100 * color
    {
      MoveRows();
      BlankLastRow();
    }

    method MoveRows()
      requires buffer.Length == CELLS
      modifies buffer
      ensures forall i :: 0 <= i < CELLS - WIDTH ==> buffer[i] == old(buffer[i + WIDTH])
    {
      var y := 0;
      while y < HEIGHT - 1
        invariant y <= HEIGHT - 1
        invariant forall i :: 0 <= i < y * WIDTH ==> buffer[i] == old(buffer[i + WIDTH])
        invariant forall i :: y * WIDTH <= i < CELLS ==> buffer[i] == old(buffer[i])
      {
        MoveRow(y);
        y := y + 1;
      }
    }

    /** Row y + 1 is copied to row y. */
    method MoveRow(y: nat)
      requires buffer.Length == CELLS && y < HEIGHT - 1
      modifies buffer
      ensures forall i :: y * WIDTH <= i < y * WIDTH + WIDTH ==> buffer[i] == old(buffer[i + WIDTH])
      ensures forall i :: 0 <= i < CELLS && !(y * WIDTH <= i < y * WIDTH + WIDTH) ==> buffer[i] == old(buffer[i])
    {
      var x := 0;
      while x < WIDTH
        invariant x <= WIDTH
        invariant forall i :: y * WIDTH <= i < y * WIDTH + x ==> buffer[i] == old(buffer[i + WIDTH])
        invariant forall i :: 0 <= i < CELLS && !(y * WIDTH <= i < y * WIDTH + x) ==> buffer[i] == old(buffer[i])
      {
        buffer[y * WIDTH + x] := buffer[y * WIDTH + x + WIDTH];
        x := x + 1;
      }
    }

    method BlankLastRow()
      requires buffer.Length == CELLS
      modifies buffer
      ensures forall i :: 0 <= i < CELLS - WIDTH ==> buffer[i] == old(buffer[i])
      ensures forall i :: CELLS - WIDTH <= i < CELLS ==> buffer[i] == VgaEntry(BLANK, color)
    {
      var i := 0;
      while i < WIDTH
        invariant i <= WIDTH
        invariant forall k :: 0 <= k < CELLS - WIDTH ==> buffer[k] == old(buffer[k])
        invariant forall k :: CELLS - WIDTH <= k < CELLS - WIDTH + i ==> buffer[k] == VgaEntry(BLANK, color)
      {
        buffer[(HEIGHT - 1) * WIDTH + i] := VgaEntry(BLANK, color);
        i := i + 1;
      }
    }

    /** inc_terminal_row, with the column already back at 0 */
    method NextRow()
      requires buffer.Length == CELLS && session.lines != [] && color == session.color
      requires row == (if |session.lines| <= HEIGHT then |session.lines| - 1 else HEIGHT - 1)
      requires forall i :: 0 <= i < CELLS ==> buffer[i] == Shown(session, i)
      modifies `row, `session, buffer
      ensures session == OpenLine(old(session))
      ensures row == (if |session.lines| <= HEIGHT then |session.lines| - 1 else HEIGHT - 1)
      ensures forall i :: 0 <= i < CELLS ==> buffer[i] == Shown(session, i)
    {
      ghost var s := session;
      row := row + 1;
      session := OpenLine(s);
      if row == HEIGHT {
        row := row - 1;
        Scroll();
        forall i | 0 <= i < CELLS
          ensures buffer[i] == Shown(session, i)
        {
          ScrollShown(s, i);
        }
      } else {
        forall i | 0 <= i < CELLS
          ensures Shown(session, i) == Shown(s, i)
        {
          OpenShown(s, i);
        }
      }
    }

    method PutEntryAt(c: byte, x: nat, y: nat)
      requires buffer.Length == CELLS && x < WIDTH && y < HEIGHT
      modifies buffer
      ensures buffer[y * WIDTH + x] == c + 0x100 * color
      ensures forall i :: 0 <= i < CELLS && i != y * WIDTH + x ==> buffer[i] == old(buffer[i])
    {
      buffer[y * WIDTH + x] := VgaEntry(c, color);
    }

    method PutChar(c: byte)
      requires Valid()
      modifies `row, `column, `session, buffer
      ensures Valid() && session == Put(old(session), c)
    {
      if c != NEWLINE {
        ghost var s := session;
        PutEntryAt(c, column, row);
        session := AddCell(s, c);
        forall i | 0 <= i < CELLS
          ensures buffer[i] == Shown(session, i)
        {
          AddShown(s, c, row, i);
        }
        column := column + 1;
        if column == WIDTH {
          column := 0;
          NextRow();
        }
      } else {
        column := 0;
        NextRow();
      }
    }

    method Write(data: seq<byte>)
      requires Valid()
      modifies `row, `column, `session, buffer
      ensures Valid() && session == PutAll(old(session), data)
    {
      var i := 0;
      while i < |data|
        invariant i <= |data| && Valid()
        invariant PutAll(session, data[i..]) == PutAll(old(session), data)
      {
        PutChar(data[i]);
        i := i + 1;
      }
    }
  }

  lemma OpenShown(s: Session, i: nat)
    requires s.lines != [] && |s.lines| < HEIGHT && i < CELLS
    ensures Shown(OpenLine(s), i) == Shown(s, i)
  {
  }

  lemma ScrollShown(s: Session, i: nat)
    requires |s.lines| >= HEIGHT && i < CELLS
    ensures Shown(OpenLine(s), i) == if i < CELLS - WIDTH then Shown(s, i + WIDTH) else VgaEntry(BLANK, s.color)
  {
  }

  lemma AddShown(s: Session, c: byte, row: nat, i: nat)
    requires Wrapped(s) && i < CELLS && row == if |s.lines| <= HEIGHT then |s.lines| - 1 else HEIGHT - 1
    ensures Shown(AddCell(s, c), i) ==
            if i == row * WIDTH + |s.lines[|s.lines| - 1].cells| then VgaEntry(c, s.color) else Shown(s, i)
  {
  }
}

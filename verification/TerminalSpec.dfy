/** The text terminal of kernel/arch/i386/tty.c as an unbounded transcript of 80-column lines of
    which the screen shows the last 25. */
module TerminalSpec {
  import opened Page

  const WIDTH: nat := 80
  const HEIGHT: nat := 25
  const CELLS: nat := 2000
  const NEWLINE: byte := 10
  const BLANK: byte := 32
  const LIGHT_GREY_ON_BLACK: byte := 7

  type uint16 = x: int | 0 <= x < 0x1_0000

  /** vga_entry */
  function VgaEntry(c: byte, color: byte): uint16 { c + 0x100 * color }

  /** The cells written on a line, and the colour of the blanks after them. */
  datatype Line = Line(cells: seq<uint16>, fill: byte)

  /** Every line so far; the cursor is behind the last cell of the last one. */
  datatype Session = Session(lines: seq<Line>, color: byte)

  const FIRST_LINE: Line := Line([], LIGHT_GREY_ON_BLACK)

  predicate Wrapped(s: Session) {
    && s.lines != []
    && (forall k :: 0 <= k < |s.lines| ==> |s.lines[k].cells| <= WIDTH)
    && |s.lines[|s.lines| - 1].cells| < WIDTH
  }

  function Initial(): Session { Session([FIRST_LINE], LIGHT_GREY_ON_BLACK) }

  /** The next line. The first screenful was blanked at the start, later lines when they scroll in. */
  function OpenLine(s: Session): Session {
    s.(lines := s.lines + [Line([], if |s.lines| < HEIGHT then LIGHT_GREY_ON_BLACK else s.color)])
  }

  /** A cell added to the last line. */
  function AddCell(s: Session, c: byte): Session
    requires s.lines != []
  {
    var last := |s.lines| - 1;
    s.(lines := s.lines[last := s.lines[last].(cells := s.lines[last].cells + [VgaEntry(c, s.color)])])
  }

  /** terminal_putchar */
  function Put(s: Session, c: byte): (t: Session)
    requires Wrapped(s)
    ensures Wrapped(t)
  {
    if c == NEWLINE then OpenLine(s)
    else
      var t := AddCell(s, c);
      if |t.lines[|t.lines| - 1].cells| == WIDTH then OpenLine(t) else t
  }

  /** terminal_write */
  function PutAll(s: Session, text: seq<byte>): (t: Session)
    requires Wrapped(s)
    ensures Wrapped(t)
    decreases |text|
  {
    if text == [] then s else PutAll(Put(s, text[0]), text[1..])
  }

  // ---- the screen

  /** Transcript lines above the screen. */
  function Scrolled(s: Session): nat {
    if |s.lines| <= HEIGHT then 0 else |s.lines| - HEIGHT
  }

  function LineCell(l: Line, x: nat): uint16 {
    if x < |l.cells| then l.cells[x] else VgaEntry(BLANK, l.fill)
  }

  /** The cell the last 25 lines put at position i of the screen. */
  function Shown(s: Session, i: nat): uint16 {
    var k := Scrolled(s) + i / WIDTH;
    LineCell(if k < |s.lines| then s.lines[k] else FIRST_LINE, i % WIDTH)
  }

  // ---- the transcript is the text cut at newlines and every 80 characters

  /** A text without newlines cut into lines; an exact multiple of 80 leaves an empty line open. */
  function Chunks(text: seq<byte>): seq<seq<byte>> {
    if |text| < WIDTH then [text] else [text[..WIDTH]] + Chunks(text[WIDTH..])
  }

  /** Index of the first newline, or |text|. */
  function LineEnd(text: seq<byte>): (n: nat)
    ensures n <= |text| && NEWLINE !in text[..n] && (n < |text| ==> text[n] == NEWLINE)
  {
    if text == [] || text[0] == NEWLINE then 0 else 1 + LineEnd(text[1..])
  }

  function Cut(text: seq<byte>): seq<seq<byte>>
    decreases |text|
  {
    var n := LineEnd(text);
    if n == |text| then Chunks(text) else Chunks(text[..n]) + Cut(text[n + 1..])
  }

  /** The characters of cells: their low bytes. */
  function Chars(cells: seq<uint16>): seq<byte> { seq(|cells|, i requires 0 <= i < |cells| => cells[i] % 0x100) }

  /** The colours of cells: their high bytes. */
  function Colors(cells: seq<uint16>): seq<byte> { seq(|cells|, i requires 0 <= i < |cells| => cells[i] / 0x100) }

  lemma CellAdded(cells: seq<uint16>, c: byte, color: byte)
    ensures Chars(cells + [VgaEntry(c, color)]) == Chars(cells) + [c]
    ensures Colors(cells + [VgaEntry(c, color)]) == Colors(cells) + [color]
  {
  }

  /** From line `from` on, the transcript holds these lines. */
  ghost predicate Holds(s: Session, from: nat, text: seq<seq<byte>>) {
    |s.lines| == from + |text| && forall k :: 0 <= k < |text| ==> Chars(s.lines[from + k].cells) == text[k]
  }

  lemma {:induction false} LineEndAt(a: seq<byte>, text: seq<byte>)
    requires NEWLINE !in a
    ensures LineEnd(a + text) == |a| + LineEnd(text)
  {
    if a == [] {
      assert a + text == text;
    } else {
      assert (a + text)[1..] == a[1..] + text;
      LineEndAt(a[1..], text);
    }
  }

  lemma ChunksFullLine(a: seq<byte>, text: seq<byte>)
    requires |a| == WIDTH
    ensures Chunks(a + text) == [a] + Chunks(text)
  {
    assert (a + text)[..WIDTH] == a && (a + text)[WIDTH..] == text;
  }

  /** A full line without a newline is cut off by itself. */
  lemma CutFullLine(a: seq<byte>, text: seq<byte>)
    requires |a| == WIDTH && NEWLINE !in a
    ensures Cut(a + text) == [a] + Cut(text)
  {
    LineEndAt(a, text);
    var n := LineEnd(text);
    var whole := a + text;
    ChunksFullLine(a, text[..n]);
    if n < |text| {
      assert whole[..WIDTH + n] == a + text[..n] && whole[WIDTH + n + 1..] == text[n + 1..];
      assert [a] + Chunks(text[..n]) + Cut(text[n + 1..]) == [a] + (Chunks(text[..n]) + Cut(text[n + 1..]));
    } else {
      assert text[..n] == text;
    }
  }

  lemma CutAtNewline(a: seq<byte>, text: seq<byte>)
    requires |a| < WIDTH && NEWLINE !in a && text != [] && text[0] == NEWLINE
    ensures Cut(a + text) == [a] + Cut(text[1..])
  {
    LineEndAt(a, text);
    assert (a + text)[..|a|] == a && (a + text)[|a| + 1..] == text[1..];
  }

  lemma CutShort(a: seq<byte>)
    requires |a| < WIDTH && NEWLINE !in a
    ensures Cut(a) == [a]
  {
  }

  /** What one character does to the last line, which holds `open` so far. */
  lemma PutShape(s: Session, open: seq<byte>, c: byte)
    requires Wrapped(s) && Chars(s.lines[|s.lines| - 1].cells) == open
    ensures var (t, last) := (Put(s, c), |s.lines| - 1);
      var line := if c == NEWLINE then open else open + [c];
      var closed := c == NEWLINE || |line| == WIDTH;
      && t.color == s.color && t.lines[..last] == s.lines[..last]
      && |t.lines| == |s.lines| + (if closed then 1 else 0) && Chars(t.lines[last].cells) == line
      && (closed ==> Chars(t.lines[last + 1].cells) == [])
  {
    CellAdded(s.lines[|s.lines| - 1].cells, c, s.color);
  }

  /** Cutting a text character by character. */
  lemma CutStep(open: seq<byte>, text: seq<byte>)
    requires |open| < WIDTH && NEWLINE !in open && text != []
    ensures var line := if text[0] == NEWLINE then open else open + [text[0]];
      Cut(open + text) ==
      if text[0] == NEWLINE || |line| == WIDTH then [line] + Cut(text[1..]) else Cut(line + text[1..])
  {
    if text[0] == NEWLINE {
      CutAtNewline(open, text);
    } else {
      assert open + text == (open + [text[0]]) + text[1..];
      if |open| + 1 == WIDTH { CutFullLine(open + [text[0]], text[1..]); }
    }
  }

  /** Behind an open line that holds `open`, the text continues the transcript as if cut up. */
  ghost predicate ContinuesAs(s: Session, open: seq<byte>, text: seq<byte>)
    requires Wrapped(s)
  {
    var t := PutAll(s, text);
    && t.color == s.color
    && Holds(t, |s.lines| - 1, Cut(open + text))
    && t.lines[..|s.lines| - 1] == s.lines[..|s.lines| - 1]
  }

  lemma ContinueLine(s: Session, open: seq<byte>, text: seq<byte>)
    requires Wrapped(s) && NEWLINE !in open && Chars(s.lines[|s.lines| - 1].cells) == open
    requires text != [] && text[0] != NEWLINE && |open| + 1 < WIDTH
    requires ContinuesAs(Put(s, text[0]), open + [text[0]], text[1..])
    ensures ContinuesAs(s, open, text)
  {
    PutShape(s, open, text[0]);
    CutStep(open, text);
    assert PutAll(s, text) == PutAll(Put(s, text[0]), text[1..]);
  }

  lemma CloseLine(s: Session, open: seq<byte>, text: seq<byte>)
    requires Wrapped(s) && NEWLINE !in open && Chars(s.lines[|s.lines| - 1].cells) == open
    requires text != [] && (text[0] == NEWLINE || |open| + 1 == WIDTH)
    requires ContinuesAs(Put(s, text[0]), [], text[1..])
    ensures ContinuesAs(s, open, text)
  {
    var line := if text[0] == NEWLINE then open else open + [text[0]];
    var t, u := Put(s, text[0]), PutAll(s, text);
    PutShape(s, open, text[0]);
    CutStep(open, text);
    assert u == PutAll(t, text[1..]);
    assert [] + text[1..] == text[1..];
    Prepend(u, |s.lines| - 1, line, Cut(text[1..]), t);
  }

  /** Text put behind an open line: the lines from there on are those of the text cut up. */
  lemma {:induction false} PutAllCuts(s: Session, open: seq<byte>, text: seq<byte>)
    requires Wrapped(s) && NEWLINE !in open && Chars(s.lines[|s.lines| - 1].cells) == open
    ensures ContinuesAs(s, open, text)
    decreases |text|
  {
    if text == [] {
      assert open + text == open;
      CutShort(open);
    } else {
      PutShape(s, open, text[0]);
      if text[0] != NEWLINE && |open| + 1 < WIDTH {
        PutAllCuts(Put(s, text[0]), open + [text[0]], text[1..]);
        ContinueLine(s, open, text);
      } else {
        PutAllCuts(Put(s, text[0]), [], text[1..]);
        CloseLine(s, open, text);
      }
    }
  }

  /** A line closed before the lines that follow it. */
  lemma Prepend(u: Session, last: nat, line: seq<byte>, text: seq<seq<byte>>, t: Session)
    requires Holds(u, last + 1, text) && |t.lines| == last + 2 && u.lines[..last + 1] == t.lines[..last + 1]
    requires Chars(t.lines[last].cells) == line
    ensures Holds(u, last, [line] + text) && u.lines[..last] == t.lines[..last]
  {
  }

  // ---- rows of characters and colours, independent of how a cell is stored

  /** A row of the transcript: its characters, the colour each was written in, and the colour its
      blanks were given. */
  datatype Row = Row(text: seq<byte>, ink: seq<byte>, fill: byte)

  datatype Paper = Paper(rows: seq<Row>, color: byte)

  const NEW_PAPER: Paper := Paper([Row([], [], 7)], 7)

  /** The blanks of the first 25 rows are light grey, later ones have the colour in force. */
  function NewRow(p: Paper): Paper { p.(rows := p.rows + [Row([], [], if |p.rows| < 25 then 7 else p.color)]) }

  function Type(p: Paper, c: byte): (q: Paper)
    requires p.rows != []
    ensures q.rows != []
  {
    var last := |p.rows| - 1;
    var r := p.rows[last];
    var q := p.(rows := p.rows[last := Row(r.text + [c], r.ink + [p.color], r.fill)]);
    if c == 10 then NewRow(p) else if |r.text| == 79 then NewRow(q) else q
  }

  function TypeAll(p: Paper, text: seq<byte>): (q: Paper)
    requires p.rows != []
    ensures q.rows != []
    decreases |text|
  {
    if text == [] then p else TypeAll(Type(p, text[0]), text[1..])
  }

  /** terminal_setcolor and terminal_write */
  datatype Call = SetColor(color: byte) | Write(text: seq<byte>)

  function Perform(s: Session, calls: seq<Call>): (t: Session)
    requires Wrapped(s)
    ensures Wrapped(t)
    decreases |calls|
  {
    if calls == [] then s
    else
      var t := if calls[0].SetColor? then s.(color := calls[0].color) else PutAll(s, calls[0].text);
      Perform(t, calls[1..])
  }

  function Paint(p: Paper, calls: seq<Call>): (q: Paper)
    requires p.rows != []
    ensures q.rows != []
    decreases |calls|
  {
    if calls == [] then p
    else
      var q := if calls[0].SetColor? then p.(color := calls[0].color) else TypeAll(p, calls[0].text);
      Paint(q, calls[1..])
  }

  /** The transcript has the characters and colours of the rows. */
  ghost predicate Matches(s: Session, p: Paper) {
    && s.color == p.color && |s.lines| == |p.rows|
    && forall k :: 0 <= k < |p.rows| ==>
         Chars(s.lines[k].cells) == p.rows[k].text && Colors(s.lines[k].cells) == p.rows[k].ink
         && s.lines[k].fill == p.rows[k].fill
  }

  lemma TypeMatches(s: Session, p: Paper, c: byte)
    requires Wrapped(s) && p.rows != [] && Matches(s, p)
    ensures Matches(Put(s, c), Type(p, c))
  {
    CellAdded(s.lines[|s.lines| - 1].cells, c, s.color);
  }

  lemma {:induction false} TypeAllMatches(s: Session, p: Paper, text: seq<byte>)
    requires Wrapped(s) && p.rows != [] && Matches(s, p)
    ensures Matches(PutAll(s, text), TypeAll(p, text))
    decreases |text|
  {
    if text != [] {
      TypeMatches(s, p, text[0]);
      TypeAllMatches(Put(s, text[0]), Type(p, text[0]), text[1..]);
    }
  }

  lemma {:induction false} PaintMatches(s: Session, p: Paper, calls: seq<Call>)
    requires Wrapped(s) && p.rows != [] && Matches(s, p)
    ensures Matches(Perform(s, calls), Paint(p, calls))
    decreases |calls|
  {
    if calls != [] {
      if calls[0].SetColor? {
        PaintMatches(s.(color := calls[0].color), p.(color := calls[0].color), calls[1..]);
      } else {
        TypeAllMatches(s, p, calls[0].text);
        PaintMatches(PutAll(s, calls[0].text), TypeAll(p, calls[0].text), calls[1..]);
      }
    }
  }

  /** The last 25 rows are shown: the low byte of a cell is its character, the high byte the colour
      it was written in or its row was blanked with. */
  lemma MatchesShown(s: Session, p: Paper, i: nat)
    requires Matches(s, p) && i < 2000
    ensures var k, x := (if |p.rows| <= 25 then 0 else |p.rows| - 25) + i / 80, i % 80;
      && Shown(s, i) % 0x100 == (if k < |p.rows| && x < |p.rows[k].text| then p.rows[k].text[x] else 32)
      && Shown(s, i) / 0x100 == (if k >= |p.rows| then 7 else if x < |p.rows[k].ink| then p.rows[k].ink[x]
                                 else p.rows[k].fill)
  {
    var k, x := (if |p.rows| <= 25 then 0 else |p.rows| - 25) + i / 80, i % 80;
    if k < |p.rows| && x < |p.rows[k].text| {
      assert Chars(s.lines[k].cells)[x] == p.rows[k].text[x] && Colors(s.lines[k].cells)[x] == p.rows[k].ink[x];
    }
  }

  /** The same after any calls on a new terminal. */
  lemma CallsShown(calls: seq<Call>, i: nat)
    requires i < 2000
    ensures var t, rows := Perform(Initial(), calls), Paint(NEW_PAPER, calls).rows;
      var k, x := (if |rows| <= 25 then 0 else |rows| - 25) + i / 80, i % 80;
      && Shown(t, i) % 0x100 == (if k < |rows| && x < |rows[k].text| then rows[k].text[x] else 32)
      && Shown(t, i) / 0x100 == (if k >= |rows| then 7 else if x < |rows[k].ink| then rows[k].ink[x] else rows[k].fill)
  {
    PaintMatches(Initial(), NEW_PAPER, calls);
    MatchesShown(Perform(Initial(), calls), Paint(NEW_PAPER, calls), i);
  }

  // ---- the rows are the text of all calls cut up

  function TextOf(calls: seq<Call>): seq<byte> {
    if calls == [] then [] else (if calls[0].Write? then calls[0].text else []) + TextOf(calls[1..])
  }

  /** Cutting a text that goes on after a: only the last line cut off a is continued. */
  ghost predicate CutsOn(a: seq<byte>, b: seq<byte>) {
    var ls := Cut(a);
    var n := |ls| - 1;
    && n >= 0 && |ls[n]| < WIDTH && NEWLINE !in ls[n]
    && Cut(a + b) == ls[..n] + Cut(ls[n] + b)
  }

  lemma {:induction false} CutAppend(open: seq<byte>, a: seq<byte>, b: seq<byte>)
    requires |open| < WIDTH && NEWLINE !in open
    ensures CutsOn(open + a, b)
    decreases |a|
  {
    if a == [] {
      CutsOnShort(open, b);
      assert open + a == open;
    } else {
      var line := if a[0] == NEWLINE then open else open + [a[0]];
      if a[0] == NEWLINE || |line| == WIDTH {
        CutAppend([], a[1..], b);
        assert [] + a[1..] == a[1..];
        CutsOnClosed(open, a, line, b);
      } else {
        CutAppend(line, a[1..], b);
        assert line + a[1..] == open + a;
      }
    }
  }

  lemma CutsOnShort(open: seq<byte>, b: seq<byte>)
    requires |open| < WIDTH && NEWLINE !in open
    ensures CutsOn(open, b)
  {
    CutShort(open);
  }

  predicate Closes(open: seq<byte>, a: seq<byte>, line: seq<byte>) {
    && |open| < WIDTH && NEWLINE !in open && a != []
    && line == (if a[0] == NEWLINE then open else open + [a[0]]) && (a[0] == NEWLINE || |line| == WIDTH)
  }

  lemma CutsOnClosed(open: seq<byte>, a: seq<byte>, line: seq<byte>, b: seq<byte>)
    requires Closes(open, a, line) && CutsOn(a[1..], b)
    ensures CutsOn(open + a, b)
  {
    CutClosed(open, a, line, open + a, a[1..]);
    assert (a + b)[1..] == a[1..] + b && open + (a + b) == open + a + b;
    CutClosed(open, a + b, line, open + a + b, a[1..] + b);
    LineBefore(line, open + a, a[1..], b);
  }

  lemma CutClosed(open: seq<byte>, a: seq<byte>, line: seq<byte>, whole: seq<byte>, rest: seq<byte>)
    requires Closes(open, a, line) && whole == open + a && rest == a[1..]
    ensures Cut(whole) == [line] + Cut(rest)
  {
    CutStep(open, a);
  }

  /** The same for the text of later calls. */
  lemma CutOnward(open: seq<byte>, a: seq<byte>, b: seq<byte>)
    requires |open| < WIDTH && NEWLINE !in open
    ensures var ls := Cut(open + a);
      var n := |ls| - 1;
      && n >= 0 && |ls[n]| < WIDTH && NEWLINE !in ls[n]
      && Cut(open + (a + b)) == ls[..n] + Cut(ls[n] + b)
  {
    CutAppend(open, a, b);
    assert open + (a + b) == open + a + b;
  }

  lemma LineBefore(line: seq<byte>, a: seq<byte>, rest: seq<byte>, b: seq<byte>)
    requires Cut(a) == [line] + Cut(rest) && Cut(a + b) == [line] + Cut(rest + b) && CutsOn(rest, b)
    ensures CutsOn(a, b)
  {
    var ls := Cut(rest);
    ShiftLines(line, ls, Cut(ls[|ls| - 1] + b));
  }

  lemma ShiftLines(line: seq<byte>, ls: seq<seq<byte>>, more: seq<seq<byte>>)
    requires ls != []
    ensures var all := [line] + ls;
      all[|all| - 1] == ls[|ls| - 1] && all[..|all| - 1] + more == [line] + (ls[..|ls| - 1] + more)
  {
  }

  /** The lines from `from` on, and before it those of s. */
  ghost predicate Continues(t: Session, s: Session, from: nat, text: seq<seq<byte>>) {
    Holds(t, from, text) && from <= |s.lines| && t.lines[..from] == s.lines[..from]
  }

  /** Any calls behind an open line: the lines from there on are those of the text of all the
      calls cut up, whatever the colours. */
  lemma {:induction false} PerformCuts(s: Session, open: seq<byte>, calls: seq<Call>, whole: seq<byte>)
    requires Wrapped(s) && NEWLINE !in open && Chars(s.lines[|s.lines| - 1].cells) == open
    requires whole == open + TextOf(calls)
    ensures Continues(Perform(s, calls), s, |s.lines| - 1, Cut(whole))
    decreases |calls|
  {
    if calls == [] {
      assert whole == open;
      NothingPerformed(s, open);
    } else if calls[0].SetColor? {
      assert TextOf(calls) == TextOf(calls[1..]);
      PerformCuts(s.(color := calls[0].color), open, calls[1..], whole);
    } else {
      var text, more, t := calls[0].text, TextOf(calls[1..]), PutAll(s, calls[0].text);
      assert whole == open + (text + more);
      var ls, last := WriteCuts(s, open, text, more, whole);
      PerformCuts(t, last, calls[1..], last + more);
      Chain(Perform(t, calls[1..]), t, s, |s.lines| - 1, ls, Cut(last + more), Cut(whole));
    }
  }

  lemma NothingPerformed(s: Session, open: seq<byte>)
    requires Wrapped(s) && NEWLINE !in open && Chars(s.lines[|s.lines| - 1].cells) == open
    ensures Continues(s, s, |s.lines| - 1, Cut(open))
  {
    CutShort(open);
  }

  /** The lines of a written text, of which the last is left open. */
  lemma WriteCuts(s: Session, open: seq<byte>, text: seq<byte>, more: seq<byte>, whole: seq<byte>)
    returns (ls: seq<seq<byte>>, last: seq<byte>)
    requires Wrapped(s) && NEWLINE !in open && Chars(s.lines[|s.lines| - 1].cells) == open
    requires whole == open + (text + more)
    ensures var t := PutAll(s, text);
      && ls != [] && last == ls[|ls| - 1] && NEWLINE !in last && Chars(t.lines[|t.lines| - 1].cells) == last
      && Continues(t, s, |s.lines| - 1, ls) && Cut(whole) == ls[..|ls| - 1] + Cut(last + more)
  {
    ls := Cut(open + text);
    PutAllCuts(s, open, text);
    CutOnward(open, text, more);
    last := ls[|ls| - 1];
    assert Chars(PutAll(s, text).lines[|s.lines| - 1 + (|ls| - 1)].cells) == last;
  }

  /** A transcript continued from its last line on. */
  lemma Chain(u: Session, t: Session, s: Session, from: nat, ls: seq<seq<byte>>, more: seq<seq<byte>>,
              all: seq<seq<byte>>)
    requires ls != [] && Continues(t, s, from, ls) && Continues(u, t, |t.lines| - 1, more)
    requires all == ls[..|ls| - 1] + more
    ensures Continues(u, s, from, all)
  {
    var m := from + |ls| - 1;
    assert u.lines[..from] == u.lines[..m][..from] == t.lines[..m][..from] == t.lines[..from];
    forall k | 0 <= k < |all|
      ensures Chars(u.lines[from + k].cells) == all[k]
    {
      if k < |ls| - 1 {
        assert u.lines[from + k] == u.lines[..m][from + k] == t.lines[from + k];
      } else {
        assert u.lines[from + k] == u.lines[m + (k - (|ls| - 1))];
      }
    }
  }

  /** The character that the last 25 of these lines put at position i of the screen. */
  function CharShown(ls: seq<seq<byte>>, i: nat): byte {
    var k, x := (if |ls| <= 25 then 0 else |ls| - 25) + i / 80, i % 80;
    if k < |ls| && x < |ls[k]| then ls[k][x] else 32
  }

  /** What any calls on a new terminal show: the last 25 lines of the text of all the calls, cut at
      newlines and after every 80 characters, and blanks elsewhere. */
  lemma CallsShowText(calls: seq<Call>, i: nat)
    requires i < 2000
    ensures Shown(Perform(Initial(), calls), i) % 0x100 == CharShown(Cut(TextOf(calls)), i)
  {
    NewTerminalHolds(calls);
    CellsShown(Perform(Initial(), calls), Cut(TextOf(calls)), i);
  }

  lemma NewTerminalHolds(calls: seq<Call>)
    ensures Holds(Perform(Initial(), calls), 0, Cut(TextOf(calls)))
  {
    assert [] + TextOf(calls) == TextOf(calls);
    PerformCuts(Initial(), [], calls, TextOf(calls));
  }

  lemma CellsShown(t: Session, ls: seq<seq<byte>>, i: nat)
    requires Holds(t, 0, ls) && i < 2000
    ensures Shown(t, i) % 0x100 == CharShown(ls, i)
  {
    var k, x := (if |ls| <= 25 then 0 else |ls| - 25) + i / 80, i % 80;
    if k < |ls| {
      assert Chars(t.lines[0 + k].cells) == ls[k];
      if x < |ls[k]| { assert t.lines[k].cells[x] % 0x100 == ls[k][x]; }
    }
  }

  /** A text on a new terminal is light grey on black, also where the screen is blank. */
  lemma NewTerminalShowsText(text: seq<byte>, i: nat)
    requires i < 2000
    ensures Shown(PutAll(Initial(), text), i) % 0x100 == CharShown(Cut(text), i)
    ensures Shown(PutAll(Initial(), text), i) / 0x100 == 7
  {
    var calls := [Write(text)];
    assert Perform(Initial(), calls) == PutAll(Initial(), text);
    assert TextOf(calls) == text + TextOf([]) == text;
    CallsShowText(calls, i);
    PutAllKeepsColor(Initial(), text);
    OneColorShown(PutAll(Initial(), text), i);
  }

  /** With the colour left as it is, every cell has it. */
  ghost predicate OneColor(s: Session) {
    && s.color == 7
    && forall k :: 0 <= k < |s.lines| ==> s.lines[k].fill == 7 && forall x <- Colors(s.lines[k].cells) :: x == 7
  }

  lemma {:induction false} PutAllKeepsColor(s: Session, text: seq<byte>)
    requires Wrapped(s) && OneColor(s)
    ensures OneColor(PutAll(s, text))
    decreases |text|
  {
    if text != [] {
      CellAdded(s.lines[|s.lines| - 1].cells, text[0], s.color);
      PutAllKeepsColor(Put(s, text[0]), text[1..]);
    }
  }

  lemma OneColorShown(s: Session, i: nat)
    requires OneColor(s) && i < 2000
    ensures Shown(s, i) / 0x100 == 7
  {
    var k, x := Scrolled(s) + i / WIDTH, i % WIDTH;
    if k < |s.lines| && x < |s.lines[k].cells| {
      assert Colors(s.lines[k].cells)[x] in Colors(s.lines[k].cells);
    }
  }
}

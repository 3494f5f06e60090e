/** The buffered text screen: a write-combining buffer in front of video memory, 32-bit clears and
    scrolls, refined to a terminal that writes every character straight to its cell.
 */
module Screen {
  import opened Bits

  const WIDTH: nat := 80
  const HEIGHT: nat := 25
  const SIZE: nat := 2000
  const BUFFER_SIZE: nat := 256

  /** A 16-bit cell: attribute byte and character byte. */
  datatype Cell = Cell(color: nat, ch: nat)

  type Cells = seq<Cell>

  // ----- the terminal -----

  datatype Terminal = Terminal(cells: Cells, x: nat, y: nat, color: nat)

  predicate InBounds(t: Terminal) {
    |t.cells| == SIZE && t.x < WIDTH && t.y < HEIGHT && t.color < 256
  }

  /** A char promoted to int, in 32 bits: from 128 on the upper 24 bits are ones. */
  function SignExtended(c: nat): nat {
    if c < 128 then c else c + 0xFFFF_FF00
  }

  /** `(current_color << 8) | c` kept in 16 bits. */
  function Glyph(color: nat, c: nat): Cell {
    var w := Or(color * 256, SignExtended(c)) % 0x1_0000;
    Cell(w / 256, w % 256)
  }

  lemma TwoBytes(high: nat, low: nat)
    requires low < 256
    ensures (256 * high + low) % 0x1_0000 / 256 == high % 256 && (256 * high + low) % 0x1_0000 % 256 == low
  {
  }

  /** What is drawn: a character below 128 in the current colour, any other with every attribute bit
      set. So the colour is kept exactly for ASCII, or when it is all ones anyway. */
  lemma GlyphColor(color: nat, c: nat)
    requires color < 256 && c < 256
    ensures Glyph(color, c) == if c < 128 then Cell(color, c) else Cell(255, c)
    ensures Glyph(color, c) == Cell(color, c) <==> c < 128 || color == 255
  {
    hide Or, Power2;
    WordBits();
    if c < 128 {
      OrIsSum(color, c, 8);
      TwoBytes(color, c);
    } else {
      OrOnes(color, 24);
      OrAbove(color, 0xFF_FFFF, c, 8);
      TwoBytes(0xFF_FFFF, c);
    }
  }

  function Blanks(n: nat, color: nat): (b: Cells)
    ensures |b| == n
  {
    seq(n, _ => Cell(color, 32))
  }

  /** Every row moves up one; the last is blank. */
  function Scrolled(cells: Cells, color: nat): (r: Cells)
    requires |cells| == SIZE
    ensures |r| == SIZE
  {
    cells[WIDTH..] + Blanks(WIDTH, color)
  }

  /** The end of a line goes to the next one, the end of the screen scrolls. */
  function Wrapped(cells: Cells, x: nat, y: nat, color: nat): (t: Terminal)
    requires |cells| == SIZE && x <= WIDTH && y <= HEIGHT && (x == WIDTH ==> y < HEIGHT) && color < 256
    ensures InBounds(t)
  {
    var x', y' := if x >= WIDTH then 0 else x, if x >= WIDTH then y + 1 else y;
    if y' >= HEIGHT then Terminal(Scrolled(cells, color), x', HEIGHT - 1, color)
    else Terminal(cells, x', y', color)
  }

  function Put(t: Terminal, c: nat): (r: Terminal)
    requires InBounds(t)
    ensures InBounds(r)
  {
    var pos := t.y * WIDTH + t.x;
    if c == 10 then Wrapped(t.cells, 0, t.y + 1, t.color)
    else if c == 13 then t.(x := 0)
    else if c == 9 then Wrapped(t.cells, (t.x + 8) / 8 * 8, t.y, t.color)
    else if c == 8 then if t.x > 0 then t.(x := t.x - 1, cells := t.cells[pos - 1 := Cell(t.color, 32)]) else t
    else Wrapped(t.cells[pos := Glyph(t.color, c)], t.x + 1, t.y, t.color)
  }

  function PutAll(t: Terminal, s: seq<nat>): (r: Terminal)
    requires InBounds(t)
    ensures InBounds(r)
    decreases |s|
  {
    if s == [] then t else PutAll(Put(t, s[0]), s[1..])
  }

  datatype Op =
    | Putc(c: nat)
    | Print(s: seq<nat>)
    | Clear
    | SetColor(fg: nat, bg: nat)
    | SetCursor(x: nat, y: nat)
    | UpdateCursor
    | ScrollUp

  function Apply(t: Terminal, op: Op): (r: Terminal)
    requires InBounds(t)
    ensures InBounds(r)
  {
    match op
    case Putc(c) => Put(t, c)
    case Print(s) => PutAll(t, s)
    case Clear => Terminal(Blanks(SIZE, t.color), 0, 0, t.color)
    case SetColor(fg, bg) => t.(color := ColorOf(fg, bg))
    case SetCursor(x, y) => if x < WIDTH && y < HEIGHT then t.(x := x, y := y) else t
    case UpdateCursor => t
    case ScrollUp => t.(cells := Scrolled(t.cells, t.color))
  }

  /** `fg | (bg << 4)` kept in 8 bits. */
  function ColorOf(fg: nat, bg: nat): (color: nat)
    ensures color < 256
  {
    Or(fg, bg * 16) % 256
  }

  /** With 4-bit colours the two do not mix. */
  lemma ColorParts(fg: nat, bg: nat)
    requires fg < 16 && bg < 16
    ensures ColorOf(fg, bg) == fg + bg * 16
  {
    WordBits();
    hide Or, Power2;
    OrCommutes(fg, bg * 16);
    OrIsSum(bg, fg, 4);
  }

  function ApplyAll(t: Terminal, ops: seq<Op>): (r: Terminal)
    requires InBounds(t)
    ensures InBounds(r)
    decreases |ops|
  {
    if ops == [] then t else ApplyAll(Apply(t, ops[0]), ops[1..])
  }

  /** A scroll moves the cell at row `row + 1` to row `row`, and blanks the last row. */
  lemma ScrollIsRowShift(cells: Cells, color: nat, row: nat, col: nat)
    requires |cells| == SIZE && row < HEIGHT && col < WIDTH
    ensures Scrolled(cells, color)[row * WIDTH + col] ==
            if row < HEIGHT - 1 then cells[(row + 1) * WIDTH + col] else Cell(color, 32)
  {
  }

  /** Printing a string is printing its parts. */
  lemma {:induction false} PutAllAppend(t: Terminal, a: seq<nat>, b: seq<nat>)
    requires InBounds(t)
    ensures PutAll(t, a + b) == PutAll(PutAll(t, a), b)
    decreases |a|
  {
    hide Put;
    if a == [] {
      assert a + b == b;
    } else {
      PutAllAppend(Put(t, a[0]), a[1..], b);
      assert (a + b)[1..] == a[1..] + b;
    }
  }

  // ----- what is seen, by row and column -----

  function At(t: Terminal, row: nat, col: nat): Cell
    requires |t.cells| == SIZE && row < HEIGHT && col < WIDTH
  {
    t.cells[row * WIDTH + col]
  }

  /** Every row of `was` is `up` rows higher in `now`, and the rows left over are blank. */
  ghost predicate Moved(was: Terminal, now: Terminal, up: nat)
    requires InBounds(was) && InBounds(now)
  {
    forall row: nat, col: nat :: row < HEIGHT && col < WIDTH ==>
      At(now, row, col) == if row + up < HEIGHT then At(was, row + up, col) else Cell(was.color, 32)
  }

  /** The same, once row `y` of `was` shows `text` from column `x` on. */
  ghost predicate MovedWith(was: Terminal, now: Terminal, up: nat, x: nat, y: nat, text: seq<Cell>)
    requires InBounds(was) && InBounds(now)
  {
    forall row: nat, col: nat :: row < HEIGHT && col < WIDTH ==>
      At(now, row, col) ==
      if row + up == y && x <= col < x + |text| then text[col - x]
      else if row + up < HEIGHT then At(was, row + up, col) else Cell(was.color, 32)
  }

  /** The start of the next row; below the last one there is none, and everything moves up instead. */
  ghost predicate NextLine(was: Terminal, now: Terminal)
    requires InBounds(was) && InBounds(now)
  {
    && now.x == 0
    && if was.y < HEIGHT - 1 then now.y == was.y + 1 && Moved(was, now, 0) else now.y == was.y && Moved(was, now, 1)
  }

  /** A byte as it is drawn. */
  function Drawn(color: nat, c: nat): Cell { Cell(if c < 128 then color else 255, c) }

  /** One character, by its kind. A tab goes to the next multiple of 8, a backspace blanks the cell to the left,
      and what is no control character is drawn under the cursor. */
  ghost predicate Typed(was: Terminal, now: Terminal, c: nat)
    requires InBounds(was) && InBounds(now)
  {
    && now.color == was.color
    && match c
       case 10 => NextLine(was, now)
       case 13 => now.x == 0 && now.y == was.y && Moved(was, now, 0)
       case 9 =>
         if was.x < WIDTH - 8
         then now.x % 8 == 0 && was.x < now.x <= was.x + 8 && now.y == was.y && Moved(was, now, 0)
         else NextLine(was, now)
       case 8 =>
         if was.x == 0 then now == was
         else
           && now.x == was.x - 1 && now.y == was.y
           && MovedWith(was, now, 0, was.x - 1, was.y, [Cell(was.color, 32)])
       case _ =>
         var up := if was.x == WIDTH - 1 && was.y == HEIGHT - 1 then 1 else 0;
         && (if was.x < WIDTH - 1 then now.x == was.x + 1 && now.y == was.y
             else now.x == 0 && now.y == was.y + 1 - up)
         && MovedWith(was, now, up, was.x, was.y, [Drawn(was.color, c)])
  }

  lemma WrappedMoves(t: Terminal, x: nat, y: nat)
    requires InBounds(t) && x <= WIDTH && y <= HEIGHT && (x == WIDTH ==> y < HEIGHT)
    ensures var r := Wrapped(t.cells, x, y, t.color);
      var up := if y == HEIGHT || (x == WIDTH && y == HEIGHT - 1) then 1 else 0;
      && r.color == t.color && r.x == (if x == WIDTH then 0 else x)
      && r.y == (if x == WIDTH then y + 1 else y) - up
      && Moved(t, r, up)
  {
    var r, up := Wrapped(t.cells, x, y, t.color), if y == HEIGHT || (x == WIDTH && y == HEIGHT - 1) then 1 else 0;
    hide Wrapped, Scrolled;
    forall row: nat, col: nat | row < HEIGHT && col < WIDTH
      ensures At(r, row, col) == if row + up < HEIGHT then At(t, row + up, col) else Cell(t.color, 32)
    {
      WrappedCells(t.cells, x, y, t.color);
      ScrollIsRowShift(t.cells, t.color, row, col);
    }
  }

  lemma WrappedCells(cells: Cells, x: nat, y: nat, color: nat)
    requires |cells| == SIZE && x <= WIDTH && y <= HEIGHT && (x == WIDTH ==> y < HEIGHT) && color < 256
    ensures Wrapped(cells, x, y, color).cells ==
            if y == HEIGHT || (x == WIDTH && y == HEIGHT - 1) then Scrolled(cells, color) else cells
  {
  }

  /** Writing one cell changes that row and column only. */
  lemma CellWritten(t: Terminal, now: Terminal, x: nat, y: nat, cell: Cell)
    requires InBounds(t) && InBounds(now) && x < WIDTH && y < HEIGHT
    requires now.cells == t.cells[y * WIDTH + x := cell]
    ensures MovedWith(t, now, 0, x, y, [cell])
  {
  }

  lemma WrittenThenMoved(t: Terminal, mid: Terminal, now: Terminal, up: nat, x: nat, y: nat, text: seq<Cell>)
    requires InBounds(t) && InBounds(mid) && InBounds(now) && mid.color == t.color && y < HEIGHT
    requires MovedWith(t, mid, 0, x, y, text) && Moved(mid, now, up)
    ensures MovedWith(t, now, up, x, y, text)
  {
    hide At;
    forall row: nat, col: nat | row < HEIGHT && col < WIDTH
      ensures At(now, row, col) ==
              if row + up == y && x <= col < x + |text| then text[col - x]
              else if row + up < HEIGHT then At(t, row + up, col) else Cell(t.color, 32)
    {
      if row + up < HEIGHT { assert At(now, row, col) == At(mid, row + up, col); }
    }
  }

  /** Every character does to the rows and columns what its kind says. */
  lemma PutIsTyped(t: Terminal, c: nat)
    requires InBounds(t) && c < 256
    ensures Typed(t, Put(t, c), c)
  {
    hide Wrapped, Glyph, Moved, MovedWith;
    TabStop(t.x);
    WrappedMoves(t, 0, t.y + 1);
    WrappedMoves(t, (t.x + 8) / 8 * 8, t.y);
    Unmoved(t, 0);
    GlyphColor(t.color, c);
    if c == 8 && t.x > 0 { CellWritten(t, Put(t, 8), t.x - 1, t.y, Cell(t.color, 32)); }
    var cell := Drawn(t.color, c);
    var drawn := t.(cells := t.cells[t.y * WIDTH + t.x := cell]);
    CellWritten(t, drawn, t.x, t.y, cell);
    WrappedMoves(drawn, t.x + 1, t.y);
    var up := if t.x == WIDTH - 1 && t.y == HEIGHT - 1 then 1 else 0;
    WrittenThenMoved(t, drawn, Wrapped(drawn.cells, t.x + 1, t.y, t.color), up, t.x, t.y, [cell]);
  }

  lemma Unmoved(t: Terminal, x: nat)
    requires InBounds(t) && x < WIDTH
    ensures Moved(t, t.(x := x), 0)
  {
  }

  /** What is drawn rather than obeyed. */
  predicate Printable(s: seq<nat>) {
    forall i :: 0 <= i < |s| ==> s[i] < 256 && s[i] !in {8, 9, 10, 13}
  }

  function DrawnText(color: nat, s: seq<nat>): (r: seq<Cell>)
    ensures |r| == |s|
  {
    seq(|s|, i requires 0 <= i < |s| => Drawn(color, s[i]))
  }

  /** One more cell to the left of the text. */
  lemma TextGrows(t: Terminal, mid: Terminal, now: Terminal, x: nat, y: nat, cell: Cell, text: seq<Cell>)
    requires InBounds(t) && InBounds(mid) && InBounds(now) && mid.color == t.color && y < HEIGHT
    requires MovedWith(t, mid, 0, x, y, [cell]) && MovedWith(mid, now, 0, x + 1, y, text)
    ensures MovedWith(t, now, 0, x, y, [cell] + text)
  {
    hide InBounds, At;
  }

  /** Text that ends before the row does is shown from the cursor on, and nothing else changes. */
  lemma {:induction false} TextIsShown(t: Terminal, s: seq<nat>)
    requires InBounds(t) && Printable(s) && t.x + |s| < WIDTH
    ensures var r := PutAll(t, s);
      && r.x == t.x + |s| && r.y == t.y && r.color == t.color
      && MovedWith(t, r, 0, t.x, t.y, DrawnText(t.color, s))
    decreases |s|
  {
    hide Put;
    if s == [] {
    } else {
      PutIsTyped(t, s[0]);
      TextIsShown(Put(t, s[0]), s[1..]);
      assert DrawnText(t.color, s) == [Drawn(t.color, s[0])] + DrawnText(t.color, s[1..]);
      TextGrows(t, Put(t, s[0]), PutAll(t, s), t.x, t.y, Drawn(t.color, s[0]), DrawnText(t.color, s[1..]));
    }
  }

  lemma RunsOnStep(t: Terminal, c: nat)
    requires InBounds(t) && c < 256 && c !in {8, 9, 10, 13} && t.y * WIDTH + t.x + 1 < SIZE
    ensures var r, pos := Put(t, c), t.y * WIDTH + t.x;
      r.color == t.color && r.y * WIDTH + r.x == pos + 1 && r.cells == t.cells[pos := Drawn(t.color, c)]
  {
    GlyphColor(t.color, c);
    hide Glyph;
  }

  /** Text that ends before the screen does fills the cells from the cursor on, row after row, and the cursor
      ends right behind it. */
  lemma {:induction false} TextRunsOn(t: Terminal, s: seq<nat>)
    requires InBounds(t) && Printable(s) && t.y * WIDTH + t.x + |s| < SIZE
    ensures var r, pos := PutAll(t, s), t.y * WIDTH + t.x;
      && r.color == t.color && r.y * WIDTH + r.x == pos + |s|
      && r.cells == t.cells[..pos] + DrawnText(t.color, s) + t.cells[pos + |s|..]
    decreases |s|
  {
    hide Put;
    var pos := t.y * WIDTH + t.x;
    if s == [] {
      assert t.cells == t.cells[..pos] + [] + t.cells[pos..];
    } else {
      RunsOnStep(t, s[0]);
      TextRunsOn(Put(t, s[0]), s[1..]);
      RunsOnGrows(t.cells, pos, Drawn(t.color, s[0]), DrawnText(t.color, s[1..]));
      assert DrawnText(t.color, s) == [Drawn(t.color, s[0])] + DrawnText(t.color, s[1..]);
    }
  }

  lemma RunsOnGrows(cells: Cells, pos: nat, cell: Cell, text: seq<Cell>)
    requires pos + 1 + |text| <= |cells|
    ensures var mid := cells[pos := cell];
      mid[..pos + 1] + text + mid[pos + 1 + |text|..] == cells[..pos] + ([cell] + text) + cells[pos + 1 + |text|..]
  {
  }

  /** A new line of text: the next row shows it from its start on, and the rest stays. Below the last row there
      is none, so all rows move up by one first and the last shows the text, with blanks after it. */
  ghost predicate LineShown(was: Terminal, now: Terminal, s: seq<nat>)
    requires InBounds(was) && InBounds(now)
  {
    && now.x == |s| && now.color == was.color
    && if was.y < HEIGHT - 1
       then now.y == was.y + 1 && MovedWith(was, now, 0, 0, was.y + 1, DrawnText(was.color, s))
       else now.y == was.y && MovedWith(was, now, 1, 0, HEIGHT, DrawnText(was.color, s))
  }

  lemma MovedThenWritten(t: Terminal, mid: Terminal, now: Terminal, up: nat, x: nat, y: nat, text: seq<Cell>)
    requires InBounds(t) && InBounds(mid) && InBounds(now) && mid.color == t.color && up <= 1
    requires Moved(t, mid, up) && MovedWith(mid, now, 0, x, y, text)
    ensures MovedWith(t, now, up, x, y + up, text)
  {
    hide InBounds, At;
  }

  lemma Newline(t: Terminal)
    requires InBounds(t)
    ensures NextLine(t, Put(t, 10)) && Put(t, 10).color == t.color
  {
    PutIsTyped(t, 10);
  }

  lemma PutAllFirst(t: Terminal, c: nat, s: seq<nat>)
    requires InBounds(t)
    ensures PutAll(t, [c] + s) == PutAll(Put(t, c), s)
  {
    hide Put;
    assert ([c] + s)[1..] == s;
  }

  /** Printing a newline and a text shorter than a row. */
  lemma LineIsShown(t: Terminal, s: seq<nat>)
    requires InBounds(t) && Printable(s) && |s| < WIDTH
    ensures LineShown(t, PutAll(t, [10] + s), s)
  {
    hide Put, Moved, MovedWith, DrawnText, PutAll, Printable;
    var mid := Put(t, 10);
    Newline(t);
    PutAllFirst(t, 10, s);
    TextIsShown(mid, s);
    if t.y < HEIGHT - 1 {
      MovedThenWritten(t, mid, PutAll(mid, s), 0, 0, mid.y, DrawnText(t.color, s));
    } else {
      MovedThenWritten(t, mid, PutAll(mid, s), 1, 0, mid.y, DrawnText(t.color, s));
    }
  }

  lemma ScrollMoves(t: Terminal)
    requires InBounds(t)
    ensures Moved(t, Apply(t, ScrollUp), 1)
  {
    hide Scrolled;
    forall row: nat, col: nat | row < HEIGHT && col < WIDTH
      ensures At(Apply(t, ScrollUp), row, col) == if row + 1 < HEIGHT then At(t, row + 1, col) else Cell(t.color, 32)
    {
      ScrollIsRowShift(t.cells, t.color, row, col);
    }
  }

  // ----- the driver -----

  /** Video memory with pending cells laid over it. */
  function Overlay(video: Cells, start: nat, pending: Cells): (r: Cells)
    requires start + |pending| <= |video|
    ensures |r| == |video|
  {
    video[..start] + pending + video[start + |pending|..]
  }

  /** One 32-bit step of the forward copy: the cells it reads have not been written yet. */
  lemma CopyStep(was: Cells, v: Cells, i: nat)
    requires |was| == SIZE && i < (HEIGHT - 1) * WIDTH / 2 && v == Shifting(was, i)
    ensures v[WIDTH + 2 * i] == was[WIDTH + 2 * i] && v[WIDTH + 2 * i + 1] == was[WIDTH + 2 * i + 1]
    ensures v[2 * i := was[WIDTH + 2 * i]][2 * i + 1 := was[WIDTH + 2 * i + 1]] == Shifting(was, i + 1)
  {
  }

  /** Video memory after `i` 32-bit steps of a scroll. */
  function Shifting(was: Cells, i: nat): (r: Cells)
    requires |was| == SIZE && i <= (HEIGHT - 1) * WIDTH / 2
    ensures |r| == SIZE
  {
    was[WIDTH..WIDTH + 2 * i] + was[2 * i..]
  }

  lemma ShiftEnds(was: Cells, color: nat)
    requires |was| == SIZE
    ensures Shifting(was, 0) == was
    ensures Shifting(was, 960)[..1920] + Blanks(WIDTH, color) + Shifting(was, 960)[SIZE..] == Scrolled(was, color)
  {
  }

  /** Video memory after one more pair of blanks from `from`. */
  lemma FillStep(was: Cells, from: nat, i: nat, color: nat)
    requires from + 2 * i + 2 <= |was|
    ensures var p, blank := from + 2 * i, Cell(color, 32);
      (was[..from] + Blanks(2 * i, color) + was[p..])[p := blank][p + 1 := blank] ==
      was[..from] + Blanks(2 * (i + 1), color) + was[from + 2 * (i + 1)..]
  {
  }

  lemma WholeFill(was: Cells, blank: Cells)
    requires |was| == SIZE
    ensures was[..0] + blank + was[SIZE..] == blank
  {
  }

  /** A position short of a row's end has its successor in the same row. */
  lemma SameRow(x: nat, y: nat)
    requires x + 1 < WIDTH && y < HEIGHT
    ensures (y * WIDTH + x + 1) / WIDTH == (y * WIDTH + x) / WIDTH && y * WIDTH + x < SIZE
  {
  }

  lemma NoOverflow(cells: Cells, x: nat, y: nat, color: nat)
    requires |cells| == SIZE && x < WIDTH && y < HEIGHT && color < 256
    ensures Wrapped(cells, x, y, color) == Terminal(cells, x, y, color)
  {
  }

  lemma TabStop(x: nat)
    requires x < WIDTH
    ensures x < (x + 8) / 8 * 8 <= WIDTH
  {
  }

  lemma OverlayAppend(video: Cells, start: nat, pending: Cells, value: Cell)
    requires start + |pending| < |video|
    ensures Overlay(video, start, pending + [value]) == Overlay(video, start, pending)[start + |pending| := value]
  {
  }

  lemma NothingPending(video: Cells, start: nat)
    requires start <= |video|
    ensures Overlay(video, start, []) == video
  {
  }

  class Driver {
    const video: array<Cell>
    const buffer: array<Cell>
    var count: nat
    var startPos: nat
    var x: nat
    var y: nat
    var color: nat
    var dirty: bool
    /** The position last sent to the VGA controller. */
    var hardware: nat

    /** Pending cells lie on the screen, in one row, short of its end; so there are at most 79. */
    ghost predicate PendingOk()
      reads this`count, this`startPos
    {
      && startPos + count <= SIZE && count <= BUFFER_SIZE
      && (count > 0 ==> (startPos + count) / WIDTH == startPos / WIDTH)
    }

    ghost predicate Shape() {
      video.Length == SIZE && buffer.Length == BUFFER_SIZE && video != buffer
    }

    ghost predicate Valid()
      reads this
    {
      Shape() && PendingOk() && x < WIDTH && y < HEIGHT && color < 256 && (count > 0 ==> dirty)
    }

    /** The driver's static initial state in front of whatever video memory holds. */
    constructor (video: array<Cell>)
      requires video.Length == SIZE
      ensures Valid() && this.video == video && Shown() == video[..] && fresh(buffer)
      ensures count == 0 && x == 0 && y == 0 && color == ColorOf(7, 0) && !dirty && hardware == 0
    {
      this.video := video;
      buffer := new Cell[BUFFER_SIZE](_ => Cell(0, 0));
      count, startPos, x, y, color, dirty, hardware := 0, 0, 0, 0, 7, false, 0;
      new;
      NothingPending(video[..], 0);
      assert buffer[..0] == [];
    }

    lemma FewPending()
      requires PendingOk()
      ensures count < WIDTH
    {
    }

    /** What the screen shows once everything pending is written. */
    ghost function Shown(): (r: Cells)
      requires Shape() && startPos + count <= SIZE && count <= BUFFER_SIZE
      reads this`count, this`startPos, video, buffer
      ensures |r| == SIZE
    {
      Overlay(video[..], startPos, buffer[..count])
    }

    ghost function View(): (t: Terminal)
      requires Valid()
      reads this, video, buffer
      ensures InBounds(t)
    {
      Terminal(Shown(), x, y, color)
    }

    method FlushWriteBuffer()
      requires Shape() && startPos + count <= SIZE && count <= BUFFER_SIZE
      modifies this`count, this`startPos, video
      ensures count == 0 && startPos <= SIZE && video[..] == old(Shown()) && Shown() == old(Shown())
    {
      if count == 0 {
        assert Shown() == video[..];
        return;
      }
      ghost var was := video[..];
      for i := 0 to count
        invariant count == old(count) && startPos == old(startPos)
        invariant video[..] == Overlay(was, startPos, buffer[..i])
      {
        video[startPos + i] := buffer[i];
      }
      count, startPos := 0, 0;
      assert Shown() == video[..];
    }

    /** Adds a cell to the buffer, flushing first when it does not continue the pending ones. */
    method BufferWriteChar(pos: nat, value: Cell)
      requires Shape() && PendingOk() && pos < SIZE
      modifies this`count, this`startPos, video, buffer
      ensures startPos + count == pos + 1 && startPos / WIDTH == pos / WIDTH && 0 < count <= BUFFER_SIZE
      ensures Shown() == old(Shown())[pos := value]
    {
      hide Overlay;
      FewPending();
      if count >= BUFFER_SIZE || (count > 0 && pos != startPos + count) {
        FlushWriteBuffer();
      }
      if count == 0 {
        NothingPending(video[..], startPos);
        startPos := pos;
        NothingPending(video[..], startPos);
      }
      ghost var pending := buffer[..count];
      OverlayAppend(video[..], startPos, pending, value);
      buffer[count] := value;
      count := count + 1;
      assert buffer[..count] == pending + [value];
    }

    /** Two cells at once, as one 32-bit store. */
    method Fill(from: nat, pairs: nat)
      requires Shape() && from + 2 * pairs <= SIZE
      modifies video
      ensures video[..] == old(video[..from]) + Blanks(2 * pairs, color) + old(video[from + 2 * pairs..])
    {
      hide Blanks;
      ghost var was := video[..];
      assert was[..from] + Blanks(0, color) + was[from..] == was;
      for i := 0 to pairs
        invariant video[..] == was[..from] + Blanks(2 * i, color) + was[from + 2 * i..]
      {
        FillStep(was, from, i, color);
        video[from + 2 * i] := Cell(color, 32);
        video[from + 2 * i + 1] := Cell(color, 32);
      }
    }

    /** screen_clear. */
    method ScreenClear()
      requires Valid()
      modifies this, video
      ensures Valid() && View() == Apply(old(View()), Clear) && hardware == old(hardware)
      ensures x == 0 && y == 0 && color == old(color)
      ensures forall row: nat, col: nat :: row < HEIGHT && col < WIDTH ==> At(View(), row, col) == Cell(color, 32)
    {
      hide Overlay;
      FlushWriteBuffer();
      WholeFill(video[..], Blanks(SIZE, color));
      Fill(0, SIZE / 2);
      x, y := 0, 0;
      dirty := true;
      NothingPending(video[..], startPos);
    }

    /** screen_scroll_up: the forward copy in 32-bit chunks over overlapping memory is a row shift. */
    method ScreenScrollUp()
      requires Shape() && startPos + count <= SIZE && count <= BUFFER_SIZE
      modifies this`count, this`startPos, video
      ensures count == 0 && startPos <= SIZE && Shown() == Scrolled(old(Shown()), color)
    {
      hide Overlay, Shifting, Scrolled;
      FlushWriteBuffer();
      ghost var was := video[..];
      ShiftEnds(was, color);
      for i := 0 to (HEIGHT - 1) * WIDTH / 2
        invariant count == 0 && startPos <= SIZE
        invariant video[..] == Shifting(was, i)
      {
        ghost var v := video[..];
        CopyStep(was, v, i);
        var lo, hi := video[WIDTH + 2 * i], video[WIDTH + 2 * i + 1];
        video[2 * i] := lo;
        video[2 * i + 1] := hi;
        assert video[..] == v[2 * i := lo][2 * i + 1 := hi];
      }
      ghost var shifted := video[..];
      Fill((HEIGHT - 1) * WIDTH, WIDTH / 2);
      assert video[..] == shifted[..1920] + Blanks(WIDTH, color) + shifted[SIZE..];
      NothingPending(video[..], startPos);
    }

    /** screen_update_cursor: does nothing unless something was written since the last update. */
    method ScreenUpdateCursor()
      requires Valid()
      modifies this`count, this`startPos, this`dirty, this`hardware, video
      ensures Valid() && View() == old(View())
      ensures hardware == if old(dirty) then y * WIDTH + x else old(hardware)
    {
      if !dirty { return; }
      FlushWriteBuffer();
      hardware := y * WIDTH + x;
      dirty := false;
    }

    /** screen_set_cursor: the hardware cursor follows exactly when something was written before. */
    method ScreenSetCursor(newX: nat, newY: nat)
      requires Valid()
      modifies this, video
      ensures Valid() && View() == Apply(old(View()), SetCursor(newX, newY)) && Shown() == old(Shown())
      ensures (x, y) == if newX < WIDTH && newY < HEIGHT then (newX, newY) else (old(x), old(y))
      ensures newX < WIDTH && newY < HEIGHT ==>
                hardware == if old(dirty) then newY * WIDTH + newX else old(hardware)
    {
      if newX < WIDTH && newY < HEIGHT {
        x, y := newX, newY;
        ScreenUpdateCursor();
      }
    }

    method ScreenSetColor(fg: nat, bg: nat)
      requires Valid()
      modifies this`color
      ensures Valid() && View() == Apply(old(View()), SetColor(fg, bg)) && Shown() == old(Shown())
      ensures fg < 16 && bg < 16 ==> color == fg + bg * 16
    {
      hide Or;
      if fg < 16 && bg < 16 { ColorParts(fg, bg); }
      color := Or(fg, bg * 16) % 256;
    }

    /** The end of screen_putc: the end of a line, then the end of the screen. */
    method HandleOverflow()
      requires Shape() && startPos + count <= SIZE && count <= BUFFER_SIZE
      requires x <= WIDTH && y <= HEIGHT && (x == WIDTH ==> y < HEIGHT) && color < 256
      requires x < WIDTH && y < HEIGHT ==> PendingOk()
      modifies this, video
      ensures Valid() && View() == Wrapped(old(Shown()), old(x), old(y), old(color))
    {
      hide Overlay, Scrolled;
      if x >= WIDTH {
        FlushWriteBuffer();
        x, y := 0, y + 1;
      }
      if y >= HEIGHT {
        FlushWriteBuffer();
        ScreenScrollUp();
        y := HEIGHT - 1;
      }
      dirty := true;
    }

    /** The control characters of screen_putc. */
    method Obey(c: nat)
      requires Valid() && c in {8, 9, 10, 13}
      modifies this, video, buffer
      ensures Shape() && startPos + count <= SIZE && count <= BUFFER_SIZE
      ensures x <= WIDTH && y <= HEIGHT && (x == WIDTH ==> y < HEIGHT) && color == old(color)
      ensures x < WIDTH && y < HEIGHT ==> PendingOk()
      ensures Wrapped(Shown(), x, y, color) == Put(old(View()), c)
    {
      hide Overlay, Scrolled, Shown, Wrapped;
      TabStop(x);
      FlushWriteBuffer();
      if c == 10 {
        x, y := 0, y + 1;
      } else if c == 13 {
        x := 0;
      } else if c == 9 {
        x := (x + 8) / 8 * 8;
      } else if x > 0 {
        x := x - 1;
        SameRow(x, y);
        BufferWriteChar(y * WIDTH + x, Cell(color, 32));
      }
      if x < WIDTH && y < HEIGHT { NoOverflow(Shown(), x, y, color); }
    }

    /** The switch of screen_putc: the character is drawn or obeyed, the cursor may have left the row
        or the screen. */
    method PutOne(c: nat)
      requires Valid()
      modifies this, video, buffer
      ensures Shape() && startPos + count <= SIZE && count <= BUFFER_SIZE
      ensures x <= WIDTH && y <= HEIGHT && (x == WIDTH ==> y < HEIGHT) && color == old(color)
      ensures x < WIDTH && y < HEIGHT ==> PendingOk()
      ensures Wrapped(Shown(), x, y, color) == Put(old(View()), c)
    {
      hide Overlay, Scrolled, Shown, Wrapped;
      if c == 10 || c == 13 || c == 9 || c == 8 {
        Obey(c);
        return;
      }
      var pos := y * WIDTH + x;
      var value := Glyph(color, c);
      if x + 1 < WIDTH { SameRow(x, y); }
      BufferWriteChar(pos, value);
      x := x + 1;
      if x < WIDTH && y < HEIGHT { NoOverflow(Shown(), x, y, color); }
    }

    /** screen_putc. */
    method ScreenPutc(c: nat)
      requires Valid()
      modifies this, video, buffer
      ensures Valid() && View() == Put(old(View()), c)
      ensures c < 256 ==> Typed(old(View()), View(), c)
    {
      hide Overlay, Scrolled, Shown, Wrapped, Put, Typed;
      if c < 256 { PutIsTyped(View(), c); }
      PutOne(c);
      HandleOverflow();
    }

    /** screen_print. */
    method ScreenPrint(s: seq<nat>)
      requires Valid()
      modifies this, video, buffer
      ensures Valid() && View() == PutAll(old(View()), s)
      ensures 0 < |s| <= WIDTH && s[0] == 10 && Printable(s[1..]) ==> LineShown(old(View()), View(), s[1..])
    {
      hide View, Put, LineShown, Printable;
      if 0 < |s| <= WIDTH && s[0] == 10 && Printable(s[1..]) {
        LineIsShown(View(), s[1..]);
        assert [10] + s[1..] == s;
      }
      for i := 0 to |s|
        invariant Valid() && PutAll(old(View()), s) == PutAll(View(), s[i..])
      {
        ScreenPutc(s[i]);
        assert s[i..][1..] == s[i + 1..];
      }
    }

    method ScreenScroll()
      requires Valid()
      modifies this`count, this`startPos, video
      ensures Valid() && View() == Apply(old(View()), ScrollUp)
      ensures x == old(x) && y == old(y) && Moved(old(View()), View(), 1)
    {
      ScrollMoves(View());
      ScreenScrollUp();
    }

    /** Every sequence of screen operations shows what the unbuffered terminal shows. */
    method Run(ops: seq<Op>)
      requires Valid()
      modifies this, video, buffer
      ensures Valid() && View() == ApplyAll(old(View()), ops)
      decreases |ops|
    {
      hide View, Put, PutAll;
      if ops == [] { return; }
      match ops[0] {
        case Putc(c) => ScreenPutc(c);
        case Print(s) => ScreenPrint(s);
        case Clear => ScreenClear();
        case SetColor(fg, bg) => ScreenSetColor(fg, bg);
        case SetCursor(newX, newY) => ScreenSetCursor(newX, newY);
        case UpdateCursor => ScreenUpdateCursor();
        case ScrollUp => ScreenScroll();
      }
      Run(ops[1..]);
    }
  }

  /** Right after the start nothing marks the cursor stale: moving it leaves the hardware cursor where it was. */
  method StaleCursor(video: array<Cell>) returns (driver: Driver)
    requires video.Length == SIZE
    modifies video
    ensures driver.Valid() && driver.x == 1 && driver.y == 1 && driver.hardware == 0
  {
    hide Overlay, Driver.Shown, Blanks, Or;
    driver := new Driver(video);
    driver.ScreenSetCursor(1, 1);
  }
}

/**
 The framebuffer console: a text grid of at most 200 by 200 cells that scrolls in place.
 It shows the window of the never-scrolling terminal that starts at its top row.
 */
module Fbcon {
  import opened Terminal

  const MAX_COLS: nat := 200
  const MAX_ROWS: nat := 200

  class Console {
    const buf: array2<Byte>
    const COLS: nat
    const ROWS: nat
    var cx: nat
    var cy: nat
    ghost var term: Term

    ghost predicate Sized()
    {
      buf.Length0 == MAX_ROWS && buf.Length1 == MAX_COLS && 1 <= COLS <= MAX_COLS && 1 <= ROWS <= MAX_ROWS
    }

    /** The grid shows ROWS rows of t from row top on. */
    ghost predicate Shows(t: Term, top: nat)
      requires Sized()
      reads buf
    {
      forall y, x :: 0 <= y < ROWS && 0 <= x < COLS ==> buf[y, x] == Cell(t, top + y, x)
    }

    ghost predicate Valid()
      reads this, buf
    {
      Ok(term) && Matches(term)
    }

    /** fbcon_init, at a given size. */
    constructor (cols: nat, rows: nat)
      requires 1 <= cols <= MAX_COLS && 1 <= rows <= MAX_ROWS
      ensures Valid() && COLS == cols && ROWS == rows && term == Blank(cols, rows) && fresh(buf)
    {
      buf := new Byte[MAX_ROWS, MAX_COLS]((_, _) => BLANK);
      COLS, ROWS := cols, rows;
      cx, cy := 0, 0;
      term := Blank(cols, rows);
    }

    /** scroll: every row moves up by one, the last becomes blank. */
    method Scroll()
      requires Sized() && cy > 0
      modifies this`cy, buf
      ensures cy == old(cy) - 1
      ensures forall y, x :: 0 <= y < ROWS && 0 <= x < COLS ==>
        buf[y, x] == if y + 1 < ROWS then old(buf[y + 1, x]) else BLANK
    {
      var y := 1;
      while y < ROWS
        modifies buf
        invariant 1 <= y <= ROWS
        invariant forall v, x :: 0 <= v < y - 1 && 0 <= x < COLS ==> buf[v, x] == old(buf[v + 1, x])
        invariant forall v, x :: y - 1 <= v < ROWS && 0 <= x < COLS ==> buf[v, x] == old(buf[v, x])
      {
        ShiftRow(y);
        y := y + 1;
      }
      var x := 0;
      while x < COLS
        modifies buf
        invariant x <= COLS
        invariant forall v, w :: 0 <= v < ROWS - 1 && 0 <= w < COLS ==> buf[v, w] == old(buf[v + 1, w])
        invariant forall v, w :: v == ROWS - 1 && 0 <= w < x ==> buf[v, w] == BLANK
      {
        buf[ROWS - 1, x] := BLANK;
        x := x + 1;
      }
      cy := cy - 1;
    }

    /** Copy row y to the row above it. */
    method ShiftRow(y: nat)
      requires Sized() && 1 <= y < ROWS
      modifies buf
      ensures forall v, x :: 0 <= v < ROWS && 0 <= x < COLS ==>
        buf[v, x] == if v == y - 1 then old(buf[y, x]) else old(buf[v, x])
    {
      var x := 0;
      while x < COLS
        invariant x <= COLS
        invariant forall v, w :: 0 <= v < ROWS && 0 <= w < COLS ==>
          buf[v, w] == if v == y - 1 && w < x then old(buf[y, w]) else old(buf[v, w])
      {
        buf[y - 1, x] := buf[y, x];
        x := x + 1;
      }
    }

    /** The grid and cursor are those of t. */
    ghost predicate Matches(t: Term)
      reads this, buf
    {
      && Sized() && t.cols == COLS && t.rows == ROWS && t.bottom + 1 >= t.rows
      && cx == t.col && cy + Top(t) == t.row && Shows(t, Top(t))
    }

    /** Store a character at the cursor. */
    method SetCell(c: Byte, ghost t: Term)
      requires Matches(t) && cx < COLS && cy < ROWS
      modifies buf
      ensures Matches(Write(t, c))
    {
      buf[cy, cx] := c;
    }

    /** Move the cursor and nothing else. */
    method Goto(x: nat, y: nat, ghost t: Term)
      requires Matches(t)
      modifies this`cx, this`cy
      ensures Matches(t.(row := Top(t) + y, col := x))
    {
      cx, cy := x, y;
    }

    /** One column back, or to the end of the row above. */
    method StepBack(ghost t: Term)
      requires Matches(t)
      modifies this`cx, this`cy
      ensures Matches(Back(t))
    {
      if cx > 0 { Goto(cx - 1, cy, t); } else if cy > 0 { Goto(COLS - 1, cy - 1, t); }
    }

    /** One column on, or to the start of the row below. */
    method StepForward(ghost t: Term)
      requires Matches(t) && t.cols > 0
      modifies this`cx, this`cy
      ensures Matches(Step(t, Right))
    {
      if cx < COLS - 1 { Goto(cx + 1, cy, t); } else if cy < ROWS - 1 { Goto(0, cy + 1, t); }
    }

    /** A character that is not a control character. */
    method Print(c: Byte, ghost t: Term)
      requires Matches(t) && cx < COLS && cy < ROWS
      modifies this`cx, this`cy, buf
      ensures Matches(Write(t, c).(col := t.col + 1))
    {
      SetCell(c, t);
      Goto(cx + 1, cy, Write(t, c));
    }

    /** The cursor and cell changes of one character. */
    method Apply(c: Byte)
      requires Valid()
      modifies this`cx, this`cy, buf
      ensures Matches(Type(term, c))
    {
      if c == 10 {
        Goto(0, cy + 1, term);
      } else if c == 13 {
        Goto(0, cy, term);
      } else if c == 8 {
        StepBack(term);
        SetCell(BLANK, Back(term));
      } else if c == 9 {
        Goto((cx + 4) / 4 * 4, cy, term);
      } else {
        Print(c, term);
      }
    }

    /** Past the right edge the cursor goes to the next row. */
    method Wrap(ghost t: Term)
      requires Matches(t)
      modifies this`cx, this`cy
      ensures Matches(WrapLine(t))
    {
      if cx >= COLS { Goto(0, cy + 1, t); }
    }

    /** The same, with line wrap. */
    method TypeChar(c: Byte)
      requires Valid()
      modifies this`cx, this`cy, buf
      ensures Matches(WrapLine(Type(term, c)))
    {
      Apply(c);
      Wrap(Type(term, c));
    }

    /** Scrolling brings the row below the screen in as a blank one. */
    method ScrollTo(ghost t: Term)
      requires Matches(t) && AlmostOk(t) && cy == ROWS
      modifies this`cy, buf
      ensures Matches(Extend(t))
    {
      Scroll();
      forall y, x | 0 <= y < ROWS && 0 <= x < COLS ensures buf[y, x] == Cell(Extend(t), Top(Extend(t)) + y, x) {
        if y < ROWS - 1 { assert old(buf[y + 1, x]) == Cell(t, Top(t) + (y + 1), x); }
      }
    }

    /** fbcon_putchar. */
    method PutChar(c: Byte)
      requires Valid()
      modifies this, buf
      ensures Valid() && term == Step(old(term), Char(c))
    {
      ghost var t := WrapLine(Type(term, c));
      TypeKeeps(term, c);
      StepKeeps(term, Char(c));
      TypeChar(c);
      if cy >= ROWS { ScrollTo(t); }
      term := Extend(t);
    }

    /** The cursor moves, on the screen alone. */
    method MoveCursor(op: Op)
      requires Valid() && !op.Char?
      modifies this`cx, this`cy
      ensures Matches(Step(term, op))
    {
      match op {
        case Up => if cy > 0 { Goto(cx, cy - 1, term); }
        case Down => if cy < ROWS - 1 { Goto(cx, cy + 1, term); }
        case Left => StepBack(term);
        case Right => StepForward(term);
      }
    }

    /** fbcon_cursor_up, _down, _left and _right. */
    method Move(op: Op)
      requires Valid() && !op.Char?
      modifies this
      ensures Valid() && term == Step(old(term), op)
    {
      StepKeeps(term, op);
      MoveCursor(op);
      term := Step(term, op);
    }
  }
}

/**
 The VGA text screen: the same terminal on a flat array of 80 by 25 character and colour pairs.
 */
module Vga {
  import opened Terminal

  const WIDTH: nat := 80
  const HEIGHT: nat := 25

  /** vga_entry: the character in the low byte, the colour in the high one. */
  datatype Entry = Entry(ch: Byte, color: Byte)

  class Screen {
    const buffer: array<Entry>
    var row: nat
    var column: nat
    var color: Byte
    ghost var term: Term

    ghost function CharAt(y: nat, x: nat): Byte
      requires buffer.Length == 2000 && y < HEIGHT && x < WIDTH
      reads buffer
    {
      buffer[y * WIDTH + x].ch
    }

    /** The screen shows 25 rows of t from row top on. */
    ghost predicate Shows(t: Term, top: nat)
      requires buffer.Length == 2000
      reads buffer
    {
      forall y, x :: 0 <= y < HEIGHT && 0 <= x < WIDTH ==> CharAt(y, x) == Cell(t, top + y, x)
    }

    /** The screen and cursor are those of t. */
    ghost predicate Matches(t: Term)
      reads this, buffer
    {
      && buffer.Length == 2000 && t.cols == WIDTH && t.rows == HEIGHT && t.bottom + 1 >= t.rows
      && column == t.col && row + Top(t) == t.row && Shows(t, Top(t))
    }

    ghost predicate Valid()
      reads this, buffer
    {
      Ok(term) && Matches(term)
    }

    /** vga_init: light grey on black. */
    constructor ()
      ensures Valid() && term == Blank(WIDTH, HEIGHT) && fresh(buffer)
    {
      buffer := new Entry[2000](_ => Entry(BLANK, 7));
      row, column, color := 0, 0, 7;
      term := Blank(WIDTH, HEIGHT);
    }

    /** vga_setcolor. */
    method SetColor(c: Byte)
      requires Valid()
      modifies this`color
      ensures Valid() && color == c && term == old(term)
    {
      color := c;
    }

    /** The scroll loops of vga_putchar. */
    method Scroll()
      requires buffer.Length == 2000
      modifies buffer
      ensures forall k :: 0 <= k < 1920 ==> buffer[k] == old(buffer[k + WIDTH])
      ensures forall k :: 1920 <= k < 2000 ==> buffer[k] == Entry(BLANK, color)
    {
      var y := 0;
      while y < HEIGHT - 1
        invariant y <= HEIGHT - 1
        invariant forall k :: 0 <= k < y * WIDTH ==> buffer[k] == old(buffer[k + WIDTH])
        invariant forall k :: y * WIDTH <= k < 2000 ==> buffer[k] == old(buffer[k])
      {
        var x := 0;
        while x < WIDTH
          invariant x <= WIDTH
          invariant forall k :: 0 <= k < y * WIDTH + x ==> buffer[k] == old(buffer[k + WIDTH])
          invariant forall k :: y * WIDTH + x <= k < 2000 ==> buffer[k] == old(buffer[k])
        {
          buffer[y * WIDTH + x] := buffer[(y + 1) * WIDTH + x];
          x := x + 1;
        }
        y := y + 1;
      }
      var x := 0;
      while x < WIDTH
        invariant x <= WIDTH
        invariant forall k :: 0 <= k < 1920 ==> buffer[k] == old(buffer[k + WIDTH])
        invariant forall k :: 1920 <= k < 1920 + x ==> buffer[k] == Entry(BLANK, color)
      {
        buffer[(HEIGHT - 1) * WIDTH + x] := Entry(BLANK, color);
        x := x + 1;
      }
    }

    /** Store a character at the cursor. */
    method SetCell(c: Byte, ghost t: Term)
      requires Matches(t) && column < WIDTH && row < HEIGHT
      modifies buffer
      ensures Matches(Write(t, c))
    {
      buffer[row * WIDTH + column] := Entry(c, color);
      forall y, x | 0 <= y < HEIGHT && 0 <= x < WIDTH
        ensures CharAt(y, x) == if y == row && x == column then c else old(CharAt(y, x))
      {
      }
    }

    /** Move the cursor and nothing else. */
    method Goto(x: nat, y: nat, ghost t: Term)
      requires Matches(t)
      modifies this`row, this`column
      ensures Matches(t.(row := Top(t) + y, col := x))
    {
      row, column := y, x;
    }

    /** One column back, or to the end of the row above. */
    method StepBack(ghost t: Term)
      requires Matches(t)
      modifies this`row, this`column
      ensures Matches(Back(t))
    {
      if column > 0 { Goto(column - 1, row, t); } else if row > 0 { Goto(WIDTH - 1, row - 1, t); }
    }

    /** One column on, or to the start of the row below. */
    method StepForward(ghost t: Term)
      requires Matches(t) && t.cols > 0
      modifies this`row, this`column
      ensures Matches(Step(t, Right))
    {
      if column < WIDTH - 1 { Goto(column + 1, row, t); } else if row < HEIGHT - 1 { Goto(0, row + 1, t); }
    }

    /** A character that is not a control character. */
    method Print(c: Byte, ghost t: Term)
      requires Matches(t) && column < WIDTH && row < HEIGHT
      modifies this`row, this`column, buffer
      ensures Matches(Write(t, c).(col := t.col + 1))
    {
      SetCell(c, t);
      Goto(column + 1, row, Write(t, c));
    }

    /** The cursor and cell changes of one character. */
    method Apply(c: Byte)
      requires Valid()
      modifies this`row, this`column, buffer
      ensures Matches(Type(term, c))
    {
      if c == 10 {
        Goto(0, row + 1, term);
      } else if c == 13 {
        Goto(0, row, term);
      } else if c == 8 {
        StepBack(term);
        SetCell(BLANK, Back(term));
      } else if c == 9 {
        Goto((column + 4) / 4 * 4, row, term);
      } else {
        Print(c, term);
      }
    }

    /** Past the right edge the cursor goes to the next row. */
    method Wrap(ghost t: Term)
      requires Matches(t)
      modifies this`row, this`column
      ensures Matches(WrapLine(t))
    {
      if column >= WIDTH { Goto(0, row + 1, t); }
    }

    /** The same, with line wrap. */
    method TypeChar(c: Byte)
      requires Valid()
      modifies this`row, this`column, buffer
      ensures Matches(WrapLine(Type(term, c)))
    {
      Apply(c);
      Wrap(Type(term, c));
    }

    /** vga_putchar. */
    method PutChar(c: Byte)
      requires Valid()
      modifies this, buffer
      ensures Valid() && term == Step(old(term), Char(c))
    {
      TypeKeeps(term, c);
      StepKeeps(term, Char(c));
      TypeChar(c);
      term := WrapLine(Type(term, c));
      if row >= HEIGHT {
        ScrollTo(Extend(term));
        row := HEIGHT - 1;
      }
      term := Extend(term);
    }

    /** Scrolling brings the row below the screen in as a blank one. */
    method ScrollTo(ghost t: Term)
      requires Matches(term) && AlmostOk(term) && row == HEIGHT && t == Extend(term)
      modifies buffer
      ensures buffer.Length == 2000 && Shows(t, Top(t))
    {
      Scroll();
      forall y, x | 0 <= y < HEIGHT && 0 <= x < WIDTH ensures CharAt(y, x) == Cell(t, Top(t) + y, x) {
        if y < HEIGHT - 1 {
          assert buffer[y * WIDTH + x] == old(buffer[y * WIDTH + x + WIDTH]);
          assert old(CharAt(y + 1, x)) == Cell(term, Top(term) + y + 1, x);
        }
      }
    }

    /** The cursor moves, on the screen alone. */
    method MoveCursor(op: Op)
      requires Valid() && !op.Char?
      modifies this`row, this`column
      ensures Matches(Step(term, op))
    {
      match op {
        case Up => if row > 0 { Goto(column, row - 1, term); }
        case Down => if row < HEIGHT - 1 { Goto(column, row + 1, term); }
        case Left => StepBack(term);
        case Right => StepForward(term);
      }
    }

    /** vga_cursor_up, _down, _left and _right. */
    method Move(op: Op)
      requires Valid() && !op.Char?
      modifies this
      ensures Valid() && term == Step(old(term), op)
    {
      StepKeeps(term, op);
      MoveCursor(op);
      term := Step(term, op);
    }
  }
}

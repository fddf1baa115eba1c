/**
 A terminal that never scrolls: rows go on downwards without end, and what was written stays.
 The last rows of it are what a scrolling screen of the same width and height shows.
 */
module Terminal {

  type Byte = b: nat | b < 256

  const BLANK: Byte := 32

  /** Width and height of the screen; cells written, by absolute row and column; cursor; last row reached. */
  datatype Term = Term(cols: nat, rows: nat, cells: map<(nat, nat), Byte>, row: nat, col: nat, bottom: nat)

  datatype Op = Char(c: Byte) | Up | Down | Left | Right

  function Cell(t: Term, r: nat, c: nat): Byte { if (r, c) in t.cells then t.cells[(r, c)] else BLANK }

  ghost predicate Ok(t: Term)
  {
    && t.cols > 0 && t.rows > 0 && t.bottom + 1 >= t.rows
    && t.col < t.cols && Top(t) <= t.row <= t.bottom
    && forall k :: k in t.cells ==> k.0 <= t.bottom && k.1 < t.cols
  }

  /** First row on the screen: the number of times the screen has scrolled. */
  function Top(t: Term): nat { if t.bottom + 1 >= t.rows then t.bottom + 1 - t.rows else 0 }

  function Blank(cols: nat, rows: nat): Term
    requires rows > 0
  {
    Term(cols, rows, map[], 0, 0, rows - 1)
  }

  /** One column back, or to the end of the row above if that is on the screen. */
  function Back(t: Term): Term
    requires t.cols > 0
  {
    if t.col > 0 then t.(col := t.col - 1)
    else if t.row > Top(t) then t.(row := t.row - 1, col := t.cols - 1)
    else t
  }

  function Write(t: Term, c: Byte): Term { t.(cells := t.cells[(t.row, t.col) := c]) }

  /** The effect of a character before line wrap. */
  function Type(t: Term, c: Byte): Term
    requires t.cols > 0
  {
    match c
    case 10 => t.(row := t.row + 1, col := 0)
    case 13 => t.(col := 0)
    case 8 => Write(Back(t), BLANK)
    case 9 => t.(col := (t.col + 4) / 4 * 4)
    case _ => Write(t, c).(col := t.col + 1)
  }

  /** Past the right edge the cursor starts the next row. */
  function WrapLine(t: Term): Term { if t.col >= t.cols then t.(row := t.row + 1, col := 0) else t }

  /** A cursor below the last row makes that row the last. */
  function Extend(t: Term): Term { if t.row > t.bottom then t.(bottom := t.row) else t }

  function Put(t: Term, c: Byte): Term
    requires t.cols > 0
  {
    Extend(WrapLine(Type(t, c)))
  }

  function Step(t: Term, op: Op): Term
    requires t.cols > 0
  {
    match op
    case Char(c) => Put(t, c)
    case Up => if t.row > Top(t) then t.(row := t.row - 1) else t
    case Down => if t.row < t.bottom then t.(row := t.row + 1) else t
    case Left => Back(t)
    case Right =>
      if t.col < t.cols - 1 then t.(col := t.col + 1)
      else if t.row < t.bottom then t.(row := t.row + 1, col := 0)
      else t
  }

  function Run(t: Term, ops: seq<Op>): Term
    requires t.cols > 0
    decreases |ops|
  {
    if ops == [] then t else Run(Step(t, ops[0]), ops[1..])
  }

  /** Between typing a character and making room for it the cursor may stand one row below the screen. */
  ghost predicate AlmostOk(t: Term)
  {
    && t.cols > 0 && t.rows > 0 && t.bottom + 1 >= t.rows
    && t.col < t.cols && Top(t) <= t.row <= t.bottom + 1
    && forall k :: k in t.cells ==> k.0 <= t.bottom && k.1 < t.cols
  }

  lemma TypeKeeps(t: Term, c: Byte)
    requires Ok(t)
    ensures var u := WrapLine(Type(t, c)); AlmostOk(u) && u.cols == t.cols && u.rows == t.rows && u.bottom == t.bottom
  {
  }

  lemma StepKeeps(t: Term, op: Op)
    requires Ok(t)
    ensures Ok(Step(t, op)) && Step(t, op).cols == t.cols && Step(t, op).rows == t.rows
    ensures Top(t) <= Top(Step(t, op)) <= Top(t) + 1
  {
    if op.Char? { TypeKeeps(t, op.c); }
  }

  /** For every stream the cursor stays on the screen. */
  lemma {:induction false} RunKeeps(t: Term, ops: seq<Op>)
    requires Ok(t)
    ensures Ok(Run(t, ops)) && Run(t, ops).cols == t.cols && Run(t, ops).rows == t.rows && Top(t) <= Top(Run(t, ops))
    decreases |ops|
  {
    if ops != [] {
      StepKeeps(t, ops[0]);
      RunKeeps(Step(t, ops[0]), ops[1..]);
    }
  }

  lemma {:induction false} RunConcat(t: Term, a: seq<Op>, b: seq<Op>)
    requires Ok(t)
    ensures Run(t, a).cols > 0 && Run(t, a + b) == Run(Run(t, a), b)
    decreases |a|
  {
    if a == [] {
      assert a + b == b;
    } else {
      StepKeeps(t, a[0]);
      assert (a + b)[1..] == a[1..] + b;
      RunConcat(Step(t, a[0]), a[1..], b);
    }
  }

  lemma StepFreezes(t: Term, op: Op, r: nat, c: nat)
    requires Ok(t) && r < Top(t)
    ensures Cell(Step(t, op), r, c) == Cell(t, r, c)
  {
  }

  /** Rows that have left the screen never change again, whatever is typed. */
  lemma {:induction false} ScrolledRowsAreFrozen(t: Term, ops: seq<Op>, r: nat, c: nat)
    requires Ok(t) && r < Top(t)
    ensures Run(t, ops).cols > 0 && Cell(Run(t, ops), r, c) == Cell(t, r, c)
    decreases |ops|
  {
    if ops != [] {
      StepKeeps(t, ops[0]);
      StepFreezes(t, ops[0], r, c);
      ScrolledRowsAreFrozen(Step(t, ops[0]), ops[1..], r, c);
    }
  }

  // ---------------------------------------------------------------- what each key does

  /** The cursor stands at (row, col), the size is as before, and the last row is the cursor's if that lies lower. */
  ghost predicate CursorAt(t: Term, r: Term, row: nat, col: nat)
  {
    && r.row == row && r.col == col && r.cols == t.cols && r.rows == t.rows
    && r.bottom == if row > t.bottom then row else t.bottom
  }

  ghost predicate SameCells(t: Term, r: Term) { forall y, x :: Cell(r, y, x) == Cell(t, y, x) }

  /** The cell at (row, col) is c, and no other has changed. */
  ghost predicate OneCell(t: Term, r: Term, row: nat, col: nat, c: Byte)
  {
    forall y, x :: Cell(r, y, x) == if y == row && x == col then c else Cell(t, y, x)
  }

  /** A character with no other meaning is shown at the cursor, which moves on, past the right edge to the next row. */
  lemma PrintableIsShown(t: Term, c: Byte)
    requires Ok(t) && c != 8 && c != 9 && c != 10 && c != 13
    ensures var r := Step(t, Char(c));
      && OneCell(t, r, t.row, t.col, c)
      && if t.col + 1 < t.cols then CursorAt(t, r, t.row, t.col + 1) else CursorAt(t, r, t.row + 1, 0)
  {
  }

  /** Newline and carriage return change no cell. */
  lemma LineEnds(t: Term)
    requires Ok(t)
    ensures SameCells(t, Step(t, Char(10))) && CursorAt(t, Step(t, Char(10)), t.row + 1, 0)
    ensures SameCells(t, Step(t, Char(13))) && CursorAt(t, Step(t, Char(13)), t.row, 0)
  {
  }

  /** The cursor is one column back from where it was in t, or at the end of the row above if that is on the screen. */
  ghost predicate OneBack(t: Term, r: Term)
    requires t.cols > 0
  {
    if t.col > 0 then CursorAt(t, r, t.row, t.col - 1)
    else if t.row + t.rows > t.bottom + 1 then t.row > 0 && CursorAt(t, r, t.row - 1, t.cols - 1)
    else CursorAt(t, r, t.row, t.col)
  }

  /** Backspace steps back and blanks the cell there. */
  lemma BackspaceBlanks(t: Term)
    requires Ok(t)
    ensures var r := Step(t, Char(8)); OneBack(t, r) && OneCell(t, r, r.row, r.col, 32)
  {
  }

  /** A tab changes no cell and moves to the next column that is a multiple of 4, or to the next row. */
  lemma TabMoves(t: Term, stop: nat)
    requires Ok(t) && t.col < stop <= t.col + 4 && stop % 4 == 0
    ensures var r := Step(t, Char(9));
      && SameCells(t, r)
      && if stop < t.cols then CursorAt(t, r, t.row, stop) else CursorAt(t, r, t.row + 1, 0)
  {
    NextStop(t.col, stop);
  }

  lemma NextStop(col: nat, stop: nat)
    requires col < stop <= col + 4 && stop % 4 == 0
    ensures (col + 4) / 4 * 4 == stop
  {
    var k := stop / 4;
    assert stop == 4 * k;
  }

  /** The four moves change no cell and stop at the edges of the screen. */
  lemma MovesStayOnScreen(t: Term)
    requires Ok(t)
    ensures forall op :: op in {Up, Down, Left, Right} ==> SameCells(t, Step(t, op))
    ensures CursorAt(t, Step(t, Up), if t.row + t.rows > t.bottom + 1 then t.row - 1 else t.row, t.col)
    ensures CursorAt(t, Step(t, Down), if t.row < t.bottom then t.row + 1 else t.row, t.col)
    ensures OneBack(t, Step(t, Left))
    ensures if t.col + 1 < t.cols then CursorAt(t, Step(t, Right), t.row, t.col + 1)
            else if t.row < t.bottom then CursorAt(t, Step(t, Right), t.row + 1, 0)
            else CursorAt(t, Step(t, Right), t.row, t.col)
  {
  }

  /** A new screen shows blanks, with the cursor at the origin. */
  lemma BlankIsBlank(cols: nat, rows: nat)
    requires rows > 0
    ensures var t := Blank(cols, rows);
      && (forall y, x :: Cell(t, y, x) == 32) && t.row == 0 && t.col == 0 && t.cols == cols && t.rows == rows
      && t.bottom + 1 == rows
  {
  }
}

/**
 The two consoles are the same terminal: fed the same stream at 80 by 25 they agree cell by cell.
 */
module Consoles {
  import opened Terminal
  import Fbcon
  import Vga

  /** Feed one operation to both consoles. */
  method Feed(fb: Fbcon.Console, vga: Vga.Screen, op: Op)
    requires fb.Valid() && vga.Valid()
    modifies fb, fb.buf, vga, vga.buffer
    ensures fb.Valid() && vga.Valid() && fb.term == Step(old(fb.term), op) && vga.term == Step(old(vga.term), op)
  {
    match op {
      case Char(c) => fb.PutChar(c); vga.PutChar(c);
      case _ => fb.Move(op); vga.Move(op);
    }
  }

  /** Feed one stream to both consoles. */
  method RunBoth(ops: seq<Op>) returns (fb: Fbcon.Console, vga: Vga.Screen)
    ensures fb.Valid() && vga.Valid() && fb.COLS == 80 && fb.ROWS == 25
    ensures fb.term == Run(Blank(80, 25), ops) && vga.term == fb.term
    ensures fb.cx == vga.column && fb.cy == vga.row
    ensures forall y, x :: 0 <= y < 25 && 0 <= x < 80 ==> fb.buf[y, x] == vga.CharAt(y, x)
  {
    fb := new Fbcon.Console(80, 25);
    vga := new Vga.Screen();
    var n := 0;
    while n < |ops|
      invariant n <= |ops| && fb.Valid() && vga.Valid() && fb.COLS == 80 && fb.ROWS == 25
      invariant fresh(fb) && fresh(vga) && fresh(fb.buf) && fresh(vga.buffer)
      invariant vga.term == fb.term && Run(Blank(80, 25), ops) == Run(fb.term, ops[n..])
    {
      assert ops[n..][0] == ops[n] && ops[n..][1..] == ops[n + 1..];
      Feed(fb, vga, ops[n]);
      n := n + 1;
    }
    assert ops[n..] == [];
  }
}

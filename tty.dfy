/**
 * The text console (kernel/src/sys/tty.c): a cursor (`col`, `row`) that
 * printing moves across a screen of character cells.
 *
 * The screen itself is the driver manager's: the width and height it
 * reports and the status of each cell write are parameters, and the
 * writes a call makes are returned in order as Cells.  TTY_WHITE_ON_BLACK
 * is not defined in the kernel's headers, so it is fixed when the console
 * is created.  A failed write panics: Halt.
 */
module Tty {
  import opened Kernel
  import Strings

  const NEWLINE: u8 := 0x0A
  const SPACE: u8 := 0x20

  /** One driver_manager_write_tty call: column, row, colour and character. */
  datatype Cell = Cell(x: u32, y: u32, color: u8, ch: u8)

  /** The cursor after a character that is not a newline: one column on, wrapping at the width. */
  function NextColumn(col: u32, row: u32, width: u32): (u32, u32) {
    var c := Wrap32(col as int + 1);
    if c >= width then (0, Wrap32(row as int + 1)) else (c, row)
  }

  /**
   * What printing characters i.. of `msg` from cursor (col, row) does: the
   * cells written and the final cursor, or Halt at the first write whose
   * status is not EOK.  A newline moves to column 0 of the next row and
   * writes nothing.  The row is never compared with the screen height.
   */
  function PrintFrom(msg: seq<u8>, i: nat, col: u32, row: u32, color: u8, width: u32,
                     status: (u32, u32, u8, u8) -> u32): Outcome<(seq<Cell>, u32, u32)>
    requires i <= |msg|
    decreases |msg| - i
  {
    if i == |msg| then Done(([], col, row))
    else if msg[i] == NEWLINE then PrintFrom(msg, i + 1, 0, Wrap32(row as int + 1), color, width, status)
    else if status(col, row, color, msg[i]) != EOK then Halt
    else
      var (c, r) := NextColumn(col, row, width);
      Prefixed([Cell(col, row, color, msg[i])], PrintFrom(msg, i + 1, c, r, color, width, status))
  }

  /** `cells` written before what `o` writes. */
  function Prefixed(cells: seq<Cell>, o: Outcome<(seq<Cell>, u32, u32)>): Outcome<(seq<Cell>, u32, u32)> {
    match o
    case Halt => Halt
    case Done((cs, c, r)) => Done((cells + cs, c, r))
  }

  lemma PrefixedAssoc(a: seq<Cell>, b: seq<Cell>, o: Outcome<(seq<Cell>, u32, u32)>)
    ensures Prefixed(a, Prefixed(b, o)) == Prefixed(a + b, o)
  {
    match o
    case Halt =>
    case Done((cs, c, r)) =>
      assert (a + b) + cs == a + (b + cs);
  }

  lemma PrefixedEmpty(o: Outcome<(seq<Cell>, u32, u32)>)
    ensures Prefixed([], o) == o
  {
    match o
    case Halt =>
    case Done((cs, c, r)) =>
      assert [] + cs == cs;
  }

  /** The characters of `msg` from `i` on, newlines left out. */
  function Printable(msg: seq<u8>, i: nat): seq<u8>
    requires i <= |msg|
    decreases |msg| - i
  {
    if i == |msg| then [] else (if msg[i] == NEWLINE then [] else [msg[i]]) + Printable(msg, i + 1)
  }

  function Chars(cells: seq<Cell>): seq<u8> {
    if |cells| == 0 then [] else [cells[0].ch] + Chars(cells[1..])
  }

  lemma {:induction false} CharsAppend(a: seq<Cell>, b: seq<Cell>)
    ensures Chars(a + b) == Chars(a) + Chars(b)
    decreases |a|
  {
    if |a| > 0 {
      assert (a + b)[1..] == a[1..] + b;
      CharsAppend(a[1..], b);
    } else {
      assert a + b == b;
    }
  }

  /**
   * A print that does not halt writes exactly the message's characters,
   * newlines left out, in order, all in the given colour; started inside
   * the screen's width, every write and the final cursor stay inside it.
   */
  lemma {:induction false} PrintWritesMessage(msg: seq<u8>, i: nat, col: u32, row: u32, color: u8, width: u32,
                                              status: (u32, u32, u8, u8) -> u32)
    requires i <= |msg|
    ensures var o := PrintFrom(msg, i, col, row, color, width, status);
            o.Done? ==> Chars(o.value.0) == Printable(msg, i)
                        && (forall k :: 0 <= k < |o.value.0| ==> o.value.0[k].color == color)
                        && (col < width ==> o.value.1 < width && forall k :: 0 <= k < |o.value.0| ==> o.value.0[k].x < width)
    decreases |msg| - i
  {
    if i < |msg| {
      if msg[i] == NEWLINE {
        PrintWritesMessage(msg, i + 1, 0, Wrap32(row as int + 1), color, width, status);
      } else if status(col, row, color, msg[i]) == EOK {
        var (c, r) := NextColumn(col, row, width);
        PrintWritesMessage(msg, i + 1, c, r, color, width, status);
        PrintOneCell(msg, i, col, row, color, width, status);
      }
    }
  }

  /** A printable byte written with status EOK puts its cell in front of what the rest of the message writes. */
  lemma {:induction false} PrintOneCell(msg: seq<u8>, i: nat, col: u32, row: u32, color: u8, width: u32,
                                        status: (u32, u32, u8, u8) -> u32)
    requires i < |msg| && msg[i] != NEWLINE && status(col, row, color, msg[i]) == EOK
    ensures var o := PrintFrom(msg, i, col, row, color, width, status);
            var rest := PrintFrom(msg, i + 1, NextColumn(col, row, width).0, NextColumn(col, row, width).1, color, width, status);
            rest.Done? ==> o.Done? && o.value.1 == rest.value.1 && Chars(o.value.0) == [msg[i]] + Chars(rest.value.0)
                           && o.value.0[0] == Cell(col, row, color, msg[i])
                           && |o.value.0| == |rest.value.0| + 1
                           && forall k :: 1 <= k < |o.value.0| ==> o.value.0[k] == rest.value.0[k - 1]
  {
    var (c, r) := NextColumn(col, row, width);
    var rest := PrintFrom(msg, i + 1, c, r, color, width, status);
    if rest.Done? {
      var cell := Cell(col, row, color, msg[i]);
      CharsAppend([cell], rest.value.0);
      assert Chars([cell]) == [msg[i]] + Chars([]);
      var o := PrintFrom(msg, i, col, row, color, width, status);
      assert o.value.0 == [cell] + rest.value.0;
    }
  }

  /** A string of newlines writes nothing and moves the cursor down one row each, past any screen height. */
  lemma {:induction false} NewlinesOnly(msg: seq<u8>, i: nat, col: u32, row: u32, color: u8, width: u32,
                                        status: (u32, u32, u8, u8) -> u32)
    requires i <= |msg| && forall k :: i <= k < |msg| ==> msg[k] == NEWLINE
    ensures PrintFrom(msg, i, col, row, color, width, status) ==
            Done(([], if i == |msg| then col else 0, Wrap32(row as int + |msg| - i)))
    decreases |msg| - i
  {
    if i < |msg| {
      NewlinesOnly(msg, i + 1, 0, Wrap32(row as int + 1), color, width, status);
      assert Wrap32(Wrap32(row as int + 1) as int + |msg| - (i + 1)) == Wrap32(row as int + |msg| - i);
    }
  }

  /** The spaces clear_tty writes on row `y`, left to right. */
  function RowCells(width: u32, y: u32, color: u8): (r: seq<Cell>)
    ensures |r| == width as nat
  {
    seq(width, x requires 0 <= x < width as int => Cell(x as u32, y, color, SPACE))
  }

  /** The spaces clear_tty writes on rows 0..h-1: row by row, each left to right. */
  function ClearCells(width: u32, h: nat, color: u8): (r: seq<Cell>)
    requires h < TWO_32
    ensures |r| == h * width as nat
  {
    if h == 0 then [] else ClearCells(width, h - 1, color) + RowCells(width, (h - 1) as u32, color)
  }

  /** clear_tty writes cell k at column k % width of row k / width: row-major order. */
  lemma {:induction false} ClearCellsRowMajor(width: u32, h: nat, color: u8, k: nat)
    requires h < TWO_32 && k < h * width as nat
    ensures width > 0 && k / width as nat < h
    ensures ClearCells(width, h, color)[k] == Cell((k % width as nat) as u32, (k / width as nat) as u32, color, SPACE)
  {
    var w := width as nat;
    var before := ClearCells(width, h - 1, color);
    assert ClearCells(width, h, color) == before + RowCells(width, (h - 1) as u32, color);
    if k < |before| {
      ClearCellsRowMajor(width, h - 1, color, k);
    } else {
      var x := LastRow(w, h, k);
      assert ClearCells(width, h, color)[k] == RowCells(width, (h - 1) as u32, color)[x];
    }
  }

  /** A cell index past the first h - 1 rows of width w lies in row h - 1. */
  lemma LastRow(w: nat, h: nat, k: nat) returns (x: nat)
    requires (h - 1) * w <= k < h * w
    ensures w > 0 && h > 0 && x == k - (h - 1) * w && x < w
    ensures k / w == h - 1 && k % w == x
  {
    assert h * w == (h - 1) * w + w;
    x := k - (h - 1) * w;
    DivUnique(k, w, h - 1, x);
  }

  /** Every cell of the screen accepts a space in `color`. */
  ghost predicate Clearable(width: u32, height: u32, color: u8, status: (u32, u32, u8, u8) -> u32) {
    forall y: u32, x: u32 :: y < height && x < width ==> status(x, y, color, SPACE) == EOK
  }

  class Tty {
    var row: u32
    var col: u32
    /** The colour TTY_WHITE_ON_BLACK stands for. */
    const whiteOnBlack: u8

    /** The statics start at 0. */
    constructor (whiteOnBlack: u8)
      ensures row == 0 && col == 0 && this.whiteOnBlack == whiteOnBlack
    {
      row, col := 0, 0;
      this.whiteOnBlack := whiteOnBlack;
    }

    /**
     * clear_tty: a space in white on black at every cell, row by row and
     * left to right within a row, then the cursor at (0, 0); a failed
     * write halts.
     */
    method Clear(width: u32, height: u32, status: (u32, u32, u8, u8) -> u32) returns (out: Outcome<seq<Cell>>)
      modifies this
      ensures out.Done? <==> Clearable(width, height, whiteOnBlack, status)
      ensures out.Done? ==> out.value == ClearCells(width, height as nat, whiteOnBlack) && row == 0 && col == 0
    {
      var cells: seq<Cell> := [];
      var y: u32 := 0;
      while y < height
        invariant y <= height && cells == ClearCells(width, y as nat, whiteOnBlack)
        invariant forall yy: u32, x: u32 :: yy < y && x < width ==> status(x, yy, whiteOnBlack, SPACE) == EOK
      {
        var x: u32 := 0;
        while x < width
          invariant x <= width
          invariant cells == ClearCells(width, y as nat, whiteOnBlack) + RowCells(width, y, whiteOnBlack)[..x]
          invariant forall xx: u32 :: xx < x ==> status(xx, y, whiteOnBlack, SPACE) == EOK
        {
          var result := status(x, y, whiteOnBlack, SPACE);
          if result != EOK {
            return Halt;
          }
          cells := cells + [Cell(x, y, whiteOnBlack, SPACE)];
          assert RowCells(width, y, whiteOnBlack)[..x + 1] == RowCells(width, y, whiteOnBlack)[..x] + [Cell(x, y, whiteOnBlack, SPACE)];
          x := x + 1;
        }
        assert RowCells(width, y, whiteOnBlack)[..x] == RowCells(width, y, whiteOnBlack);
        y := y + 1;
      }
      row := 0;
      col := 0;
      return Done(cells);
    }

    /**
     * kprint_at_color: moves the cursor to (_col, _row) and prints the C
     * string at the start of `message`: the cells written and the new
     * cursor are PrintFrom's, and a failed write halts.
     */
    method KprintAtColor(message: seq<u8>, col0: u32, row0: u32, color: u8, width: u32,
                         status: (u32, u32, u8, u8) -> u32) returns (out: Outcome<seq<Cell>>)
      requires Strings.Terminated(message, 0)
      modifies this
      ensures var spec := PrintFrom(Strings.CStr(message, 0), 0, col0, row0, color, width, status);
              (out.Done? <==> spec.Done?)
              && (out.Done? ==> out.value == spec.value.0 && col == spec.value.1 && row == spec.value.2)
    {
      ghost var msg := Strings.CStr(message, 0);
      row := row0;
      col := col0;
      var cells: seq<Cell> := [];
      PrefixedEmpty(PrintFrom(msg, 0, col0, row0, color, width, status));
      var i := 0;
      while message[i] != 0
        invariant i <= |msg| && msg == message[..Strings.NulFrom(message, 0)]
        invariant Prefixed(cells, PrintFrom(msg, i, col, row, color, width, status)) ==
                  PrintFrom(msg, 0, col0, row0, color, width, status)
        decreases |msg| - i
      {
        assert message[i] == msg[i];
        if message[i] == NEWLINE {
          col := 0;
          row := Wrap32(row as int + 1);
          i := i + 1;
          continue;
        }
        var result := status(col, row, color, message[i]);
        if result != EOK {
          return Halt;
        }
        var cell := Cell(col, row, color, message[i]);
        PrefixedAssoc(cells, [cell], PrintFrom(msg, i + 1, NextColumn(col, row, width).0, NextColumn(col, row, width).1, color, width, status));
        cells := cells + [cell];
        col := Wrap32(col as int + 1);
        if col >= width {
          col := 0;
          row := Wrap32(row as int + 1);
        }
        i := i + 1;
      }
      assert i == |msg|;
      assert cells + [] == cells;
      return Done(cells);
    }

    /** kprint_color: prints from the current cursor. */
    method KprintColor(message: seq<u8>, color: u8, width: u32, status: (u32, u32, u8, u8) -> u32)
      returns (out: Outcome<seq<Cell>>)
      requires Strings.Terminated(message, 0)
      modifies this
      ensures var spec := PrintFrom(Strings.CStr(message, 0), 0, old(col), old(row), color, width, status);
              (out.Done? <==> spec.Done?)
              && (out.Done? ==> out.value == spec.value.0 && col == spec.value.1 && row == spec.value.2)
    {
      out := KprintAtColor(message, col, row, color, width, status);
    }

    /** kprint_at: prints from the given cursor in white on black. */
    method KprintAt(message: seq<u8>, col0: u32, row0: u32, width: u32, status: (u32, u32, u8, u8) -> u32)
      returns (out: Outcome<seq<Cell>>)
      requires Strings.Terminated(message, 0)
      modifies this
      ensures var spec := PrintFrom(Strings.CStr(message, 0), 0, col0, row0, whiteOnBlack, width, status);
              (out.Done? <==> spec.Done?)
              && (out.Done? ==> out.value == spec.value.0 && col == spec.value.1 && row == spec.value.2)
    {
      out := KprintAtColor(message, col0, row0, whiteOnBlack, width, status);
    }

    /** kprint: prints from the current cursor in white on black. */
    method Kprint(message: seq<u8>, width: u32, status: (u32, u32, u8, u8) -> u32) returns (out: Outcome<seq<Cell>>)
      requires Strings.Terminated(message, 0)
      modifies this
      ensures var spec := PrintFrom(Strings.CStr(message, 0), 0, old(col), old(row), whiteOnBlack, width, status);
              (out.Done? <==> spec.Done?)
              && (out.Done? ==> out.value == spec.value.0 && col == spec.value.1 && row == spec.value.2)
    {
      out := KprintAtColor(message, col, row, whiteOnBlack, width, status);
    }
  }
}

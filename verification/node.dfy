/** The `Node` class: a grid cell with the mutable search fields `g`, `h`
    and `f`. All of its fields are Java `int`s, so `setF` wraps around on
    overflow. */
module Nodes {
  import Grid
  import opened Ints

  /** Java's 32-bit two's-complement `int` addition result for the exact sum `x`. */
  function Wrap32(x: int): (r: int32)
    ensures (r as int - x) % 0x1_0000_0000 == 0
    ensures -0x8000_0000 <= x < 0x8000_0000 ==> r as int == x
  {
    ((x + 0x8000_0000) % 0x1_0000_0000 - 0x8000_0000) as int32
  }

  class Node {
    const row: int32
    const col: int32
    /** The cell type: 0 free, 1 blocked. */
    const kind: int32
    var f: int32
    var g: int32
    var h: int32

    /** A fresh node: `g` starts at `Integer.MAX_VALUE` ("not reached"),
        `h` and `f` at 0. */
    constructor (r: int32, c: int32, t: int32)
      ensures row == r && col == c && kind == t
      ensures g as int == INT_MAX && h == 0 && f == 0
    {
      row, col, kind := r, c, t;
      g, h, f := INT_MAX as int32, 0, 0;
    }

    /** The coordinates that identify this node. */
    function At(): Grid.Pos {
      Grid.Pos(row as int, col as int)
    }

    method SetF()
      modifies this
      ensures f == Wrap32(g as int + h as int)
      ensures g == old(g) && h == old(h)
    {
      f := Wrap32(g as int + h as int);
    }

    method SetG(value: int32)
      modifies this
      ensures g == value && h == old(h) && f == old(f)
    {
      g := value;
    }

    method SetH(value: int32)
      modifies this
      ensures h == value && g == old(g) && f == old(f)
    {
      h := value;
    }

    /** `equals`: the same object, or another node at the same row and
        column, whatever its type and search fields. */
    predicate Equals(obj: Node?)
      ensures Equals(obj) <==> obj != null && At() == obj.At()
    {
      this == obj || (obj != null && row == obj.row && col == obj.col)
    }
  }

  /** The update `findPath` applies to a neighbour it improves (`setG`,
      `setH`, `setF` in a row): afterwards `f == g + h` whenever the sum
      fits in an `int`. */
  method Rescore(node: Node, g: int32, h: int32)
    modifies node
    ensures node.g == g && node.h == h
    ensures (node.f as int - (g as int + h as int)) % 0x1_0000_0000 == 0
    ensures -0x8000_0000 <= g as int + h as int < 0x8000_0000 ==> node.f as int == g as int + h as int
  {
    node.SetG(g);
    node.SetH(h);
    node.SetF();
  }
}

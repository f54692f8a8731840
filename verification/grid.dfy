/** The world that the A* search runs over: a rectangular grid of cell types,
    where type 1 marks a blocked cell and every other type is passable. */
module Grid {

  /** The coordinates of a cell. A `Node` is identified by these alone
      (its `equals` compares row and column only), so the search keys all of
      its sets and maps by `Pos`. */
  datatype Pos = Pos(row: int, col: int)

  /** `world[r][c]` is the type of the cell at row `r`, column `c`. */
  type World = seq<seq<int>>

  const BLOCKED: int := 1

  /** At least one row, and every row as long as the first: the shape that
      `generateWorld` builds and that `getNeighbors` relies on when it reads
      the column count off row 0. */
  predicate WellFormed(world: World) {
    |world| > 0 && forall r :: 0 <= r < |world| ==> |world[r]| == |world[0]|
  }

  function Rows(world: World): nat {
    |world|
  }

  function Cols(world: World): nat {
    if |world| == 0 then 0 else |world[0]|
  }

  predicate InBounds(world: World, p: Pos) {
    0 <= p.row < Rows(world) && 0 <= p.col < Cols(world)
  }

  /** A cell that the search may enter: any type other than 1. */
  predicate Free(world: World, p: Pos)
    requires WellFormed(world) && InBounds(world, p)
  {
    world[p.row][p.col] != BLOCKED
  }

  /** Every cell of the grid. */
  function AllCells(world: World): set<Pos> {
    set r, c | 0 <= r < Rows(world) && 0 <= c < Cols(world) :: Pos(r, c)
  }

  function Abs(x: int): nat {
    if x < 0 then -x else x
  }

  /** The heuristic `manhattanDistance`: |Δrow| + |Δcol|. */
  function Manhattan(a: Pos, b: Pos): (d: nat)
    ensures d == 0 <==> a == b
  {
    Abs(a.row - b.row) + Abs(a.col - b.col)
  }

  lemma ManhattanSymmetric(a: Pos, b: Pos)
    ensures Manhattan(a, b) == Manhattan(b, a)
  {
  }

  /** Two cells are 4-adjacent when they differ by exactly 1 in exactly one
      coordinate. */
  predicate Adjacent(a: Pos, b: Pos) {
    (a.row == b.row && Abs(a.col - b.col) == 1) || (a.col == b.col && Abs(a.row - b.row) == 1)
  }

  lemma AdjacentIsUnitDistance(a: Pos, b: Pos)
    ensures Adjacent(a, b) <==> Manhattan(a, b) == 1
  {
  }

  /** A sequence of cells in which each one is 4-adjacent to the one before. */
  predicate IsWalk(p: seq<Pos>) {
    forall i :: 0 < i < |p| ==> Adjacent(p[i - 1], p[i])
  }

  /** The heuristic never overestimates: every walk between two cells takes
      at least their Manhattan distance in unit steps. */
  lemma {:induction false} ManhattanAdmissible(p: seq<Pos>)
    requires |p| > 0 && IsWalk(p)
    ensures Manhattan(p[0], p[|p| - 1]) <= |p| - 1
  {
    if |p| > 1 {
      var q := p[..|p| - 1];
      assert IsWalk(q) by {
        forall i | 0 < i < |q| ensures Adjacent(q[i - 1], q[i]) {
          assert q[i - 1] == p[i - 1] && q[i] == p[i];
        }
      }
      ManhattanAdmissible(q);
      assert Adjacent(p[|p| - 2], p[|p| - 1]);
    }
  }

  /** The row and column offsets `dr` and `dc` of `getNeighbors`:
      up, down, left, right. */
  const DR: seq<int> := [-1, 1, 0, 0]
  const DC: seq<int> := [0, 0, -1, 1]

  function Step(p: Pos, d: nat): (q: Pos)
    requires d < 4
    ensures Adjacent(p, q)
  {
    Pos(p.row + DR[d], p.col + DC[d])
  }

  /** The four candidate neighbours in the order `getNeighbors` tries them. */
  function Candidates(p: Pos): seq<Pos> {
    [Step(p, 0), Step(p, 1), Step(p, 2), Step(p, 3)]
  }

  lemma AdjacentIsStep(p: Pos, q: Pos) returns (d: nat)
    requires Adjacent(p, q)
    ensures d < 4 && Step(p, d) == q
  {
    if q.row == p.row - 1 {
      d := 0;
    } else if q.row == p.row + 1 {
      d := 1;
    } else if q.col == p.col - 1 {
      d := 2;
    } else {
      d := 3;
    }
  }

  /** The cells of `s` that lie inside the grid, in their original order. */
  function Clip(world: World, s: seq<Pos>): (r: seq<Pos>)
    ensures |r| <= |s|
    ensures forall q :: q in r <==> q in s && InBounds(world, q)
  {
    if s == [] then []
    else
      var last := s[|s| - 1];
      assert forall q :: q in s <==> q in s[..|s| - 1] || q == last;
      Clip(world, s[..|s| - 1]) + (if InBounds(world, last) then [last] else [])
  }

  /** What `getNeighbors` returns: up, down, left, right, minus those
      outside the grid. */
  function Expansion(world: World, p: Pos): seq<Pos> {
    Clip(world, Candidates(p))
  }

  /** At most four neighbours; a cell is among them exactly when it is inside
      the grid and 4-adjacent to `p`. */
  lemma ExpansionIsNeighbourhood(world: World, p: Pos)
    ensures |Expansion(world, p)| <= 4
    ensures forall q :: q in Expansion(world, p) <==> InBounds(world, q) && Adjacent(p, q)
  {
    forall q | InBounds(world, q) && Adjacent(p, q) ensures q in Candidates(p) {
      var d := AdjacentIsStep(p, q);
      assert Candidates(p)[d] == q;
    }
  }

  /** `[q]` when `q` lies inside the grid, nothing otherwise. */
  function Keep(world: World, q: Pos): seq<Pos> {
    if InBounds(world, q) then [q] else []
  }

  /** For every cell, the neighbours come in the order up, down, left,
      right, each present exactly when it lies inside the grid. */
  lemma NeighbourOrder(world: World, p: Pos)
    ensures Expansion(world, p)
            == Keep(world, Step(p, 0)) + Keep(world, Step(p, 1)) + Keep(world, Step(p, 2)) + Keep(world, Step(p, 3))
  {
    var c := Candidates(p);
    assert c[..3][..2] == c[..2] && c[..2][..1] == c[..1] && c[..1][..0] == [];
    assert Clip(world, c[..1]) == Keep(world, c[0]);
    assert Clip(world, c[..2]) == Keep(world, c[0]) + Keep(world, c[1]);
    assert Clip(world, c[..3]) == Keep(world, c[0]) + Keep(world, c[1]) + Keep(world, c[2]);
    assert c[..4] == c;
  }

  /** Away from the border all four neighbours come back, in the order up,
      down, left, right. */
  lemma InteriorNeighbours(world: World, p: Pos)
    requires 0 < p.row < Rows(world) - 1 && 0 < p.col < Cols(world) - 1
    ensures Expansion(world, p) == [Pos(p.row - 1, p.col), Pos(p.row + 1, p.col), Pos(p.row, p.col - 1), Pos(p.row, p.col + 1)]
  {
    NeighbourOrder(world, p);
  }

  /** In the top-left corner only the cells below and to the right are
      neighbours, in that order. */
  lemma CornerNeighbours(world: World)
    requires Rows(world) >= 2 && Cols(world) >= 2
    ensures Expansion(world, Pos(0, 0)) == [Pos(1, 0), Pos(0, 1)]
  {
    NeighbourOrder(world, Pos(0, 0));
  }

  /** `getNeighbors`: walks the four offsets and keeps those inside the grid. */
  method GetNeighbors(world: World, node: Pos) returns (neighbors: seq<Pos>)
    ensures neighbors == Expansion(world, node)
  {
    neighbors := [];
    for i := 0 to 4
      invariant neighbors == Clip(world, Candidates(node)[..i])
    {
      var newRow := node.row + DR[i];
      var newCol := node.col + DC[i];
      ghost var tried := Candidates(node)[..i + 1];
      assert tried[..i] == Candidates(node)[..i] && tried[i] == Pos(newRow, newCol);
      assert Clip(world, tried) == neighbors + if InBounds(world, tried[i]) then [tried[i]] else [];
      if newRow >= 0 && newRow < |world| && newCol >= 0 && newCol < |world[0]| {
        neighbors := neighbors + [Pos(newRow, newCol)];
      }
    }
    assert Candidates(node)[..4] == Candidates(node);
  }

  /** No element occurs twice. */
  predicate Distinct<T(==)>(s: seq<T>) {
    forall i, j :: 0 <= i < j < |s| ==> s[i] != s[j]
  }

  /** A seq of distinct cells, all inside the grid, has at most rows*cols
      elements. */
  lemma {:induction false} DistinctCellsBound(world: World, s: seq<Pos>)
    requires Distinct(s)
    requires forall i :: 0 <= i < |s| ==> InBounds(world, s[i])
    ensures |s| <= Rows(world) * Cols(world)
  {
    forall i | 0 <= i < |s| ensures s[i] in AllCells(world) {
      assert s[i] == Pos(s[i].row, s[i].col);
    }
    DistinctInSet(s, AllCells(world));
    CellsCount(Rows(world), Cols(world), world);
  }

  lemma {:induction false} DistinctInSet(s: seq<Pos>, S: set<Pos>)
    requires Distinct(s)
    requires forall i :: 0 <= i < |s| ==> s[i] in S
    ensures |s| <= |S|
  {
    if s != [] {
      var x := s[|s| - 1];
      DistinctInSet(s[..|s| - 1], S - {x});
    }
  }

  function RowCells(r: int, n: nat): set<Pos> {
    set c | 0 <= c < n :: Pos(r, c)
  }

  function Block(m: nat, n: nat): set<Pos> {
    set r, c | 0 <= r < m && 0 <= c < n :: Pos(r, c)
  }

  lemma {:induction false} RowCellsCount(r: int, n: nat)
    ensures |RowCells(r, n)| == n
  {
    if n > 0 {
      assert RowCells(r, n) == RowCells(r, n - 1) + {Pos(r, n - 1)};
      RowCellsCount(r, n - 1);
    }
  }

  lemma {:induction false} CellsCount(m: nat, n: nat, world: World)
    requires m == Rows(world) && n == Cols(world)
    ensures |AllCells(world)| == m * n
  {
    BlockCount(m, n);
    assert AllCells(world) == Block(m, n);
  }

  lemma {:induction false} BlockCount(m: nat, n: nat)
    ensures |Block(m, n)| == m * n
  {
    if m > 0 {
      var top, last := Block(m - 1, n), RowCells(m - 1, n);
      forall p | p in Block(m, n) ensures p in top + last {
        if p.row < m - 1 {
          assert p in top;
        } else {
          assert p in last;
        }
      }
      forall p | p in top + last ensures p in Block(m, n) {
      }
      assert Block(m, n) == top + last;
      assert top !! last;
      assert |top + last| == |top| + |last|;
      BlockCount(m - 1, n);
      RowCellsCount(m - 1, n);
      assert (m - 1) * n + n == m * n;
    }
  }
}

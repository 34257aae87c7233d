/** The life-like rule engine: one synchronous generation of a two-state
    cellular automaton on an X by Y torus. A cell's neighbour count is the
    sum of its eight Moore neighbours, each coordinate wrapped around its
    axis; a count in the birth list sets the cell to 1, else a count in the
    survival list keeps the cell as it was, else the cell becomes 0. Cells
    are addressed in the flat row-major order of the two-dimensional space,
    cell (x, y) at y * X + x. */
module Life {
  import opened Grid

  /** A coordinate moved by `offset` and wrapped around an axis of `n` cells,
      computed as `(c + offset + n) % n`. The dividend is never negative, so
      Dafny's remainder agrees with the truncating one of the source. */
  function Wrap(c: nat, offset: int, n: nat): (r: nat)
    requires c < n && -1 <= offset <= 1
    ensures r < n
  {
    (c + offset + n) % n
  }

  lemma ModOfRange(a: nat, n: nat, q: nat)
    requires n > 0 && q * n <= a < q * n + n
    ensures a % n == a - q * n
  {
    var d := a / n;
    assert a == d * n + a % n;
    if d < q {
      MulMonotone(d + 1, q, n);
    } else if d > q {
      MulMonotone(q + 1, d, n);
    }
  }

  /** Wrapping moves a coordinate by its offset, except that -1 from the
      first cell lands on the last one and +1 from the last cell lands on
      the first one. */
  lemma WrapCases(c: nat, offset: int, n: nat)
    requires c < n && -1 <= offset <= 1
    ensures Wrap(c, offset, n)
         == if c + offset < 0 then n - 1
            else if c + offset >= n then 0
            else c + offset
  {
    var a := c + offset + n;
    if c + offset < 0 {
      ModOfRange(a, n, 0);
    } else if c + offset >= n {
      ModOfRange(a, n, 2);
    } else {
      ModOfRange(a, n, 1);
    }
  }

  /** The flat index of the neighbour of (x, y) at offset (i, j): both
      coordinates wrapped, then `y * X + x`. It always lies in the X * Y
      cells of the grid, so every neighbour read is in bounds. */
  function NeighbourIndex(X: nat, Y: nat, x: nat, y: nat, i: int, j: int): (k: nat)
    requires x < X && y < Y && -1 <= i <= 1 && -1 <= j <= 1
    ensures k < X * Y
  {
    FlatIndexBelow(X, Y, Wrap(x, i, X), Wrap(y, j, Y));
    Wrap(y, j, Y) * X + Wrap(x, i, X)
  }

  /** The value of the neighbour of (x, y) at offset (i, j). */
  function Neighbour(input: seq<nat>, X: nat, Y: nat, x: nat, y: nat, i: int, j: int): nat
    requires x < X && y < Y && |input| >= X * Y && -1 <= i <= 1 && -1 <= j <= 1
  {
    input[NeighbourIndex(X, Y, x, y, i, j)]
  }

  /** The neighbour count of (x, y): the sum of the values of its eight
      Moore neighbours. A cell reached by several offsets (on an axis of one
      or two cells) counts once per offset. */
  function NeighbourCount(input: seq<nat>, X: nat, Y: nat, x: nat, y: nat): nat
    requires x < X && y < Y && |input| >= X * Y
  {
    Neighbour(input, X, Y, x, y, -1, -1) + Neighbour(input, X, Y, x, y, -1, 0)
      + Neighbour(input, X, Y, x, y, -1, 1) + Neighbour(input, X, Y, x, y, 0, -1)
      + Neighbour(input, X, Y, x, y, 0, 1) + Neighbour(input, X, Y, x, y, 1, -1)
      + Neighbour(input, X, Y, x, y, 1, 0) + Neighbour(input, X, Y, x, y, 1, 1)
  }

  /** What the inner loop of the count has added for offsets (i, j) with
      j below `jEnd`; the centre (0, 0) adds nothing. */
  ghost function ColumnSum(input: seq<nat>, X: nat, Y: nat, x: nat, y: nat, i: int, jEnd: int): nat
    requires x < X && y < Y && |input| >= X * Y && -1 <= i <= 1 && -1 <= jEnd <= 2
    decreases jEnd + 1
  {
    if jEnd == -1 then 0
    else
      ColumnSum(input, X, Y, x, y, i, jEnd - 1)
        + (if i == 0 && jEnd - 1 == 0 then 0 else Neighbour(input, X, Y, x, y, i, jEnd - 1))
  }

  /** What the outer loop of the count has added for offsets (i, j) with i
      below `iEnd`. */
  ghost function PartialCount(input: seq<nat>, X: nat, Y: nat, x: nat, y: nat, iEnd: int): nat
    requires x < X && y < Y && |input| >= X * Y && -1 <= iEnd <= 2
    decreases iEnd + 1
  {
    if iEnd == -1 then 0
    else PartialCount(input, X, Y, x, y, iEnd - 1) + ColumnSum(input, X, Y, x, y, iEnd - 1, 2)
  }

  /** Visiting i and j over -1, 0, 1 with the centre skipped adds up
      exactly the eight neighbours. */
  lemma PartialCountComplete(input: seq<nat>, X: nat, Y: nat, x: nat, y: nat)
    requires x < X && y < Y && |input| >= X * Y
    ensures PartialCount(input, X, Y, x, y, 2) == NeighbourCount(input, X, Y, x, y)
  {
    assert PartialCount(input, X, Y, x, y, 0) == ColumnSum(input, X, Y, x, y, -1, 2);
    assert PartialCount(input, X, Y, x, y, 1)
        == ColumnSum(input, X, Y, x, y, -1, 2) + ColumnSum(input, X, Y, x, y, 0, 2);
    assert ColumnSum(input, X, Y, x, y, 0, 1) == Neighbour(input, X, Y, x, y, 0, -1);
  }

  /** The inner block of `update`: the neighbour count of (x, y), summed
      over the nested `for i` / `for j` loops with the centre skipped. */
  method CountNeighbours(input: seq<nat>, X: nat, Y: nat, x: nat, y: nat) returns (n: nat)
    requires x < X && y < Y && |input| >= X * Y
    ensures n == NeighbourCount(input, X, Y, x, y)
  {
    n := 0;
    for i := -1 to 2
      invariant n == PartialCount(input, X, Y, x, y, i)
    {
      for j := -1 to 2
        invariant n == PartialCount(input, X, Y, x, y, i) + ColumnSum(input, X, Y, x, y, i, j)
      {
        if i == 0 && j == 0 {
          continue;
        }
        var nx := (x + i + X) % X;
        var ny := (y + j + Y) % Y;
        assert nx == Wrap(x, i, X) && ny == Wrap(y, j, Y);
        var cell := ny * X + nx;
        assert cell == NeighbourIndex(X, Y, x, y, i, j);
        n := n + input[cell];
      }
    }
    PartialCountComplete(input, X, Y, x, y);
  }

  /** A life-like rule on an X by Y torus
      (`LifeLikeCellularAutomaton<TwoDimensional<X, Y>>`); `new` is the
      constructor, taking the birth list and the survival list. */
  datatype LifeLike = LifeLike(X: nat, Y: nat, bList: seq<nat>, sList: seq<nat>) {

    /** `states`: the automaton's cells take two states. */
    function States(): (r: nat)
      ensures r == 2
    {
      2
    }

    /** The next value of cell (x, y): 1 when its neighbour count is in the
        birth list, else its current value when the count is in the
        survival list, else 0. */
    function NextCell(input: seq<nat>, x: nat, y: nat): nat
      requires x < X && y < Y && |input| >= X * Y
    {
      var n := NeighbourCount(input, X, Y, x, y);
      FlatIndexBelow(X, Y, x, y);
      if n in bList then 1
      else if n in sList then input[FlatIndex(X, x, y)]
      else 0
    }

    /** The next generation: every cell of the grid replaced by its next
        value, computed from `input` alone; cells past the X * Y of the grid
        are copied. */
    function Step(input: seq<nat>): (r: seq<nat>)
      requires |input| >= X * Y
      ensures |r| == |input|
      ensures forall k :: X * Y <= k < |input| ==> r[k] == input[k]
    {
      seq(|input|, k requires 0 <= k < |input| =>
        if k < X * Y then (FlatIndexOnto(X, Y, k); NextCell(input, k % X, k / X))
        else input[k])
    }

    /** Cell (x, y) of the next generation is the next value of (x, y). */
    lemma StepAt(input: seq<nat>, x: nat, y: nat)
      requires |input| >= X * Y && x < X && y < Y
      ensures FlatIndex(X, x, y) < |Step(input)|
      ensures Step(input)[FlatIndex(X, x, y)] == NextCell(input, x, y)
    {
      FlatIndexBelow(X, Y, x, y);
      FlatIndexDivMod(X, x, y);
    }

    /** The body of the inner loop of `update`: count the neighbours of
        (x, y) in the input and overwrite the output's cell (x, y) with 1, its
        input value or 0; no other cell of the output changes. */
    method UpdateCell(input: seq<nat>, out: array<nat>, x: nat, y: nat)
      requires x < X && y < Y && |input| >= X * Y && out.Length == |input|
      modifies out
      ensures FlatIndex(X, x, y) < out.Length
      ensures out[FlatIndex(X, x, y)] == NextCell(input, x, y)
      ensures forall k :: 0 <= k < out.Length && k != FlatIndex(X, x, y) ==> out[k] == old(out[k])
    {
      var neighbours := CountNeighbours(input, X, Y, x, y);
      FlatIndexBelow(X, Y, x, y);
      var cell := y * X + x;
      if neighbours in bList {
        out[cell] := 1;
      } else if neighbours in sList {
        out[cell] := input[cell];
      } else {
        out[cell] := 0;
      }
    }

    /** One pass of the inner loop of `update`, for column x: every cell
        (x, y) of the output gets its next value, every other cell of the
        output is left as it was. */
    method UpdateColumn(input: seq<nat>, out: array<nat>, x: nat)
      requires x < X && |input| >= X * Y && out.Length == |input|
      modifies out
      ensures forall y': nat :: y' < Y ==>
                FlatIndex(X, x, y') < out.Length && out[FlatIndex(X, x, y')] == NextCell(input, x, y')
      ensures forall x': nat, y': nat :: x' < X && x' != x && y' < Y ==>
                FlatIndex(X, x', y') < out.Length && out[FlatIndex(X, x', y')] == old(out[FlatIndex(X, x', y')])
      ensures forall k :: X * Y <= k < out.Length ==> out[k] == old(out[k])
    {
      FlatIndexBelowAll(X, Y);
      for y := 0 to Y
        invariant forall y': nat :: y' < y ==> out[FlatIndex(X, x, y')] == NextCell(input, x, y')
        invariant forall x': nat, y': nat :: x' < X && y' < Y && (x' != x || y <= y') ==>
                    out[FlatIndex(X, x', y')] == old(out[FlatIndex(X, x', y')])
        invariant forall k :: X * Y <= k < out.Length ==> out[k] == old(out[k])
      {
        UpdateCell(input, out, x, y);
        var cell := FlatIndex(X, x, y);
        forall x': nat, y': nat | x' < X && (x' != x || y' != y)
          ensures FlatIndex(X, x', y') != cell
        {
          if FlatIndex(X, x', y') == cell {
            FlatIndexInjective(X, x', y', x, y);
          }
        }
      }
    }

    /** `update`: copy the input, then for every x and, inside, every y
        overwrite the copy's cell (x, y) with its next value. Neighbours are
        read from the input only, so the result is the next generation of the
        input snapshot whatever the order of the writes. */
    method Update(input: seq<nat>) returns (output: seq<nat>)
      requires |input| >= X * Y
      ensures output == Step(input)
    {
      var out := new nat[|input|](k requires 0 <= k < |input| => input[k]);
      FlatIndexBelowAll(X, Y);
      for x := 0 to X
        invariant forall x': nat, y': nat :: x' < x && y' < Y ==>
                    out[FlatIndex(X, x', y')] == NextCell(input, x', y')
        invariant forall x': nat, y': nat :: x <= x' < X && y' < Y ==>
                    out[FlatIndex(X, x', y')] == input[FlatIndex(X, x', y')]
        invariant forall k :: X * Y <= k < |input| ==> out[k] == input[k]
      {
        UpdateColumn(input, out, x);
      }
      output := out[..];
      forall k | 0 <= k < X * Y
        ensures output[k] == Step(input)[k]
      {
        FlatIndexOnto(X, Y, k);
        var x', y' := k % X, k / X;
        assert out[FlatIndex(X, x', y')] == NextCell(input, x', y');
      }
    }
  }

  /** The torus closes up at the edges and corners: (0, 0) is the neighbour
      of (X - 1, Y - 1) at offset (1, 1), of (X - 1, 0) at offset (1, 0) and
      of (0, Y - 1) at offset (0, 1), and (X - 1, Y - 1) is the neighbour of
      (0, 0) at offset (-1, -1). */
  lemma TorusCorners(X: nat, Y: nat)
    requires X > 0 && Y > 0
    ensures NeighbourIndex(X, Y, X - 1, Y - 1, 1, 1) == 0
    ensures NeighbourIndex(X, Y, X - 1, 0, 1, 0) == 0
    ensures NeighbourIndex(X, Y, 0, Y - 1, 0, 1) == 0
    ensures NeighbourIndex(X, Y, 0, 0, -1, -1) == FlatIndex(X, X - 1, Y - 1)
  {
    WrapCases(X - 1, 1, X);
    WrapCases(Y - 1, 1, Y);
    WrapCases(0, 0, Y);
    WrapCases(0, 0, X);
    WrapCases(0, -1, X);
    WrapCases(0, -1, Y);
  }

  /** On a grid one cell wide every offset of x wraps back to x, so the
      cells above and below are counted three times each and the cell itself
      twice. */
  lemma NarrowGridCount(input: seq<nat>, Y: nat, y: nat)
    requires y < Y && |input| >= Y
    ensures NeighbourCount(input, 1, Y, 0, y)
         == 3 * input[Wrap(y, -1, Y)] + 2 * input[y] + 3 * input[Wrap(y, 1, Y)]
  {
    WrapCases(0, -1, 1);
    WrapCases(0, 0, 1);
    WrapCases(0, 1, 1);
    WrapCases(y, 0, Y);
  }

  /** On an axis of two or more cells a step of -1 or +1 always leaves the
      cell, so no neighbour of (x, y) is (x, y) itself. */
  lemma NeighbourNotSelf(X: nat, Y: nat, x: nat, y: nat, i: int, j: int)
    requires 2 <= X && 2 <= Y && x < X && y < Y
    requires -1 <= i <= 1 && -1 <= j <= 1 && !(i == 0 && j == 0)
    ensures NeighbourIndex(X, Y, x, y, i, j) != FlatIndex(X, x, y)
  {
    WrapCases(x, i, X);
    WrapCases(y, j, Y);
    if NeighbourIndex(X, Y, x, y, i, j) == FlatIndex(X, x, y) {
      FlatIndexInjective(X, Wrap(x, i, X), Wrap(y, j, Y), x, y);
    }
  }

  /** Two inputs that agree on the eight neighbours of (x, y) and on (x, y)
      itself give (x, y) the same next value: a cell's next value depends on
      that part of the input snapshot only. */
  lemma NextCellLocal(rule: LifeLike, a: seq<nat>, b: seq<nat>, x: nat, y: nat)
    requires x < rule.X && y < rule.Y && |a| >= rule.X * rule.Y && |b| >= rule.X * rule.Y
    requires forall i, j :: -1 <= i <= 1 && -1 <= j <= 1 ==>
               a[NeighbourIndex(rule.X, rule.Y, x, y, i, j)] == b[NeighbourIndex(rule.X, rule.Y, x, y, i, j)]
    ensures rule.NextCell(a, x, y) == rule.NextCell(b, x, y)
  {
    WrapCases(x, 0, rule.X);
    WrapCases(y, 0, rule.Y);
    assert NeighbourIndex(rule.X, rule.Y, x, y, 0, 0) == FlatIndex(rule.X, x, y);
  }

  /** The rule as it shows in the next generation: a count in the birth list
      makes the cell 1 whatever it was; else a count in the survival list
      keeps the cell as it was, so a dead cell stays dead; else the cell
      becomes 0. */
  lemma StepRule(rule: LifeLike, input: seq<nat>, x: nat, y: nat)
    requires |input| >= rule.X * rule.Y && x < rule.X && y < rule.Y
    ensures FlatIndex(rule.X, x, y) < |input|
    ensures var n, k := NeighbourCount(input, rule.X, rule.Y, x, y), FlatIndex(rule.X, x, y);
            rule.Step(input)[k]
            == if n in rule.bList then 1 else if n in rule.sList then input[k] else 0
  {
    FlatIndexBelow(rule.X, rule.Y, x, y);
    rule.StepAt(input, x, y);
  }

  /** A cell that is dead in the input is alive in the next generation only
      by birth: survival never creates life. */
  lemma SurvivalNeverCreates(rule: LifeLike, input: seq<nat>, x: nat, y: nat)
    requires |input| >= rule.X * rule.Y && x < rule.X && y < rule.Y
    requires FlatIndex(rule.X, x, y) < |input| && input[FlatIndex(rule.X, x, y)] == 0
    requires rule.Step(input)[FlatIndex(rule.X, x, y)] != 0
    ensures NeighbourCount(input, rule.X, rule.Y, x, y) in rule.bList
  {
    StepRule(rule, input, x, y);
  }

  /** The next generation of a grid of dead (0) and live (1) cells is again
      such a grid. */
  lemma StepKeepsBinary(rule: LifeLike, input: seq<nat>)
    requires |input| >= rule.X * rule.Y
    requires forall k :: 0 <= k < |input| ==> input[k] <= 1
    ensures forall k :: 0 <= k < |input| ==> rule.Step(input)[k] <= 1
  {
    forall k | 0 <= k < rule.X * rule.Y
      ensures rule.Step(input)[k] <= 1
    {
      FlatIndexOnto(rule.X, rule.Y, k);
      StepRule(rule, input, k % rule.X, k / rule.X);
    }
  }

  /** Unless a count of 0 gives birth, a grid with no live cell stays as it
      is: every count is 0, and the survival case keeps each 0. */
  lemma EmptyGridStaysEmpty(rule: LifeLike, input: seq<nat>)
    requires |input| >= rule.X * rule.Y && 0 !in rule.bList
    requires forall k :: 0 <= k < |input| ==> input[k] == 0
    ensures rule.Step(input) == input
  {
    var next := rule.Step(input);
    forall k | 0 <= k < rule.X * rule.Y
      ensures next[k] == 0
    {
      FlatIndexOnto(rule.X, rule.Y, k);
      var x, y := k % rule.X, k / rule.X;
      DeadNeighbourhood(input, rule.X, rule.Y, x, y);
      StepRule(rule, input, x, y);
    }
    assert forall k :: 0 <= k < |input| ==> next[k] == input[k];
  }

  /** With every cell dead, every neighbour count is 0. */
  lemma DeadNeighbourhood(input: seq<nat>, X: nat, Y: nat, x: nat, y: nat)
    requires x < X && y < Y && |input| >= X * Y
    requires forall k :: 0 <= k < |input| ==> input[k] == 0
    ensures NeighbourCount(input, X, Y, x, y) == 0
  {
  }

  /** Conway's Game of Life: birth on 3 neighbours, survival on 2 or 3. */
  function Conway(X: nat, Y: nat): LifeLike
  {
    LifeLike(X, Y, [3], [2, 3])
  }

  /** Under Conway's rule on a torus of at least 2 by 2 cells, a cell with no
      live cell anywhere else dies: its neighbour count is 0, which is in
      neither list. */
  lemma IsolatedCellDies(X: nat, Y: nat, input: seq<nat>, x: nat, y: nat)
    requires 2 <= X && 2 <= Y && x < X && y < Y && |input| >= X * Y
    requires forall k :: 0 <= k < |input| && k != FlatIndex(X, x, y) ==> input[k] == 0
    ensures FlatIndex(X, x, y) < |input| && Conway(X, Y).Step(input)[FlatIndex(X, x, y)] == 0
  {
    forall i, j | -1 <= i <= 1 && -1 <= j <= 1 && !(i == 0 && j == 0)
      ensures input[NeighbourIndex(X, Y, x, y, i, j)] == 0
    {
      NeighbourNotSelf(X, Y, x, y, i, j);
    }
    assert NeighbourCount(input, X, Y, x, y) == 0;
    StepRule(Conway(X, Y), input, x, y);
  }
}

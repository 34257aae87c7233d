/** The discrete spaces of the library: a line of X cells, a grid of Y rows
    of X cells and a volume of Z planes of Y rows of X cells. Each keeps its
    cells in nested fixed-length arrays and exchanges them with its clients
    only as one flat sequence, row-major with the outermost array first.
    The extents are fixed when the space is made. */
module Space {
  import opened Grid

  /** Which of the three shapes a space has. */
  datatype Dimension = One | Two | Three {
    /** The number of axes, the `D` of `DiscreteSpace<D>`. */
    function Axes(): nat
    {
      match this
      case One => 1
      case Two => 2
      case Three => 3
    }
  }

  /** The number of cells of a space with the given extents. */
  function Product(extents: seq<nat>): nat
  {
    if extents == [] then 1 else extents[0] * Product(extents[1..])
  }

  /** A line of `X` cells (`OneDimensional<X>`, stored as `[u32; X]`). */
  class OneDimensional {
    const X: nat
    var space: seq<nat>

    ghost predicate Valid()
      reads this
    {
      |space| == X
    }

    /** `new`: every cell is zero. */
    constructor (X: nat)
      ensures Valid() && this.X == X
      ensures forall i :: 0 <= i < X ==> space[i] == 0
    {
      this.X := X;
      space := seq(X, _ => 0);
    }

    /** `new_with_state`: the given cells, as they are. */
    constructor WithState(X: nat, state: seq<nat>)
      requires |state| == X
      ensures Valid() && this.X == X && space == state
    {
      this.X := X;
      space := state;
    }

    function Dim(): Dimension
    {
      One
    }

    /** `size`: the length of the stored array, which is X; as many cells as
        `ReadState` gives. */
    function Size(): (r: seq<nat>)
      reads this
      requires Valid()
      ensures |r| == Dim().Axes() && r == [X]
      ensures Product(r) == |ReadState()|
    {
      [|space|]
    }

    /** `read_state`: a copy of the stored array. */
    function ReadState(): (r: seq<nat>)
      reads this
      requires Valid()
      ensures |r| == X
      ensures forall i :: 0 <= i < X ==> r[i] == space[i]
    {
      space
    }

    /** `write_state`: the array conversion succeeds only on exactly X cells
        (the source panics otherwise); the stored array becomes `state`. */
    method WriteState(state: seq<nat>)
      requires Valid() && |state| == X
      modifies this
      ensures Valid() && space == state
      ensures ReadState() == state
    {
      var converted := TryIntoArray(state, X);
      space := converted.value;
    }

    /** `update_state`: read the flat state, transform it, write it back; the
        write fails unless the transformation keeps the length. */
    method UpdateState(updater: seq<nat> -> seq<nat>)
      requires Valid() && |updater(ReadState())| == X
      modifies this
      ensures Valid() && ReadState() == updater(old(ReadState()))
    {
      var s := ReadState();
      s := updater(s);
      WriteState(s);
    }
  }

  /** A grid of `Y` rows of `X` cells (`TwoDimensional<X, Y>`, stored as
      `[[u32; X]; Y]`). */
  class TwoDimensional {
    const X: nat
    const Y: nat
    var space: seq<seq<nat>>

    ghost predicate Valid()
      reads this
    {
      IsGrid(space, X, Y)
    }

    /** `new`: every cell is zero. */
    constructor (X: nat, Y: nat)
      ensures Valid() && this.X == X && this.Y == Y
      ensures forall y, x :: 0 <= y < Y && 0 <= x < X ==> space[y][x] == 0
    {
      this.X, this.Y := X, Y;
      space := seq(Y, _ => seq(X, _ => 0));
    }

    /** `new_with_state`: the given rows, as they are. */
    constructor WithState(X: nat, Y: nat, state: seq<seq<nat>>)
      requires IsGrid(state, X, Y)
      ensures Valid() && this.X == X && this.Y == Y && space == state
    {
      this.X, this.Y := X, Y;
      space := state;
    }

    function Dim(): Dimension
    {
      Two
    }

    /** `size`: the length of the outer array, then that of its first row,
        that is [Y, X] (outermost first, not [X, Y]); it needs a first row.
        Their product is the number of cells `ReadState` gives. */
    function Size(): (r: seq<nat>)
      reads this
      requires Valid() && Y > 0
      ensures |r| == Dim().Axes() && r == [Y, X]
      ensures Product(r) == |ReadState()|
    {
      assert [Y, X][1..] == [X] && [X][1..] == [];
      assert Product([X]) == X && Product([Y, X]) == Y * X;
      [|space|, |space[0]|]
    }

    /** `read_state`: the rows concatenated; cell (x, y) lands at flat index
        y * X + x. */
    function ReadState(): (r: seq<nat>)
      reads this
      requires Valid()
      ensures |r| == X * Y
      ensures forall x: nat, y: nat :: x < X && y < Y ==>
                FlatIndex(X, x, y) < |r| && r[FlatIndex(X, x, y)] == space[y][x]
    {
      FlattenIndexed(space, X, Y);
      Flatten(space)
    }

    /** `write_state`: cut `state` into rows of X and convert them to the
        grid; `chunks(X)` panics when X is 0 and the conversions panic unless
        there are exactly X * Y cells. The grid is replaced only once the
        whole conversion has succeeded. */
    method WriteState(state: seq<nat>)
      requires Valid() && X > 0 && |state| == X * Y
      modifies this
      ensures Valid() && ReadState() == state
      ensures forall x: nat, y: nat :: x < X && y < Y ==>
                FlatIndex(X, x, y) < |state| && space[y][x] == state[FlatIndex(X, x, y)]
    {
      ReshapeSucceedsIff(state, X, Y);
      var converted := Reshape(state, X, Y);
      space := converted.value;
      FlattenIndexed(space, X, Y);
    }

    /** `update_state`: read the flat state, transform it, write it back; the
        write fails unless the transformation keeps X * Y cells. */
    method UpdateState(updater: seq<nat> -> seq<nat>)
      requires Valid() && X > 0 && |updater(ReadState())| == X * Y
      modifies this
      ensures Valid() && ReadState() == updater(old(ReadState()))
    {
      var s := ReadState();
      s := updater(s);
      WriteState(s);
    }
  }

  /** A volume of `Z` planes of `Y` rows of `X` cells
      (`ThreeDimensional<X, Y, Z>`, stored as `[[[u32; X]; Y]; Z]`). */
  class ThreeDimensional {
    const X: nat
    const Y: nat
    const Z: nat
    var space: seq<seq<seq<nat>>>

    ghost predicate Valid()
      reads this
    {
      IsVolume(space, X, Y, Z)
    }

    /** The struct built from the given planes, as they are. */
    constructor WithState(X: nat, Y: nat, Z: nat, state: seq<seq<seq<nat>>>)
      requires IsVolume(state, X, Y, Z)
      ensures Valid() && this.X == X && this.Y == Y && this.Z == Z && space == state
    {
      this.X, this.Y, this.Z := X, Y, Z;
      space := state;
    }

    function Dim(): Dimension
    {
      Three
    }

    /** `size`: the lengths of the outer array, of its first plane and of
        that plane's first row, that is [Z, Y, X]; it needs a first plane
        with a first row. Their product is the number of cells `ReadState`
        gives. */
    function Size(): (r: seq<nat>)
      reads this
      requires Valid() && Z > 0 && Y > 0
      ensures |r| == Dim().Axes() && r == [Z, Y, X]
      ensures Product(r) == |ReadState()|
    {
      assert [Z, Y, X][1..] == [Y, X] && [Y, X][1..] == [X] && [X][1..] == [];
      assert Product([X]) == X && Product([Y, X]) == Y * X;
      assert Product([Z, Y, X]) == Z * (Y * X) == X * Y * Z;
      [|space|, |space[0]|, |space[0][0]|]
    }

    /** `read_state`: the planes, each flattened row by row, concatenated;
        cell (x, y, z) lands at flat index z * X * Y + y * X + x. */
    function ReadState(): (r: seq<nat>)
      reads this
      requires Valid()
      ensures |r| == X * Y * Z
      ensures forall x: nat, y: nat, z: nat :: x < X && y < Y && z < Z ==>
                FlatIndex3(X, Y, x, y, z) < |r| && r[FlatIndex3(X, Y, x, y, z)] == space[z][y][x]
    {
      FlattenVolumeIndexed(space, X, Y, Z);
      FlattenVolume(space)
    }

    /** `write_state`: cut `state` into planes of X * Y cells and each plane
        into rows of X; `chunks` panics when X * Y is 0 and the conversions
        panic unless there are exactly X * Y * Z cells. The volume is replaced
        only once the whole conversion has succeeded. */
    method WriteState(state: seq<nat>)
      requires Valid() && X > 0 && Y > 0 && |state| == X * Y * Z
      modifies this
      ensures Valid() && ReadState() == state
      ensures forall x: nat, y: nat, z: nat :: x < X && y < Y && z < Z ==>
                FlatIndex3(X, Y, x, y, z) < |state|
                && space[z][y][x] == state[FlatIndex3(X, Y, x, y, z)]
    {
      ReshapeVolumeSucceedsIff(state, X, Y, Z);
      var converted := ReshapeVolume(state, X, Y, Z);
      space := converted.value;
      FlattenVolumeIndexed(space, X, Y, Z);
    }

    /** `update_state`: read the flat state, transform it, write it back; the
        write fails unless the transformation keeps X * Y * Z cells. */
    method UpdateState(updater: seq<nat> -> seq<nat>)
      requires Valid() && X > 0 && Y > 0 && |updater(ReadState())| == X * Y * Z
      modifies this
      ensures Valid() && ReadState() == updater(old(ReadState()))
    {
      var s := ReadState();
      s := updater(s);
      WriteState(s);
    }
  }
}

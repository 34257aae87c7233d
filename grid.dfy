/** Flat (row-major) views of one-, two- and three-dimensional grids of cell
    values, and the reshapes by which a flat sequence is cut back into rows
    and planes. These are the pure iterator pipelines behind `read_state`
    and `write_state` of the spaces. */
module Grid {

  datatype Option<+T> = None | Some(value: T)

  /** The position of cell (x, y) in a row-major flat sequence whose rows
      hold `width` cells: all of row 0 first, then row 1, and so on. */
  function FlatIndex(width: nat, x: nat, y: nat): nat
  {
    y * width + x
  }

  /** The position of cell (x, y, z) in a flat sequence of `depth` planes of
      `height` rows of `width` cells, outermost axis first. */
  function FlatIndex3(width: nat, height: nat, x: nat, y: nat, z: nat): nat
  {
    z * width * height + y * width + x
  }

  lemma MulMonotone(a: nat, b: nat, c: nat)
    requires a <= b
    ensures a * c <= b * c
  {
    assert b * c - a * c == (b - a) * c;
  }

  /** A cell inside a `width` by `height` grid has its flat index inside the
      flat sequence of `width * height` cells. */
  lemma FlatIndexBelow(width: nat, height: nat, x: nat, y: nat)
    requires x < width && y < height
    ensures FlatIndex(width, x, y) < width * height
  {
    MulMonotone(y + 1, height, width);
    assert (y + 1) * width == y * width + width;
  }

  /** Distinct cells of a grid have distinct flat indices. */
  lemma FlatIndexInjective(width: nat, x1: nat, y1: nat, x2: nat, y2: nat)
    requires x1 < width && x2 < width
    requires FlatIndex(width, x1, y1) == FlatIndex(width, x2, y2)
    ensures x1 == x2 && y1 == y2
  {
    assert (y1 + 1) * width == y1 * width + width;
    assert (y2 + 1) * width == y2 * width + width;
    if y1 < y2 {
      MulMonotone(y1 + 1, y2, width);
    } else if y2 < y1 {
      MulMonotone(y2 + 1, y1, width);
    }
  }

  /** Every position of a flat sequence of `width * height` cells is the flat
      index of exactly the cell (k % width, k / width). */
  lemma FlatIndexOnto(width: nat, height: nat, k: nat)
    requires k < width * height
    ensures width > 0
    ensures k % width < width && k / width < height
    ensures FlatIndex(width, k % width, k / width) == k
  {
    if width > 0 && k / width >= height {
      MulMonotone(height, k / width, width);
    }
  }

  /** Position (x, y) always maps back from its flat index. */
  lemma FlatIndexDivMod(width: nat, x: nat, y: nat)
    requires x < width
    ensures FlatIndex(width, x, y) % width == x && FlatIndex(width, x, y) / width == y
  {
    var k := FlatIndex(width, x, y);
    FlatIndexBelow(width, y + 1, x, y);
    FlatIndexOnto(width, y + 1, k);
    FlatIndexInjective(width, k % width, k / width, x, y);
  }

  /** Every cell of a `width` by `height` grid has its flat index inside the grid. */
  lemma FlatIndexBelowAll(width: nat, height: nat)
    ensures forall x: nat, y: nat :: x < width && y < height ==> FlatIndex(width, x, y) < width * height
  {
    forall x: nat, y: nat | x < width && y < height
      ensures FlatIndex(width, x, y) < width * height
    {
      FlatIndexBelow(width, height, x, y);
    }
  }

  /** In three dimensions the flat index is the two-dimensional one applied
      twice: to (x, y) inside a plane, and to that and z with planes of
      `width * height` cells. */
  lemma FlatIndex3Nested(width: nat, height: nat, x: nat, y: nat, z: nat)
    ensures FlatIndex3(width, height, x, y, z)
         == FlatIndex(width * height, FlatIndex(width, x, y), z)
  {
    assert z * width * height == z * (width * height);
  }

  /** Every row has `width` cells. */
  predicate Rectangular(rows: seq<seq<nat>>, width: nat)
  {
    forall y :: 0 <= y < |rows| ==> |rows[y]| == width
  }

  /** `height` rows of `width` cells: the shape of `[[u32; X]; Y]`. */
  predicate IsGrid(rows: seq<seq<nat>>, width: nat, height: nat)
  {
    |rows| == height && Rectangular(rows, width)
  }

  /** `depth` planes of `height` rows of `width` cells: the shape of
      `[[[u32; X]; Y]; Z]`. */
  predicate IsVolume(planes: seq<seq<seq<nat>>>, width: nat, height: nat, depth: nat)
  {
    |planes| == depth && forall z :: 0 <= z < |planes| ==> IsGrid(planes[z], width, height)
  }

  /** The rows concatenated in order (`flat_map` over the rows). */
  function Flatten(rows: seq<seq<nat>>): seq<nat>
  {
    if rows == [] then [] else rows[0] + Flatten(rows[1..])
  }

  /** The planes, each flattened, concatenated in order (the nested
      `flat_map` of the three-dimensional `read_state`). */
  function FlattenVolume(planes: seq<seq<seq<nat>>>): seq<nat>
  {
    Flatten(FlattenEach(planes))
  }

  function FlattenEach(planes: seq<seq<seq<nat>>>): seq<seq<nat>>
  {
    seq(|planes|, z requires 0 <= z < |planes| => Flatten(planes[z]))
  }

  lemma {:induction false} FlattenLength(rows: seq<seq<nat>>, width: nat)
    requires Rectangular(rows, width)
    ensures |Flatten(rows)| == |rows| * width
  {
    if rows != [] {
      FlattenLength(rows[1..], width);
    }
  }

  lemma {:induction false} FlattenAt(rows: seq<seq<nat>>, width: nat, x: nat, y: nat)
    requires Rectangular(rows, width) && x < width && y < |rows|
    ensures FlatIndex(width, x, y) < |Flatten(rows)|
    ensures Flatten(rows)[FlatIndex(width, x, y)] == rows[y][x]
  {
    FlattenLength(rows, width);
    FlatIndexBelow(width, |rows|, x, y);
    if y > 0 {
      FlattenAt(rows[1..], width, x, y - 1);
      assert FlatIndex(width, x, y) == width + FlatIndex(width, x, y - 1);
    }
  }

  /** The flattening of a `width` by `height` grid has `width * height`
      cells, and cell (x, y) sits at flat index `y * width + x`. */
  lemma {:induction false} FlattenIndexed(rows: seq<seq<nat>>, width: nat, height: nat)
    requires IsGrid(rows, width, height)
    ensures |Flatten(rows)| == width * height
    ensures forall x: nat, y: nat :: x < width && y < height ==>
              FlatIndex(width, x, y) < |Flatten(rows)|
              && Flatten(rows)[FlatIndex(width, x, y)] == rows[y][x]
  {
    FlattenLength(rows, width);
    forall x: nat, y: nat | x < width && y < height
      ensures FlatIndex(width, x, y) < |Flatten(rows)|
              && Flatten(rows)[FlatIndex(width, x, y)] == rows[y][x]
    {
      FlattenAt(rows, width, x, y);
    }
  }

  /** The flattening of a volume has `width * height * depth` cells, and
      cell (x, y, z) sits at flat index `z * width * height + y * width + x`. */
  lemma {:induction false} FlattenVolumeIndexed(planes: seq<seq<seq<nat>>>, width: nat, height: nat, depth: nat)
    requires IsVolume(planes, width, height, depth)
    ensures |FlattenVolume(planes)| == width * height * depth
    ensures forall x: nat, y: nat, z: nat :: x < width && y < height && z < depth ==>
              FlatIndex3(width, height, x, y, z) < |FlattenVolume(planes)|
              && FlattenVolume(planes)[FlatIndex3(width, height, x, y, z)] == planes[z][y][x]
  {
    var each := FlattenEach(planes);
    forall z | 0 <= z < depth
      ensures |each[z]| == width * height
    {
      FlattenLength(planes[z], width);
    }
    FlattenIndexed(each, width * height, depth);
    forall x: nat, y: nat, z: nat | x < width && y < height && z < depth
      ensures FlatIndex3(width, height, x, y, z) < |FlattenVolume(planes)|
              && FlattenVolume(planes)[FlatIndex3(width, height, x, y, z)] == planes[z][y][x]
    {
      FlatIndex3Nested(width, height, x, y, z);
      FlatIndexBelow(width, height, x, y);
      FlattenAt(planes[z], width, x, y);
    }
  }

  /** The consecutive pieces of `s` of length `n`, the last of them shorter
      when `n` does not divide `|s|` (slice `chunks(n)`, which refuses n = 0). */
  function Chunks(s: seq<nat>, n: nat): seq<seq<nat>>
    requires n > 0
    decreases |s|
  {
    if s == [] then []
    else if |s| <= n then [s]
    else [s[..n]] + Chunks(s[n..], n)
  }

  /** Cutting into chunks loses and reorders nothing. */
  lemma {:induction false} ChunksFlatten(s: seq<nat>, n: nat)
    requires n > 0
    ensures Flatten(Chunks(s, n)) == s
    decreases |s|
  {
    if |s| > n {
      ChunksFlatten(s[n..], n);
      assert s == s[..n] + s[n..];
    }
  }

  /** A sequence of exactly m times n cells falls into m full chunks. */
  lemma {:induction false} ChunksOfMultiple(s: seq<nat>, n: nat, m: nat)
    requires n > 0 && |s| == m * n
    ensures Rectangular(Chunks(s, n), n) && |Chunks(s, n)| == m
  {
    if m > 1 {
      assert |s[n..]| == (m - 1) * n;
      ChunksOfMultiple(s[n..], n, m - 1);
    } else if m == 1 {
      assert |s| == n;
    }
  }

  /** Cutting a flattened grid into rows of its width gives the rows back. */
  lemma {:induction false} ChunksOfFlatten(rows: seq<seq<nat>>, n: nat)
    requires n > 0 && Rectangular(rows, n)
    ensures Chunks(Flatten(rows), n) == rows
  {
    if rows != [] {
      ChunksOfFlatten(rows[1..], n);
      FlattenLength(rows[1..], n);
      var s := Flatten(rows);
      assert s == rows[0] + Flatten(rows[1..]);
      if |rows| == 1 {
        assert Flatten(rows[1..]) == [];
        assert s == rows[0];
        assert rows == [rows[0]];
      } else {
        assert |Flatten(rows[1..])| > 0;
        assert s[..n] == rows[0] && s[n..] == Flatten(rows[1..]);
        assert rows == [rows[0]] + rows[1..];
      }
    }
  }

  /** The conversion of a slice into a fixed-length array (`try_into`): it
      succeeds exactly when the lengths agree. */
  function TryIntoArray<T>(s: seq<T>, n: nat): Option<seq<T>>
  {
    if |s| == n then Some(s) else None
  }

  /** Converting every chunk into an array of `n` cells and collecting them
      (`map(|r| r.try_into().unwrap()).collect()`): None when some chunk has
      the wrong length. */
  function CollectArrays(chunks: seq<seq<nat>>, n: nat): Option<seq<seq<nat>>>
  {
    if Rectangular(chunks, n) then Some(chunks) else None
  }

  /** The conversion inside the two-dimensional `write_state`: chunk `s` into
      rows of `width`, make each row an array, and make the rows an array of
      `height` rows. None stands for a panicking `unwrap`. */
  function Reshape(s: seq<nat>, width: nat, height: nat): Option<seq<seq<nat>>>
    requires width > 0
  {
    match CollectArrays(Chunks(s, width), width)
    case None => None
    case Some(rows) => TryIntoArray(rows, height)
  }

  /** The two-dimensional conversion succeeds exactly on sequences of
      `width * height` cells, and then yields a grid of that shape whose
      flattening is the input. */
  lemma ReshapeSucceedsIff(s: seq<nat>, width: nat, height: nat)
    requires width > 0
    ensures Reshape(s, width, height).Some? <==> |s| == width * height
    ensures Reshape(s, width, height).Some? ==>
              IsGrid(Reshape(s, width, height).value, width, height)
              && Flatten(Reshape(s, width, height).value) == s
  {
    var chunks := Chunks(s, width);
    ChunksFlatten(s, width);
    if Rectangular(chunks, width) {
      FlattenLength(chunks, width);
    }
    if |s| == width * height {
      ChunksOfMultiple(s, width, height);
    }
  }

  /** Reading a grid flat and converting back gives the grid. */
  lemma ReshapeOfFlatten(rows: seq<seq<nat>>, width: nat, height: nat)
    requires width > 0 && IsGrid(rows, width, height)
    ensures Reshape(Flatten(rows), width, height) == Some(rows)
  {
    ChunksOfFlatten(rows, width);
  }

  /** Converting every plane with `Reshape` and collecting them: None when
      some plane fails. */
  function ReshapeEach(planes: seq<seq<nat>>, width: nat, height: nat): Option<seq<seq<seq<nat>>>>
    requires width > 0
  {
    if forall z :: 0 <= z < |planes| ==> Reshape(planes[z], width, height).Some?
    then Some(seq(|planes|, z requires 0 <= z < |planes| => Reshape(planes[z], width, height).value))
    else None
  }

  /** The conversion inside the three-dimensional `write_state`: chunk `s`
      into planes of `width * height` cells, convert each plane as the
      two-dimensional one does, and make the planes an array of `depth`. */
  function ReshapeVolume(s: seq<nat>, width: nat, height: nat, depth: nat): Option<seq<seq<seq<nat>>>>
    requires width > 0 && height > 0
  {
    match ReshapeEach(Chunks(s, width * height), width, height)
    case None => None
    case Some(planes) => TryIntoArray(planes, depth)
  }

  /** The three-dimensional conversion succeeds exactly on sequences of
      `width * height * depth` cells, and then yields a volume of that shape
      whose flattening is the input. */
  lemma ReshapeVolumeSucceedsIff(s: seq<nat>, width: nat, height: nat, depth: nat)
    requires width > 0 && height > 0
    ensures ReshapeVolume(s, width, height, depth).Some? <==> |s| == width * height * depth
    ensures ReshapeVolume(s, width, height, depth).Some? ==>
              IsVolume(ReshapeVolume(s, width, height, depth).value, width, height, depth)
              && FlattenVolume(ReshapeVolume(s, width, height, depth).value) == s
  {
    var area := width * height;
    var chunks := Chunks(s, area);
    ChunksFlatten(s, area);
    forall z | 0 <= z < |chunks|
      ensures Reshape(chunks[z], width, height).Some? <==> |chunks[z]| == area
    {
      ReshapeSucceedsIff(chunks[z], width, height);
    }
    if ReshapeEach(chunks, width, height).Some? {
      var planes := ReshapeEach(chunks, width, height).value;
      assert Rectangular(chunks, area);
      FlattenLength(chunks, area);
      forall z | 0 <= z < |planes|
        ensures IsGrid(planes[z], width, height) && Flatten(planes[z]) == chunks[z]
      {
        ReshapeSucceedsIff(chunks[z], width, height);
      }
      assert FlattenEach(planes) == chunks;
      assert width * height * depth == area * depth;
    }
    if |s| == width * height * depth {
      assert |s| == depth * area;
      ChunksOfMultiple(s, area, depth);
    }
  }

  /** Reading a volume flat and converting back gives the volume. */
  lemma ReshapeVolumeOfFlatten(planes: seq<seq<seq<nat>>>, width: nat, height: nat, depth: nat)
    requires width > 0 && height > 0 && IsVolume(planes, width, height, depth)
    ensures ReshapeVolume(FlattenVolume(planes), width, height, depth) == Some(planes)
  {
    var area := width * height;
    var each := FlattenEach(planes);
    forall z | 0 <= z < |each|
      ensures |each[z]| == area && Reshape(each[z], width, height) == Some(planes[z])
    {
      FlattenLength(planes[z], width);
      ReshapeOfFlatten(planes[z], width, height);
    }
    ChunksOfFlatten(each, area);
    assert ReshapeEach(each, width, height).value == planes;
  }
}

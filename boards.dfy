/** Board (src/game/board.cc) and its legacy copy Board3D (src/logic.h): the occupancy grid
    as a class owning a flat array of 32-bit cells. Every operation is proved against the
    board value of grids.dfy: Model() is the array read as a Grid. The array is indexed with
    the source's own formula, SourceIndex; Valid() demands square layers, where that formula
    is the row-major index. */
module Boards {
  import opened Vectors
  import opened Grids

  class Board {
    const width: nat
    const depth: nat
    const height: nat
    const cells: array<bv32>

    ghost predicate Valid()
      reads this
    {
      width == depth && cells.Length == width * depth * height
    }

    /** The board's current value. */
    function Model(): (g: Grid)
      reads this, cells
      ensures g.width == width && g.depth == depth && g.height == height
      ensures Valid() ==> g.WellFormed()
    {
      Grid(width, depth, height, cells[..])
    }

    /** A board of width*depth*height empty cells. */
    constructor (width: nat, depth: nat, height: nat)
      requires width == depth
      ensures Valid() && fresh(cells)
      ensures Model() == Grid(width, depth, height, Zeros(width * depth * height))
    {
      this.width, this.depth, this.height := width, depth, height;
      cells := new bv32[width * depth * height](_ => 0);
    }

    /** Board::IsEmpty: the cell at the position holds 0. */
    predicate IsEmpty(p: Vec3)
      reads this, cells
      requires Valid() && Model().Contains(p)
      ensures IsEmpty(p) == Model().IsEmpty(p)
    {
      Model().IndexIsSourceIndex(p);
      Model().IndexInRange(p);
      cells[SourceIndex(width, depth, p)] == 0
    }

    /** Board::Fill: writes v into the position's cell. */
    method Fill(p: Vec3, v: bv32)
      requires Valid() && Model().Contains(p)
      modifies cells
      ensures Model() == old(Model()).Filled(p, v)
    {
      Model().IndexIsSourceIndex(p);
      Model().IndexInRange(p);
      var index := SourceIndex(width, depth, p);
      cells[index] := v;
    }

    /** Board::IsLayerFilled: scans layer `layer` row by row and stops at the first empty cell. */
    method IsLayerFilled(layer: nat) returns (filled: bool)
      requires Valid() && layer < height
      ensures filled == Model().IsLayerFilled(layer)
    {
      var g := Model();
      g.LayerFilledIffCellsOccupied(layer);
      for i := 0 to width
        invariant forall x, z :: 0 <= x < i && 0 <= z < depth ==> !g.IsEmpty(Vec3(x, layer, z))
      {
        for j := 0 to depth
          invariant forall z :: 0 <= z < j ==> !g.IsEmpty(Vec3(i, layer, z))
          invariant forall x, z :: 0 <= x < i && 0 <= z < depth ==> !g.IsEmpty(Vec3(x, layer, z))
        {
          var p := Vec3(i, layer, j);
          g.IndexIsSourceIndex(p);
          g.IndexInRange(p);
          assert (i * width + j) + layer * width * depth == SourceIndex(width, depth, p);
          if cells[(i * width + j) + layer * width * depth] == 0 {
            assert g.IsEmpty(p);
            return false;
          }
        }
      }
      return true;
    }

    /** Board::EraseLayer: clears layer `layer`, then moves every layer above it down by one,
        cell by cell, clearing each source cell after copying it. */
    method EraseLayer(layer: nat)
      requires Valid() && layer < height
      modifies cells
      ensures Model() == old(Model()).WithoutLayer(layer)
    {
      ghost var s0 := cells[..];
      ClearLayer(layer);
      ClearedIsShiftStart(s0, layer * (width * depth), width * depth);
      var layer1 := layer;
      while layer1 < height - 1
        invariant layer <= layer1 <= height - 1
        invariant 0 <= layer * (width * depth) <= layer1 * (width * depth)
        invariant layer1 * (width * depth) + width * depth <= |s0|
        invariant cells[..] == Shifted(s0, layer * (width * depth), layer1 * (width * depth), width * depth)
      {
        MoveLayerDown(s0, layer1, layer * (width * depth));
        layer1 := layer1 + 1;
      }
      ShiftDone(old(Model()), cells[..], layer, layer1, width * depth);
    }

    /** Board::EraseFilledLayers: scans the layers bottom-up; a full layer is erased and the
        same index is checked again (the layer above has moved into it), otherwise the scan
        moves on. Returns the number of layers erased. With zero-width layers every layer is
        vacuously full and the scan never ends, hence width >= 1. */
    method EraseFilledLayers() returns (count: nat)
      requires Valid() && width >= 1
      modifies cells
      ensures Model().Layers() == Compacted(old(Model()).Layers(), width * depth)
      ensures count == FullCount(old(Model()).Layers())
      ensures forall k :: 0 <= k < height ==> !Model().IsLayerFilled(k)
      ensures count == 0 <==> Model() == old(Model())
    {
      ghost var o := Model().Layers();
      assert 1 <= width * depth by { MulMonotone(1, width, depth); }
      // j counts the original layers dealt with: kept ones below `layer`, erased ones counted.
      ghost var j: nat := 0;
      count := 0;
      var layer: nat := 0;
      while layer < height
        invariant layer <= height
        invariant ScanState(o, Model().Layers(), j, count, layer, width * depth)
        decreases 2 * height - j - layer
      {
        j, count, layer := ScanLayer(o, j, count, layer);
      }
      ScanDone(o, Model().Layers(), j, count, layer, width * depth);
      CompactedGrid(old(Model()), Model(), count);
    }

    /** One round of the EraseFilledLayers loop: a full layer at `layer` is erased and counted,
        otherwise the scan moves up one layer. */
    method ScanLayer(ghost o: seq<seq<bv32>>, ghost j: nat, count: nat, layer: nat)
      returns (ghost j': nat, count': nat, layer': nat)
      requires Valid() && width >= 1 && layer < height && |o| == height
      requires ScanState(o, Model().Layers(), j, count, layer, width * depth)
      modifies cells
      ensures ScanState(o, Model().Layers(), j', count', layer', width * depth)
      ensures layer' <= height && j + layer < j' + layer'
    {
      assert 1 <= width * depth by { MulMonotone(1, width, depth); }
      ScanLooksAt(Model(), o, j, count, layer);
      var filled := IsLayerFilled(layer);
      if filled {
        ScanErasesLayer(Model(), o, j, count, layer);
        EraseLayer(layer);
        j', count', layer' := j + 1, count + 1, layer;
      } else {
        if j < height {
          ScanKeeps(o, Model().Layers(), j, count, layer, width * depth);
          j' := j + 1;
        } else {
          ScanPassesTop(o, Model().Layers(), count, layer, width * depth);
          j' := j;
        }
        count', layer' := count, layer + 1;
      }
    }

    /** The first loop of EraseLayer: zero every cell of the layer. */
    method ClearLayer(layer: nat)
      requires Valid() && layer < height
      modifies cells
      ensures 0 <= width * depth && 0 <= layer * (width * depth)
      ensures (layer + 1) * (width * depth) == layer * (width * depth) + width * depth <= cells.Length
      ensures cells[..] == Cleared(old(cells[..]), layer * (width * depth), (layer + 1) * (width * depth))
    {
      ghost var s0 := cells[..];
      LayerBounds(layer, width, depth, height);
      MulSucc(layer, width * depth);
      for i := 0 to width
        invariant 0 <= i * depth <= width * depth
        invariant cells[..] == Cleared(s0, layer * (width * depth), layer * (width * depth) + i * depth)
      {
        MulSucc(i, depth);
        OffsetBound(i, width, depth);
        for j := 0 to depth
          invariant cells[..] == Cleared(s0, layer * (width * depth), layer * (width * depth) + i * depth + j)
        {
          // The flat index being written: the layer offset plus x*depth + z.
          ghost var w := layer * (width * depth) + i * depth + j;
          CellIndex(i, j, layer, width, depth, height, w);
          ClearStep(s0, layer * (width * depth), w);
          cells[(i * width + j) + layer * width * depth] := 0;
        }
      }
    }

    /** One pass of the second loop of EraseLayer: layer layer1 + 1 is copied into layer layer1
        and cleared behind the copy, so the cleared window moves up by one layer. */
    method MoveLayerDown(ghost s0: seq<bv32>, layer1: nat, ghost base: int)
      requires Valid() && layer1 + 1 < height && |s0| == cells.Length
      requires 0 <= width * depth && 0 <= base <= layer1 * (width * depth)
      requires layer1 * (width * depth) + width * depth <= |s0|
      requires cells[..] == Shifted(s0, base, layer1 * (width * depth), width * depth)
      modifies cells
      ensures (layer1 + 1) * (width * depth) == layer1 * (width * depth) + width * depth
      ensures (layer1 + 1) * (width * depth) + width * depth <= |s0|
      ensures cells[..] == Shifted(s0, base, (layer1 + 1) * (width * depth), width * depth)
    {
      LayerBounds(layer1 + 1, width, depth, height);
      MulSucc(layer1, width * depth);
      for i := 0 to width
        invariant 0 <= i * depth <= width * depth
        invariant cells[..] == Shifted(s0, base, layer1 * (width * depth) + i * depth, width * depth)
      {
        MulSucc(i, depth);
        OffsetBound(i, width, depth);
        MoveRowDown(s0, layer1, i, base);
      }
    }

    /** The inner loop of one pass: row i of layer layer1 + 1 moves into layer layer1. */
    method MoveRowDown(ghost s0: seq<bv32>, layer1: nat, i: nat, ghost base: int)
      requires Valid() && layer1 + 1 < height && i < width && |s0| == cells.Length
      requires 0 <= base <= layer1 * (width * depth) && 0 <= i * depth
      requires (i + 1) * depth == i * depth + depth && (i + 1) * depth <= width * depth
      requires layer1 * (width * depth) + width * depth + width * depth <= |s0|
      requires cells[..] == Shifted(s0, base, layer1 * (width * depth) + i * depth, width * depth)
      modifies cells
      ensures cells[..] == Shifted(s0, base, layer1 * (width * depth) + (i + 1) * depth, width * depth)
    {
      var layer2 := layer1 + 1;
      for j := 0 to depth
        invariant cells[..] == Shifted(s0, base, layer1 * (width * depth) + i * depth + j, width * depth)
      {
        ghost var w := layer1 * (width * depth) + i * depth + j;
        MoveIndices(i, j, layer1, width, depth, height, w);
        ShiftStep(s0, base, w, width * depth);
        var index1 := (i * width + j) + layer1 * width * depth;
        var index2 := (i * width + j) + layer2 * width * depth;
        cells[index1] := cells[index2];
        cells[index2] := 0;
      }
    }
  }

  /** The cells while EraseLayer clears a layer: from `base` up to the write position w
      cleared, all others as in s0. */
  ghost function Cleared(s0: seq<bv32>, base: int, w: int): (r: seq<bv32>)
    requires 0 <= base <= w <= |s0|
    ensures |r| == |s0|
  {
    seq(|s0|, t requires 0 <= t < |s0| => if base <= t < w then 0 else s0[t])
  }

  /** The cells while EraseLayer moves layers down: below `base` the original cells s0, up to
      the write position w the original cells one layer (a cells) up, then a cleared window of
      a cells, and above it the original cells. */
  ghost function Shifted(s0: seq<bv32>, base: int, w: int, a: int): (r: seq<bv32>)
    requires 0 <= a && 0 <= base <= w && w + a <= |s0|
    ensures |r| == |s0|
  {
    seq(|s0|, t requires 0 <= t < |s0| =>
      if t < base then s0[t] else if t < w then s0[t + a] else if t < w + a then 0 else s0[t])
  }

  /** Clearing the cell at the write position moves it up by one. */
  lemma ClearStep(s0: seq<bv32>, base: int, w: int)
    requires 0 <= base <= w < |s0|
    ensures Cleared(s0, base, w)[w := 0] == Cleared(s0, base, w + 1)
  {
  }

  /** A cleared layer is where the moving of the layers above it starts. */
  lemma ClearedIsShiftStart(s0: seq<bv32>, base: int, a: int)
    requires 0 <= a && 0 <= base && base + a <= |s0|
    ensures Cleared(s0, base, base + a) == Shifted(s0, base, base, a)
  {
  }

  /** Copying the cell one layer up into the write position and clearing it moves the write
      position, and the cleared window, up by one cell. */
  lemma ShiftStep(s0: seq<bv32>, base: int, w: int, a: int)
    requires 1 <= a && 0 <= base <= w && w + a < |s0|
    ensures Shifted(s0, base, w, a)[w := Shifted(s0, base, w, a)[w + a]][w + a := 0]
      == Shifted(s0, base, w + 1, a)
  {
  }

  /** When the cleared window has reached the top layer, the cells are those of
      WithoutLayer(k). */
  lemma ShiftDone(g: Grid, cur: seq<bv32>, k: nat, top: nat, a: nat)
    requires g.WellFormed() && k < g.height && top + 1 == g.height && a == g.Area()
    requires 0 <= k * a <= top * a && top * a + a <= |g.cells|
    requires cur == Shifted(g.cells, k * a, top * a, a)
    ensures cur == g.WithoutLayer(k).cells
  {
    assert top * a == (g.height - 1) * g.Area();
    var w := g.WithoutLayer(k).cells;
    forall t | 0 <= t < |cur|
      ensures cur[t] == w[t]
    {
      g.WithoutLayerAt(k, t);
    }
  }

  /** Row x ends inside the layer. */
  lemma OffsetBound(x: nat, width: nat, depth: nat)
    requires x < width
    ensures (x + 1) * depth <= width * depth
  {
    MulMonotone(x + 1, width, depth);
  }

  /** The source's loop index (x*width + z) + y*width*depth, on square layers, is the
      layer offset y*(width*depth) plus the in-layer offset x*depth + z. */
  lemma FlatIndex(x: int, z: int, y: int, width: nat, depth: nat)
    requires width == depth
    ensures (x * width + z) + y * width * depth == y * (width * depth) + x * depth + z
  {
    assert y * width * depth == y * (width * depth);
  }

  /** Layer k's cells lie inside the board. */
  lemma LayerBounds(k: nat, width: nat, depth: nat, height: nat)
    requires k < height
    ensures 0 <= width * depth && 0 <= k * (width * depth)
    ensures k * (width * depth) + width * depth <= width * depth * height
  {
    LayerSlot(k, height, width * depth, 0);
    assert height * (width * depth) == width * depth * height;
  }

  /** The cell one step of ClearLayer writes: w = (x, layer k, z), inside the board. */
  lemma CellIndex(x: int, z: int, k: nat, width: nat, depth: nat, height: nat, w: int)
    requires width == depth && 0 <= x < width && 0 <= z < depth && k < height
    requires w == k * (width * depth) + x * depth + z
    ensures (x * width + z) + k * width * depth == w
    ensures 0 <= w < width * depth * height
  {
    OffsetInLayer(x, z, width, depth);
    LayerSlot(k, height, width * depth, x * depth + z);
    FlatIndex(x, z, k, width, depth);
  }

  /** The two cells one step of MoveRowDown touches: w = (x, layer k, z) and the cell above. */
  lemma MoveIndices(x: int, z: int, k: nat, width: nat, depth: nat, height: nat, w: int)
    requires width == depth && 0 <= x < width && 0 <= z < depth && k + 1 < height
    requires w == k * (width * depth) + x * depth + z
    ensures (x * width + z) + k * width * depth == w
    ensures (x * width + z) + (k + 1) * width * depth == w + width * depth
    ensures 0 <= w && 1 <= width * depth && w + width * depth < width * depth * height
  {
    OffsetInLayer(x, z, width, depth);
    LayerSlot(k + 1, height, width * depth, x * depth + z);
    MulSucc(k, width * depth);
    FlatIndex(x, z, k, width, depth);
    FlatIndex(x, z, k + 1, width, depth);
  }
}

/** The value of a board (src/game/board.cc, and its legacy copy Board3D in src/logic.h):
    its dimensions and the flat vector of 32-bit cells, layer (y) outermost. A cell is 0 when
    empty and otherwise holds the packed colour of a settled cube. The class in boards.dfy
    stores the cells in an array and is proved against the functions here. */
module Grids {
  import opened Vectors

  /** n empty cells: one cleared layer. */
  function Zeros(n: nat): (s: seq<bv32>)
    ensures |s| == n && forall i :: 0 <= i < n ==> s[i] == 0
  {
    seq(n, _ => 0)
  }

  /** A layer is filled when none of its cells is empty. */
  predicate Full(layer: seq<bv32>) {
    forall i :: 0 <= i < |layer| ==> layer[i] != 0
  }

  /** The formula of PositionToIndex in src/game/board.cc:29-32 and src/logic.h:119-122, on
      integers rather than the source's float: the row of x is scaled by the width, not by the
      depth. */
  function SourceIndex(width: int, depth: int, p: Vec3): int {
    (p.x * width + p.z) + p.y * width * depth
  }

  /** With rows narrower than the layer is deep, two board positions share a cell. */
  lemma SourceIndexCollides(width: nat, depth: nat)
    requires 2 <= width < depth
    ensures var p, q := Vec3(1, 0, 0), Vec3(0, 0, width);
      var g := Grid(width, depth, 1, Zeros(width * depth));
      g.Contains(p) && g.Contains(q) && p != q &&
      SourceIndex(width, depth, p) == SourceIndex(width, depth, q)
  {
  }

  /** With rows wider than the layer is deep, the last position of the board indexes past the
      width*depth*height cells. */
  lemma SourceIndexOverruns(width: nat, depth: nat, height: nat)
    requires 1 <= depth < width && 1 <= height
    ensures var p := Vec3(width - 1, height - 1, depth - 1);
      Grid(width, depth, height, Zeros(width * depth * height)).Contains(p) &&
      SourceIndex(width, depth, p) >= width * depth * height
  {
  }

  datatype Grid = Grid(width: nat, depth: nat, height: nat, cells: seq<bv32>) {

    /** Number of cells in one horizontal layer. */
    function Area(): nat { width * depth }

    /** What the constructor establishes (width*depth*height cells), plus square layers: only
        then does the source's index formula address each cell once (see SourceIndex). */
    predicate WellFormed() {
      width == depth && |cells| == Area() * height
    }

    /** Board::Contains: the half-open bounds check on all three axes. */
    predicate Contains(p: Vec3) {
      if p.x < 0 || p.y < 0 || p.z < 0 || p.x >= width || p.y >= height || p.z >= depth
      then false else true
    }

    /** Row-major index of a position: layer y, then row x of length depth, then z. It agrees
        with SourceIndex on square layers (IndexIsSourceIndex), which WellFormed requires. */
    function Index(p: Vec3): int {
      (p.x * depth + p.z) + p.y * Area()
    }

    lemma IndexInRange(p: Vec3)
      requires Contains(p)
      ensures 0 <= Index(p) < Area() * height
    {
      OffsetInLayer(p.x, p.z, width, depth);
      LayerSlot(p.y, height, Area(), p.x * depth + p.z);
    }

    lemma IndexIsSourceIndex(p: Vec3)
      requires width == depth
      ensures Index(p) == SourceIndex(width, depth, p)
    {
      assert p.y * width * depth == p.y * (width * depth);
    }

    /** Distinct positions on the board have distinct cells. */
    lemma IndexInjective(p: Vec3, q: Vec3)
      requires Contains(p) && Contains(q) && Index(p) == Index(q)
      ensures p == q
    {
      var op, oq := p.x * depth + p.z, q.x * depth + q.z;
      OffsetInLayer(p.x, p.z, width, depth);
      OffsetInLayer(q.x, q.z, width, depth);
      SlotUnique(p.y, op, q.y, oq, Area());
      SlotUnique(p.x, p.z, q.x, q.z, depth);
    }

    /** Board::IsEmpty; the caller must have checked Contains (there is no bounds check). */
    predicate IsEmpty(p: Vec3)
      requires WellFormed() && Contains(p)
    {
      IndexInRange(p);
      cells[Index(p)] == 0
    }

    /** Board::Fill: an unconditional write of one cell. */
    function Filled(p: Vec3, v: bv32): (g: Grid)
      requires WellFormed() && Contains(p)
      ensures g.WellFormed() && g.width == width && g.depth == depth && g.height == height
    {
      IndexInRange(p);
      this.(cells := cells[Index(p) := v])
    }

    /** Fill changes the one cell it is given and no other; afterwards that cell is empty
        exactly when the value written is 0. */
    lemma FilledEffect(p: Vec3, v: bv32, q: Vec3)
      requires WellFormed() && Contains(p) && Contains(q)
      ensures Filled(p, v).IsEmpty(q) == if q == p then v == 0 else IsEmpty(q)
    {
      IndexInRange(p);
      IndexInRange(q);
      if q != p && Index(q) == Index(p) {
        IndexInjective(p, q);
      }
    }

    /** The cells of layer k, in the order of their in-layer offset x*depth + z. */
    function Layer(k: nat): (s: seq<bv32>)
      requires WellFormed() && k < height
      ensures |s| == Area()
    {
      seq(Area(), o requires 0 <= o < Area() => LayerSlot(k, height, Area(), o); cells[k * Area() + o])
    }

    /** The board as a bottom-up sequence of layers. */
    function Layers(): (ls: seq<seq<bv32>>)
      requires WellFormed()
      ensures |ls| == height
    {
      LayersBelow(height)
    }

    /** The n lowest layers, bottom-up. */
    function LayersBelow(n: nat): (ls: seq<seq<bv32>>)
      requires WellFormed() && n <= height
      ensures |ls| == n
    {
      if n == 0 then [] else LayersBelow(n - 1) + [Layer(n - 1)]
    }

    /** Entry k of the n lowest layers is layer k. */
    lemma {:induction false} LayersBelowAt(n: nat, k: nat)
      requires WellFormed() && k < n <= height
      ensures LayersBelow(n)[k] == Layer(k)
    {
      if k < n - 1 {
        LayersBelowAt(n - 1, k);
      }
    }

    /** Entry k of Layers() is layer k. */
    lemma LayersAt()
      requires WellFormed()
      ensures forall k :: 0 <= k < height ==> Layers()[k] == Layer(k)
    {
      forall k | 0 <= k < height
        ensures Layers()[k] == Layer(k)
      {
        LayersBelowAt(height, k);
      }
    }

    /** Board::IsLayerFilled, as a property of the layer's cells. */
    predicate IsLayerFilled(k: nat)
      requires WellFormed() && k < height
    {
      Full(Layer(k))
    }

    /** Cell (x, z) of layer k sits at offset x*depth + z of Layer(k). */
    lemma LayerCell(k: nat, x: int, z: int)
      requires WellFormed() && k < height && 0 <= x < width && 0 <= z < depth
      ensures 0 <= x * depth + z < Area() && 0 <= Index(Vec3(x, k, z)) < |cells|
      ensures Layer(k)[x * depth + z] == cells[Index(Vec3(x, k, z))]
    {
      var o, base := x * depth + z, k * Area();
      OffsetInLayer(x, z, width, depth);
      assert 0 <= o < Area();
      LayerSlot(k, height, Area(), o);
      assert base + o < |cells|;
      assert Index(Vec3(x, k, z)) == base + o;
    }

    /** IsLayerFilled(k) holds iff every (x, z) cell of layer k is occupied. */
    lemma LayerFilledIffCellsOccupied(k: nat)
      requires WellFormed() && k < height
      ensures IsLayerFilled(k) <==>
        forall x, z :: 0 <= x < width && 0 <= z < depth ==> !IsEmpty(Vec3(x, k, z))
    {
      var s := Layer(k);
      if IsLayerFilled(k) {
        forall x, z | 0 <= x < width && 0 <= z < depth
          ensures !IsEmpty(Vec3(x, k, z))
        {
          LayerCell(k, x, z);
        }
      } else {
        var o :| 0 <= o < |s| && s[o] == 0;
        var x, z := OffsetSplit(o, width, depth);
        LayerCell(k, x, z);
        assert IsEmpty(Vec3(x, k, z));
      }
    }

    /** EraseLayer(k) as a value: layer k is cut out, the layers above move down one, and a
        cleared layer takes the top. */
    function WithoutLayer(k: nat): (g: Grid)
      requires WellFormed() && k < height
      ensures g.WellFormed() && g.width == width && g.depth == depth && g.height == height
    {
      LayerSlot(k, height, Area(), 0);
      this.(cells := cells[..k * Area()] + cells[k * Area() + Area()..] + Zeros(Area()))
    }

    /** Cell t after WithoutLayer(k): below layer k unchanged, then shifted down one layer,
        and zero in the top layer. */
    lemma WithoutLayerAt(k: nat, t: nat)
      requires WellFormed() && k < height && t < |cells|
      ensures WithoutLayer(k).cells[t] ==
        if t < k * Area() then cells[t]
        else if t < (height - 1) * Area() then cells[t + Area()]
        else 0
    {
      LayerSlot(k, height, Area(), 0);
      assert (height - 1) * Area() == height * Area() - Area();
    }

    /** On layers: the ones below k are unchanged, layer j (k <= j < height-1) is the old layer
        j+1, and the top layer is cleared. */
    lemma WithoutLayerLayers(k: nat)
      requires WellFormed() && k < height
      ensures WithoutLayer(k).Layers() == Layers()[..k] + Layers()[k + 1..] + [Zeros(Area())]
    {
      var g := WithoutLayer(k);
      LayersAt();
      g.LayersAt();
      var want := Layers()[..k] + Layers()[k + 1..] + [Zeros(Area())];
      forall j | 0 <= j < height
        ensures g.Layer(j) == want[j]
      {
        var from := if j < k then Layer(j) else if j < height - 1 then Layer(j + 1) else Zeros(Area());
        assert want[j] == from;
        forall o | 0 <= o < Area()
          ensures g.Layer(j)[o] == from[o]
        {
          WithoutLayerCell(k, j, o);
        }
      }
    }

    /** Cell o of layer j after WithoutLayer(k). */
    lemma WithoutLayerCell(k: nat, j: nat, o: nat)
      requires WellFormed() && k < height && j < height && o < Area()
      ensures WithoutLayer(k).Layer(j)[o] ==
        if j < k then Layer(j)[o] else if j < height - 1 then Layer(j + 1)[o] else 0
    {
      LayerSlot(j, height, Area(), o);
      SlotBefore(j, k, Area(), o);
      SlotBefore(j, height - 1, Area(), o);
      MulSucc(j, Area());
      WithoutLayerAt(k, j * Area() + o);
      if j + 1 < height {
        LayerSlot(j + 1, height, Area(), o);
      }
    }

    /** Two boards of the same size with the same layers have the same cells. */
    lemma LayersDetermineCells(other: Grid)
      requires WellFormed() && other.WellFormed()
      requires other.width == width && other.depth == depth && other.height == height
      requires other.Layers() == Layers()
      ensures other.cells == cells
    {
      LayersAt();
      other.LayersAt();
      forall t | 0 <= t < |cells|
        ensures other.cells[t] == cells[t]
      {
        var k, o := OffsetSplit(t, height, Area());
        assert t == k * Area() + o;
        LayerSlot(k, height, Area(), o);
        assert Layer(k)[o] == cells[t];
        assert other.Layer(k)[o] == other.cells[t];
      }
    }

    /** Positions on this board are on every board of the same dimensions. */
    lemma SameBounds(other: Grid, ps: seq<Vec3>)
      requires other.width == width && other.depth == depth && other.height == height
      requires |ps| > 0 && forall p :: p in ps ==> Contains(p)
      ensures forall p :: p in ps[1..] ==> other.Contains(p)
    {
      forall p | p in ps[1..]
        ensures other.Contains(p)
      {
        assert p in ps;
      }
    }

    /** The cells set by writing v at each position of ps in turn (MergeFallingBlock's
        sequence of Fill calls). */
    function Painted(ps: seq<Vec3>, v: bv32): (g: Grid)
      requires WellFormed() && forall p :: p in ps ==> Contains(p)
      ensures g.WellFormed() && g.width == width && g.depth == depth && g.height == height
      decreases |ps|
    {
      if ps == [] then this
      else
        var f := Filled(ps[0], v);
        SameBounds(f, ps);
        f.Painted(ps[1..], v)
    }

    /** After painting, a cell on the board holds v exactly when it is one of the positions,
        and is unchanged otherwise. */
    lemma {:induction false} PaintedCell(ps: seq<Vec3>, v: bv32, q: Vec3)
      requires WellFormed() && forall p :: p in ps ==> Contains(p)
      requires Contains(q)
      ensures 0 <= Index(q) < |cells|
      ensures Painted(ps, v).cells[Index(q)] == if q in ps then v else cells[Index(q)]
      decreases |ps|
    {
      IndexInRange(q);
      if ps != [] {
        var f := Filled(ps[0], v);
        SameBounds(f, ps);
        f.PaintedCell(ps[1..], v, q);
        IndexInRange(ps[0]);
        if q != ps[0] && Index(q) == Index(ps[0]) {
          IndexInjective(q, ps[0]);
        }
        assert f.cells[Index(q)] == if q == ps[0] then v else cells[Index(q)];
        assert q in ps <==> q == ps[0] || q in ps[1..];
      }
    }
  }

  // ---- EraseFilledLayers on the layer sequence: a stable compaction. ----

  /** The layers of ls that are not full, in their original order. */
  function Kept(ls: seq<seq<bv32>>): (ks: seq<seq<bv32>>)
    ensures |ks| <= |ls|
    ensures forall k :: 0 <= k < |ks| ==> !Full(ks[k])
  {
    if ls == [] then []
    else
      var init, last := ls[..|ls| - 1], ls[|ls| - 1];
      assert ls == init + [last];
      Kept(init) + (if Full(last) then [] else [last])
  }

  /** The number of full layers of ls. */
  function FullCount(ls: seq<seq<bv32>>): nat {
    if ls == [] then 0
    else FullCount(ls[..|ls| - 1]) + (if Full(ls[|ls| - 1]) then 1 else 0)
  }

  /** n cleared layers of a cells each. */
  function ZeroLayers(n: nat, a: nat): (zs: seq<seq<bv32>>)
    ensures |zs| == n && forall k :: 0 <= k < n ==> zs[k] == Zeros(a)
  {
    seq(n, _ => Zeros(a))
  }

  /** The layers after EraseFilledLayers: the kept layers at the bottom, cleared ones above. */
  function Compacted(ls: seq<seq<bv32>>, a: nat): seq<seq<bv32>> {
    Kept(ls) + ZeroLayers(FullCount(ls), a)
  }

  /** Dealing with one more layer: it is kept or counted. */
  lemma KeptStep(ls: seq<seq<bv32>>, j: nat)
    requires j < |ls|
    ensures Kept(ls[..j + 1]) == Kept(ls[..j]) + (if Full(ls[j]) then [] else [ls[j]])
    ensures FullCount(ls[..j + 1]) == FullCount(ls[..j]) + (if Full(ls[j]) then 1 else 0)
  {
    assert ls[..j + 1][..j] == ls[..j];
  }

  /** The state of the EraseFilledLayers scan over the original layers o: j of them dealt with,
      the kept ones at the bottom, the rest above them, and one cleared layer per erased one. */
  predicate ScanState(o: seq<seq<bv32>>, ls: seq<seq<bv32>>, j: nat, count: nat, layer: nat, a: nat) {
    j <= |o| && count == FullCount(o[..j]) &&
    ls == Kept(o[..j]) + o[j..] + ZeroLayers(count, a) &&
    (j < |o| ==> layer == |Kept(o[..j])|) &&
    (j == |o| ==> |Kept(o[..j])| <= layer)
  }

  /** The layer the scan looks at is the next original layer, or a cleared one once all are
      dealt with. */
  lemma ScanLooksAt(g: Grid, o: seq<seq<bv32>>, j: nat, count: nat, layer: nat)
    requires g.WellFormed() && layer < g.height && g.Area() >= 1 && |o| == g.height
    requires ScanState(o, g.Layers(), j, count, layer, g.Area())
    ensures j < |o| ==> (g.IsLayerFilled(layer) <==> Full(o[j]))
    ensures j == |o| ==> !g.IsLayerFilled(layer)
  {
    KeptPlusFullCount(o[..j]);
    var ls := g.Layers();
    g.LayersBelowAt(g.height, layer);
    if j < |o| {
      assert ls[layer] == o[j];
    } else {
      assert ls[layer] == Zeros(g.Area());
      assert ls[layer][0] == 0;
    }
  }

  /** Erasing a full layer: it is counted, and a cleared layer takes the top. */
  lemma ScanErases(o: seq<seq<bv32>>, ls: seq<seq<bv32>>, j: nat, count: nat, layer: nat, a: nat)
    requires ScanState(o, ls, j, count, layer, a) && j < |o| && Full(o[j])
    ensures ScanState(o, ls[..layer] + ls[layer + 1..] + [Zeros(a)], j + 1, count + 1, layer, a)
  {
    KeptStep(o, j);
    var kept, rest := Kept(o[..j]), o[j..];
    assert ls[..layer] == kept;
    assert ls[layer + 1..] == rest[1..] + ZeroLayers(count, a);
    assert rest[1..] == o[j + 1..];
    assert ZeroLayers(count, a) + [Zeros(a)] == ZeroLayers(count + 1, a);
  }

  /** ScanErases on a board: erasing its layer `layer` (EraseLayer) keeps the scan's state. */
  lemma ScanErasesLayer(g: Grid, o: seq<seq<bv32>>, j: nat, count: nat, layer: nat)
    requires g.WellFormed() && layer < g.height
    requires ScanState(o, g.Layers(), j, count, layer, g.Area()) && j < |o| && Full(o[j])
    ensures ScanState(o, g.WithoutLayer(layer).Layers(), j + 1, count + 1, layer, g.Area())
  {
    g.WithoutLayerLayers(layer);
    ScanErases(o, g.Layers(), j, count, layer, g.Area());
  }

  /** Passing a layer that is not full: it is kept. */
  lemma ScanKeeps(o: seq<seq<bv32>>, ls: seq<seq<bv32>>, j: nat, count: nat, layer: nat, a: nat)
    requires ScanState(o, ls, j, count, layer, a) && j < |o| && !Full(o[j])
    ensures ScanState(o, ls, j + 1, count, layer + 1, a)
  {
    KeptStep(o, j);
    assert o[j..] == [o[j]] + o[j + 1..];
  }

  /** Passing a cleared layer above all original ones. */
  lemma ScanPassesTop(o: seq<seq<bv32>>, ls: seq<seq<bv32>>, count: nat, layer: nat, a: nat)
    requires ScanState(o, ls, |o|, count, layer, a)
    ensures ScanState(o, ls, |o|, count, layer + 1, a)
  {
  }

  /** A scan that has passed every layer has compacted them. */
  lemma ScanDone(o: seq<seq<bv32>>, ls: seq<seq<bv32>>, j: nat, count: nat, layer: nat, a: nat)
    requires ScanState(o, ls, j, count, layer, a) && layer >= |o|
    ensures ls == Compacted(o, a) && count == FullCount(o)
  {
    assert j == |o|;
    assert o[..j] == o;
    assert Kept(o[..j]) + o[j..] == Kept(o);
  }

  /** Every layer is either kept or counted. */
  lemma {:induction false} KeptPlusFullCount(ls: seq<seq<bv32>>)
    ensures |Kept(ls)| + FullCount(ls) == |ls|
  {
    if ls != [] {
      KeptPlusFullCount(ls[..|ls| - 1]);
    }
  }

  /** No layer is counted exactly when no layer is full. */
  lemma {:induction false} NoFullLayer(ls: seq<seq<bv32>>)
    ensures FullCount(ls) == 0 <==> forall k :: 0 <= k < |ls| ==> !Full(ls[k])
  {
    if ls != [] {
      var init, last := ls[..|ls| - 1], ls[|ls| - 1];
      NoFullLayer(init);
      if FullCount(ls) == 0 {
        forall k | 0 <= k < |ls|
          ensures !Full(ls[k])
        {
          if k < |init| {
            assert ls[k] == init[k];
          }
        }
      } else if !Full(last) {
        var k :| 0 <= k < |init| && Full(init[k]);
        assert ls[k] == init[k];
      }
    }
  }

  /** When no layer is counted, every layer is kept. */
  lemma {:induction false} KeptAll(ls: seq<seq<bv32>>)
    requires FullCount(ls) == 0
    ensures Kept(ls) == ls
  {
    if ls != [] {
      var init, last := ls[..|ls| - 1], ls[|ls| - 1];
      KeptAll(init);
      assert ls == init + [last];
    }
  }

  /** The compacted board has as many layers as before and, when layers are not empty, no
      full layer. */
  lemma CompactedShape(ls: seq<seq<bv32>>, a: nat)
    ensures |Compacted(ls, a)| == |ls|
    ensures a >= 1 ==> forall k :: 0 <= k < |ls| ==> !Full(Compacted(ls, a)[k])
  {
    KeptPlusFullCount(ls);
    var c := Compacted(ls, a);
    if a >= 1 {
      forall k | 0 <= k < |ls|
        ensures !Full(c[k])
      {
        if k >= |Kept(ls)| {
          assert c[k] == Zeros(a) && c[k][0] == 0;
        }
      }
    }
  }

  /** With non-empty layers, compaction leaves the layers unchanged exactly when none is full. */
  lemma CompactedUnchangedIff(ls: seq<seq<bv32>>, a: nat)
    requires a >= 1
    ensures Compacted(ls, a) == ls <==> FullCount(ls) == 0
  {
    NoFullLayer(ls);
    CompactedShape(ls, a);
    if FullCount(ls) == 0 {
      KeptAll(ls);
      assert ZeroLayers(0, a) == [];
    } else {
      var k :| 0 <= k < |ls| && Full(ls[k]);
      assert !Full(Compacted(ls, a)[k]);
    }
  }

  /** A grid whose layers are the compacted layers of another has no filled layer left, and is
      that other grid exactly when none of its layers was full. */
  lemma CompactedGrid(g0: Grid, g: Grid, count: nat)
    requires g0.WellFormed() && g.WellFormed() && g0.Area() >= 1
    requires g.width == g0.width && g.depth == g0.depth && g.height == g0.height
    requires g.Layers() == Compacted(g0.Layers(), g0.Area()) && count == FullCount(g0.Layers())
    ensures forall k :: 0 <= k < g.height ==> !g.IsLayerFilled(k)
    ensures count == 0 <==> g == g0
  {
    CompactedShape(g0.Layers(), g0.Area());
    CompactedUnchangedIff(g0.Layers(), g0.Area());
    g.LayersAt();
    forall k | 0 <= k < g.height
      ensures !g.IsLayerFilled(k)
    {
      assert g.Layer(k) == g.Layers()[k];
    }
    if count == 0 {
      g.LayersDetermineCells(g0);
    }
  }

  // ---- Arithmetic on layer slots: the index is slot*size + offset with offset < size. ----

  lemma MulMonotone(a: int, b: int, c: nat)
    requires a <= b
    ensures a * c <= b * c
  {
    assert b * c - a * c == (b - a) * c;
  }

  lemma MulSucc(k: int, a: int)
    ensures (k + 1) * a == k * a + a
  {
  }

  /** With offsets below a, slot order is index order. */
  lemma SlotBefore(j: int, k: int, a: nat, o: int)
    requires 0 <= o < a
    ensures j * a + o < k * a <==> j < k
  {
    if j < k {
      MulMonotone(j + 1, k, a);
    } else {
      MulMonotone(k, j, a);
    }
  }

  /** A slot below n, with an offset inside it, lies below n*size. */
  lemma LayerSlot(k: nat, n: nat, size: nat, o: nat)
    requires k < n && o <= size
    ensures 0 <= k * size + o <= k * size + size <= n * size
    ensures o < size ==> k * size + o < n * size
  {
    MulMonotone(k + 1, n, size);
  }

  /** x*depth + z is an offset inside a width*depth layer. */
  lemma OffsetInLayer(x: int, z: int, width: nat, depth: nat)
    requires 0 <= x < width && 0 <= z < depth
    ensures 0 <= x * depth + z < width * depth
  {
    LayerSlot(x, width, depth, z);
  }

  /** Slot and offset are determined by the index. */
  lemma SlotUnique(k1: int, o1: int, k2: int, o2: int, size: nat)
    requires 0 <= o1 < size && 0 <= o2 < size
    requires k1 * size + o1 == k2 * size + o2
    ensures k1 == k2 && o1 == o2
  {
    if k1 < k2 {
      MulMonotone(k1 + 1, k2, size);
    } else if k2 < k1 {
      MulMonotone(k2 + 1, k1, size);
    }
  }

  /** Every index below n*size is some slot k < n at some offset o < size. */
  lemma OffsetSplit(t: nat, n: nat, size: nat) returns (k: nat, o: nat)
    requires t < n * size
    ensures k < n && o < size && t == k * size + o
  {
    k, o := t / size, t % size;
    if k >= n {
      MulMonotone(n, k, size);
    }
  }
}

/** The discrete phase machine of src/game/game.cc (legacy copy in src/logic.cc:532-597): the
    game state owns a board and a falling block, and SingleStep moves it through spawn, fall,
    merge and erase, with Lost absorbing. */
module Games {
  import opened Vectors
  import opened Colors
  import opened Grids
  import opened Boards
  import opened Blocks

  datatype Option<T> = None | Some(value: T)

  /** GameState::Phase, in declaration order. */
  datatype Phase = Uninitialized | NewBlockCreation | BlockFalling | BlockMerge | LayersErase | Lost

  /** Below-cells at this height or higher are skipped by CanFallingBlockFall. */
  const SkipHeight := 50

  /** The cell straight under w. */
  function Below(w: Vec3): Vec3 {
    w.Minus(Vec3(0, 1, 0))
  }

  // ---- CanFallingBlockFall as written: the below-cell read has no Contains guard. ----

  /** The first loop of CanFallingBlockFall over the world cells ws, reading each below-cell
      with the source's index formula. None stands for a read outside the board's cells, which
      the source performs without a check. */
  function FallReads(g: Grid, ws: seq<Vec3>): Option<bool>
    requires g.WellFormed()
  {
    if ws == [] then Some(true)
    else
      var f := Below(ws[0]);
      if f.y >= SkipHeight then FallReads(g, ws[1..])
      else if f.y < 0 then Some(false)
      else
        var t := SourceIndex(g.width, g.depth, f);
        if t < 0 || t >= |g.cells| then None
        else if g.cells[t] != 0 then Some(false)
        else FallReads(g, ws[1..])
  }

  /** Game::CanFallingBlockFall as written. */
  function FallCheck(g: Grid, b: Block): Option<bool>
    requires g.WellFormed()
  {
    FallReads(g, b.Cells())
  }

  // ---- CanFallingBlockFall with its read guarded: a read past the cells is no obstacle. ----

  /** The first loop of CanFallingBlockFall with the one undefined step defined: a below-cell
      whose index falls outside the cells reads as empty. Wherever the loop as written stays
      inside the cells it gives the same answer, including the reads of off-board positions
      that the source's formula maps onto other cells. */
  function GuardedFallReads(g: Grid, ws: seq<Vec3>): (r: bool)
    requires g.WellFormed()
    ensures FallReads(g, ws) != None ==> FallReads(g, ws) == Some(r)
  {
    if ws == [] then true
    else
      var f := Below(ws[0]);
      if f.y >= SkipHeight then GuardedFallReads(g, ws[1..])
      else if f.y < 0 then false
      else
        var t := SourceIndex(g.width, g.depth, f);
        if t < 0 || t >= |g.cells| then GuardedFallReads(g, ws[1..])
        else if g.cells[t] != 0 then false
        else GuardedFallReads(g, ws[1..])
  }

  /** Game::CanFallingBlockFall as the game steps with it: the answer of the source wherever
      the source's reads stay inside the cells. */
  function CanFallingBlockFall(g: Grid, b: Block): (r: bool)
    requires g.WellFormed()
    ensures FallCheck(g, b) != None ==> FallCheck(g, b) == Some(r)
  {
    GuardedFallReads(g, b.Cells())
  }

  /** For a valid block the guarded check is the geometric CanFall. */
  lemma GuardedFallOnValid(g: Grid, b: Block)
    requires g.WellFormed() && b.IsValid(g)
    ensures CanFallingBlockFall(g, b) == CanFall(g, b)
  {
    FallCheckOnValid(g, b);
  }

  /** On a 3x3x4 board an I shape spawned at height 2 sticks out to x = -1, where the source's
      formula reads cell 7 of the layer below, a cell of the board. If that cell is occupied the
      block cannot fall, and being off the board it is invalid, so the step loses. */
  lemma NarrowBoardStopsFall(g: Grid, c: Rgb)
    requires g.WellFormed() && g.width == 3 && g.height == 4 && g.cells[7] != 0
    ensures !CanFallingBlockFall(g, Spawned(IShape, c, g, 2))
    ensures !Spawned(IShape, c, g, 2).IsValid(g)
  {
    var b := Spawned(IShape, c, g, 2);
    NarrowIShape(g, c);
    NarrowCells(b);
    NarrowIndices(g);
    WrapStop(g, b.Cells());
    OffBoardInvalid(g, b, 2);
  }

  /** Where Create's table puts that I shape. */
  lemma NarrowIShape(g: Grid, c: Rgb)
    requires g.width == 3 && g.depth == 3
    ensures var b := Spawned(IShape, c, g, 2);
      b.position == Vec3(1, 2, 1) && |b.offsets| == 4 && b.offsets[0] == Vec3(0, 0, 0) &&
      b.offsets[1] == Vec3(-1, 0, 0) && b.offsets[2] == Vec3(-2, 0, 0)
  {
  }

  /** Its first three cubes. */
  lemma NarrowCells(b: Block)
    requires b.position == Vec3(1, 2, 1) && |b.offsets| == 4 && b.offsets[0] == Vec3(0, 0, 0)
    requires b.offsets[1] == Vec3(-1, 0, 0) && b.offsets[2] == Vec3(-2, 0, 0)
    ensures |b.Cells()| == 4 && b.Cells()[0] == Vec3(1, 2, 1) && b.Cells()[1] == Vec3(0, 2, 1)
    ensures b.Cells()[2] == Vec3(-1, 2, 1)
  {
  }

  /** The source's indices of the three below-cells on a 3x3x4 board. */
  lemma NarrowIndices(g: Grid)
    requires g.WellFormed() && g.width == 3 && g.height == 4
    ensures |g.cells| == 36
    ensures SourceIndex(g.width, g.depth, Vec3(1, 1, 1)) == 13
    ensures SourceIndex(g.width, g.depth, Vec3(0, 1, 1)) == 10
    ensures SourceIndex(g.width, g.depth, Vec3(-1, 1, 1)) == 7
  {
    assert g.depth == 3;
  }

  /** The guarded loop over cubes at (1,2,1), (0,2,1) and (-1,2,1), whose below-cells are read
      at 13, 10 and 7, stops at the latest at the third cube when cell 7 is occupied. */
  lemma WrapStop(g: Grid, ws: seq<Vec3>)
    requires g.WellFormed() && |ws| == 4 && |g.cells| == 36
    requires ws[0] == Vec3(1, 2, 1) && ws[1] == Vec3(0, 2, 1) && ws[2] == Vec3(-1, 2, 1)
    requires SourceIndex(g.width, g.depth, Vec3(1, 1, 1)) == 13
    requires SourceIndex(g.width, g.depth, Vec3(0, 1, 1)) == 10
    requires SourceIndex(g.width, g.depth, Vec3(-1, 1, 1)) == 7
    requires g.cells[7] != 0
    ensures !GuardedFallReads(g, ws)
  {
    var w1, w2 := ws[1..], ws[1..][1..];
    assert Below(ws[0]) == Vec3(1, 1, 1);
    assert w1[0] == ws[1] && Below(w1[0]) == Vec3(0, 1, 1);
    assert w2[0] == ws[2] && Below(w2[0]) == Vec3(-1, 1, 1);
    if g.cells[13] != 0 {
      GuardedStop(g, ws);
    } else {
      GuardedPass(g, ws);
      if g.cells[10] != 0 {
        GuardedStop(g, w1);
      } else {
        GuardedPass(g, w1);
        GuardedStop(g, w2);
      }
    }
  }

  /** A block with a cube off the board is invalid. */
  lemma OffBoardInvalid(g: Grid, b: Block, i: int)
    requires g.WellFormed() && 0 <= i < |b.Cells()| && !g.Contains(b.Cells()[i])
    ensures !b.IsValid(g)
  {
    ValidMeans(g, b);
    assert b.Cells()[i] == b.position.Plus(b.offsets[i]);
  }

  /** A below-cell read inside the cells and found empty lets the guarded loop go on. */
  lemma GuardedPass(g: Grid, ws: seq<Vec3>)
    requires g.WellFormed() && ws != [] && 0 <= Below(ws[0]).y < SkipHeight
    requires 0 <= SourceIndex(g.width, g.depth, Below(ws[0])) < |g.cells|
    requires g.cells[SourceIndex(g.width, g.depth, Below(ws[0]))] == 0
    ensures GuardedFallReads(g, ws) == GuardedFallReads(g, ws[1..])
  {
  }

  /** A below-cell read inside the cells and found occupied stops the guarded loop. */
  lemma GuardedStop(g: Grid, ws: seq<Vec3>)
    requires g.WellFormed() && ws != [] && 0 <= Below(ws[0]).y < SkipHeight
    requires 0 <= SourceIndex(g.width, g.depth, Below(ws[0])) < |g.cells|
    requires g.cells[SourceIndex(g.width, g.depth, Below(ws[0]))] != 0
    ensures !GuardedFallReads(g, ws)
  {
  }

  // ---- What CanFallingBlockFall means for a block on the board. ----

  /** The cube at w may move one cell down: its below-cell is skipped, or it is above the floor
      and not an occupied cell of the board. */
  predicate BelowIsOpen(g: Grid, w: Vec3)
    requires g.WellFormed()
  {
    var f := Below(w);
    f.y >= SkipHeight || (0 <= f.y && (!g.Contains(f) || g.IsEmpty(f)))
  }

  /** The geometric reading of CanFallingBlockFall: no cube is on the floor or over an occupied
      cell of the board, cubes over height 50 aside. */
  predicate CanFall(g: Grid, b: Block)
    requires g.WellFormed()
  {
    forall i :: 0 <= i < |b.offsets| ==> BelowIsOpen(g, b.position.Plus(b.offsets[i]))
  }

  /** While every cube lies over the board's x-z square, the loop as written reads outside the
      cells only for a below-cell between the top of the board and height 50, and whenever it
      reads nothing outside it answers as CanFall does. */
  lemma {:induction false} FallReadsAgree(g: Grid, ws: seq<Vec3>)
    requires g.WellFormed()
    requires forall i :: 0 <= i < |ws| ==> 0 <= ws[i].x < g.width && 0 <= ws[i].z < g.depth
    ensures FallReads(g, ws) != None ==>
      FallReads(g, ws) == Some(forall i :: 0 <= i < |ws| ==> BelowIsOpen(g, ws[i]))
    ensures (forall i :: 0 <= i < |ws| ==> ws[i].y <= g.height) ==> FallReads(g, ws) != None
  {
    if ws != [] {
      assert forall i :: 1 <= i < |ws| ==> ws[i] == ws[1..][i - 1];
      FallReadsAgree(g, ws[1..]);
      var f := Below(ws[0]);
      if f.y < SkipHeight && 0 <= f.y {
        g.IndexIsSourceIndex(f);
        if f.y < g.height {
          g.IndexInRange(f);
        } else {
          OffsetInLayer(f.x, f.z, g.width, g.depth);
          MulMonotone(g.height, f.y, g.Area());
        }
      }
    }
  }

  /** For a valid block the reads of CanFallingBlockFall all stay on the board, and it answers
      CanFall. */
  lemma FallCheckOnValid(g: Grid, b: Block)
    requires g.WellFormed() && b.IsValid(g)
    ensures FallCheck(g, b) == Some(CanFall(g, b))
  {
    ValidMeans(g, b);
    var ws := b.Cells();
    assert forall i :: 0 <= i < |ws| ==> ws[i] == b.position.Plus(b.offsets[i]);
    FallReadsAgree(g, ws);
  }

  /** If the first loop answers true, the debug assertion of the second loop (every cube at
      height -1 or above) holds. */
  lemma {:induction false} FallReadsTrueAboveFloor(g: Grid, ws: seq<Vec3>)
    requires g.WellFormed() && GuardedFallReads(g, ws)
    ensures forall i :: 0 <= i < |ws| ==> ws[i].y + 1 >= 0
  {
    if ws != [] {
      assert forall i :: 1 <= i < |ws| ==> ws[i] == ws[1..][i - 1];
      FallReadsTrueAboveFloor(g, ws[1..]);
    }
  }

  /** On a board at most 51 layers high nothing is skipped, so a valid block that can fall is
      still valid one cell lower. */
  lemma FallKeepsValid(g: Grid, b: Block)
    requires g.WellFormed() && g.height <= SkipHeight + 1 && b.IsValid(g)
    requires CanFallingBlockFall(g, b)
    ensures b.Translated(Down).IsValid(g)
  {
    GuardedFallOnValid(g, b);
    ValidMeans(g, b);
    var d := b.Translated(Down);
    forall i | 0 <= i < |d.offsets|
      ensures Free(g, d.position.Plus(d.offsets[i]))
    {
      var w := b.position.Plus(b.offsets[i]);
      assert BelowIsOpen(g, w);
      assert d.position.Plus(d.offsets[i]) == Below(w);
    }
    ValidMeans(g, d);
  }

  /** Above 51 layers the bound of FallKeepsValid is needed: on a 1x1x52 board with cell 50
      occupied, a one-cube block at height 51 is valid, its below-cell at height 50 is skipped,
      so the check lets it fall, and one cell lower it is on the occupied cell. */
  lemma TallBoardFallsIntoCube(g: Grid, c: Rgb)
    requires g.WellFormed() && g.width == 1 && g.height == 52
    requires g.cells[50] != 0 && g.cells[51] == 0
    ensures var b := Block(IShape, Vec3(0, 51, 0), [Vec3(0, 0, 0)], c);
      b.IsValid(g) && CanFallingBlockFall(g, b) && !b.Translated(Down).IsValid(g)
  {
    var b := Block(IShape, Vec3(0, 51, 0), [Vec3(0, 0, 0)], c);
    assert |b.offsets| == 1 && b.position.Plus(b.offsets[0]) == Vec3(0, 51, 0);
    TallCells(g);
    OneCubeFall(g, b);
    SkipPass(g, b.Cells());
  }

  /** On that board the cell at height 51 is free and the one at height 50 is not. */
  lemma TallCells(g: Grid)
    requires g.WellFormed() && g.width == 1 && g.height == 52
    requires g.cells[50] != 0 && g.cells[51] == 0
    ensures Free(g, Vec3(0, 51, 0)) && !Free(g, Vec3(0, 50, 0))
  {
    assert g.Index(Vec3(0, 51, 0)) == 51 && g.Index(Vec3(0, 50, 0)) == 50;
  }

  /** A one-cube block on a free cell above a cell that is not free is valid, and invalid one
      cell lower; its one world cell is that cube. */
  lemma OneCubeFall(g: Grid, b: Block)
    requires g.WellFormed() && |b.offsets| == 1
    requires Free(g, b.position.Plus(b.offsets[0]))
    requires !Free(g, Below(b.position.Plus(b.offsets[0])))
    ensures b.IsValid(g) && !b.Translated(Down).IsValid(g)
    ensures |b.Cells()| == 1 && b.Cells()[0] == b.position.Plus(b.offsets[0])
  {
    ValidMeans(g, b);
    var d := b.Translated(Down);
    assert d.position.Plus(d.offsets[0]) == Below(b.position.Plus(b.offsets[0]));
    ValidMeans(g, d);
  }

  /** A below-cell at height 50 or more is skipped by the guarded loop. */
  lemma SkipPass(g: Grid, ws: seq<Vec3>)
    requires g.WellFormed() && ws != [] && Below(ws[0]).y >= SkipHeight
    ensures GuardedFallReads(g, ws) == GuardedFallReads(g, ws[1..])
  {
  }

  /** Create lowers an O shape to height 16 on a 7x7x18 board. If the cell (2,17,3) is
      occupied the block collides there, and so does the block one higher; at 18, above the
      top, it collides with nothing. So Create returns it at height 18 (see Blocks.Create). */
  lemma LiftedOIsSpawned(g: Grid, c: Rgb)
    requires g.WellFormed() && g.width == 7 && g.height == 18
    requires g.Contains(Vec3(2, 17, 3)) && !g.IsEmpty(Vec3(2, 17, 3))
    ensures g.height - Drop(OShape) == 16
    ensures Spawned(OShape, c, g, 16).IsColliding(g) && Spawned(OShape, c, g, 17).IsColliding(g)
    ensures !Spawned(OShape, c, g, 18).IsColliding(g)
  {
    var settled := Vec3(2, 17, 3);
    var b16, b17, b18 := Spawned(OShape, c, g, 16), Spawned(OShape, c, g, 17), Spawned(OShape, c, g, 18);
    assert b16.position == Vec3(3, 16, 3) && b16.offsets[3] == Vec3(-1, 1, 0);
    assert b16.position.Plus(b16.offsets[3]) == settled;
    CollidingMeans(g, b16);
    assert b17.position == Vec3(3, 17, 3) && b17.offsets[2] == Vec3(-1, 0, 0);
    assert b17.position.Plus(b17.offsets[2]) == settled;
    CollidingMeans(g, b17);
    CollidingMeans(g, b18);
  }

  /** CanFallingBlockFall as written, on that lifted O shape: if (3,17,3) is empty, the loop
      passes the cube at (3,18,3) and then reads the below-cell of the cube at (3,19,3), whose
      index 906 lies past the 882 cells of the board. */
  lemma LiftedOReadsOutside(g: Grid, c: Rgb)
    requires g.WellFormed() && g.width == 7 && g.height == 18
    requires g.Contains(Vec3(3, 17, 3)) && g.IsEmpty(Vec3(3, 17, 3))
    ensures FallCheck(g, Spawned(OShape, c, g, 18)) == None
  {
    var ws := Spawned(OShape, c, g, 18).Cells();
    assert ws[0] == Vec3(3, 18, 3) && ws[1..][0] == Vec3(3, 19, 3);
    FirstCubePasses(g, ws);
    SecondCubeReadsOutside(g, ws[1..]);
  }

  /** A cube at (3,18,3) over an empty (3,17,3) lets the loop as written go on. */
  lemma FirstCubePasses(g: Grid, ws: seq<Vec3>)
    requires g.WellFormed() && g.width == 7 && g.height == 18
    requires g.Contains(Vec3(3, 17, 3)) && g.IsEmpty(Vec3(3, 17, 3))
    requires ws != [] && ws[0] == Vec3(3, 18, 3)
    ensures FallReads(g, ws) == FallReads(g, ws[1..])
  {
    var f := Vec3(3, 17, 3);
    assert Below(ws[0]) == f;
    g.IndexIsSourceIndex(f);
    g.IndexInRange(f);
  }

  /** For a cube at (3,19,3) the loop as written reads index 906 of 882 cells. */
  lemma SecondCubeReadsOutside(g: Grid, ws: seq<Vec3>)
    requires g.WellFormed() && g.width == 7 && g.height == 18
    requires ws != [] && ws[0] == Vec3(3, 19, 3)
    ensures FallReads(g, ws) == None
  {
    assert Below(ws[0]) == Vec3(3, 18, 3);
    IndexPastCells(g);
    FallReadsOutside(g, ws);
  }

  /** The loop as written reads outside the cells at a below-cell past their end. */
  lemma FallReadsOutside(g: Grid, ws: seq<Vec3>)
    requires g.WellFormed() && ws != [] && 0 <= Below(ws[0]).y < SkipHeight
    requires SourceIndex(g.width, g.depth, Below(ws[0])) >= |g.cells|
    ensures FallReads(g, ws) == None
  {
  }

  lemma IndexPastCells(g: Grid)
    requires g.WellFormed() && g.width == 7 && g.height == 18
    ensures SourceIndex(g.width, g.depth, Vec3(3, 18, 3)) >= |g.cells|
  {
    assert g.depth == 7 && |g.cells| == 882;
  }

  /** Whatever block Create returns for an O shape on such a board sits at height 18. */
  lemma CreateLiftsO(g: Grid, c: Rgb, b: Block)
    requires g.WellFormed() && g.width == 7 && g.height == 18
    requires g.Contains(Vec3(2, 17, 3)) && !g.IsEmpty(Vec3(2, 17, 3))
    requires b == Spawned(OShape, c, g, b.position.y) && !b.IsColliding(g)
    requires g.height - Drop(OShape) <= b.position.y
    requires forall y :: g.height - Drop(OShape) <= y < b.position.y ==>
      Spawned(OShape, c, g, y).IsColliding(g)
    ensures b == Spawned(OShape, c, g, 18)
  {
    LiftedOIsSpawned(g, c);
  }

  /** A board meeting both conditions: the default 7x7x18 board with one settled cube, at
      (2,17,3). */
  lemma OneCubeBoardLifts()
    ensures var g := Grid(7, 7, 18, Zeros(882)[850 := 1]);
      g.WellFormed() && g.Contains(Vec3(2, 17, 3)) && !g.IsEmpty(Vec3(2, 17, 3)) &&
      g.Contains(Vec3(3, 17, 3)) && g.IsEmpty(Vec3(3, 17, 3))
  {
    var g := Grid(7, 7, 18, Zeros(882)[850 := 1]);
    assert g.Index(Vec3(2, 17, 3)) == 850;
    assert g.Index(Vec3(3, 17, 3)) == 857;
  }

  // ---- MergeFallingBlock ----

  /** Painting one more position is one more Fill after the others. */
  lemma {:induction false} PaintedSnoc(g: Grid, ps: seq<Vec3>, p: Vec3, v: bv32)
    requires g.WellFormed() && (forall q :: q in ps ==> g.Contains(q)) && g.Contains(p)
    ensures g.Painted(ps + [p], v) == g.Painted(ps, v).Filled(p, v)
    decreases |ps|
  {
    if ps == [] {
      assert [] + [p] == [p];
    } else {
      var f := g.Filled(ps[0], v);
      g.SameBounds(f, ps);
      assert (ps + [p])[0] == ps[0];
      assert (ps + [p])[1..] == ps[1..] + [p];
      g.SameBounds(f, ps + [p]);
      PaintedSnoc(f, ps[1..], p, v);
    }
  }

  /** The board after MergeFallingBlock: the block's packed colour written at each of its
      world cells. */
  function Merged(g: Grid, b: Block): (m: Grid)
    requires g.WellFormed() && b.IsValid(g)
    ensures m.WellFormed() && m.width == g.width && m.depth == g.depth && m.height == g.height
  {
    CellsOnBoard(g, b);
    g.Painted(b.Cells(), PackColor(b.color))
  }

  lemma CellsOnBoard(g: Grid, b: Block)
    requires g.WellFormed() && b.IsValid(g)
    ensures forall p :: p in b.Cells() ==> g.Contains(p)
  {
    ValidMeans(g, b);
  }

  /** After a merge a board cell holds the block's packed colour exactly when the block covers
      it, and is otherwise unchanged; so with a non-black colour the block's cells read as
      occupied and no other cell changes occupancy. */
  lemma MergedCell(g: Grid, b: Block, q: Vec3)
    requires g.WellFormed() && b.IsValid(g) && g.Contains(q)
    ensures 0 <= g.Index(q) < |g.cells|
    ensures Merged(g, b).cells[g.Index(q)] ==
      if q in b.Cells() then PackColor(b.color) else g.cells[g.Index(q)]
    ensures !IsBlack(b.color) ==> (Merged(g, b).IsEmpty(q) <==> q !in b.Cells() && g.IsEmpty(q))
  {
    CellsOnBoard(g, b);
    g.PaintedCell(b.Cells(), PackColor(b.color), q);
  }

  /** What CreateRandom promises about the block it returns for these draws on board g: the
      rolled type, the first non-black draw, and Create's placement. */
  ghost predicate IsSpawn(b: Block, kindRoll: nat, draws: seq<Rgb>, g: Grid)
    requires g.WellFormed()
  {
    b.kind == KindOf(kindRoll) && IsFirstNonBlack(b.color, draws) &&
    b == Spawned(b.kind, b.color, g, b.position.y) &&
    g.height - Drop(b.kind) <= b.position.y && !b.IsColliding(g) &&
    (forall y :: g.height - Drop(b.kind) <= y < b.position.y ==>
      Spawned(b.kind, b.color, g, y).IsColliding(g)) &&
    ((forall t :: 0 <= t < |g.cells| ==> g.cells[t] == 0) ==>
      b.position.y == g.height - Drop(b.kind))
  }

  /** tetris3d::GameState with Game::SingleStep and Game::MergeFallingBlock. The board is one
      object whose cells change in place; the falling block is a value swapped as a whole. */
  class Game {
    const board: Board
    var falling: Block
    var phase: Phase
    var paused: bool

    /** A board on square layers at least one cell wide, so that EraseFilledLayers ends. */
    ghost predicate Valid()
      reads this, board
    {
      board.Valid() && board.width >= 1
    }

    /** GameState(config): an empty board, a default block, phase Uninitialized, not paused. */
    constructor (width: nat, depth: nat, height: nat)
      requires width == depth && width >= 1
      ensures Valid() && fresh(board) && fresh(board.cells)
      ensures board.Model() == Grid(width, depth, height, Zeros(width * depth * height))
      ensures falling.kind == Undefined && falling.offsets == []
      ensures phase == Uninitialized && !paused
    {
      board := new Board(width, depth, height);
      falling := Block(Undefined, Zero, [], Rgb(0, 0, 0));
      phase := Uninitialized;
      paused := false;
    }

    /** Game::MergeFallingBlock: one Fill per cube with the block's packed colour. */
    method MergeFallingBlock()
      requires Valid() && falling.IsValid(board.Model())
      modifies board.cells
      ensures Valid() && board.Model() == Merged(old(board.Model()), falling)
    {
      ghost var g0 := board.Model();
      CellsOnBoard(g0, falling);
      var v := PackColor(falling.color);
      var ws := falling.Cells();
      var i := 0;
      while i < |ws|
        invariant 0 <= i <= |ws|
        invariant board.Model() == g0.Painted(ws[..i], v)
      {
        PaintedSnoc(g0, ws[..i], ws[i], v);
        assert ws[..i + 1] == ws[..i] + [ws[i]];
        board.Fill(ws[i], v);
        i := i + 1;
      }
      assert ws[..i] == ws;
    }

    /** Game::SingleStep. kindRoll and draws stand for the rand() values CreateRandom would
        draw when this step spawns a block. */
    method SingleStep(kindRoll: nat, draws: seq<Rgb>)
      requires Valid() && exists i :: 0 <= i < |draws| && !IsBlack(draws[i])
      modifies this, board.cells
      ensures Valid() && paused == old(paused)
      ensures old(phase) == Lost ==>
        phase == Lost && falling == old(falling) && board.Model() == old(board.Model())
      ensures old(phase) == Uninitialized || old(phase) == LayersErase ==>
        phase == NewBlockCreation && board.Model() == old(board.Model()) &&
        IsSpawn(falling, kindRoll, draws, board.Model())
      ensures old(phase) == BlockMerge ==>
        board.Model().Layers() == Compacted(old(board.Model()).Layers(), board.width * board.depth) &&
        if FullCount(old(board.Model()).Layers()) > 0
        then phase == LayersErase && falling == old(falling)
        else phase == NewBlockCreation && board.Model() == old(board.Model()) &&
             IsSpawn(falling, kindRoll, draws, board.Model())
      ensures old(phase) == NewBlockCreation || old(phase) == BlockFalling ==>
        var g, b := old(board.Model()), old(falling);
        if CanFallingBlockFall(g, b) then
          phase == BlockFalling && falling == b.Translated(Down) && board.Model() == g
        else if !b.IsValid(g) then
          phase == Lost && falling == b && board.Model() == g
        else
          phase == BlockMerge && falling == b && board.Model() == Merged(g, b)
    {
      if phase == Lost {
        return;
      }
      if phase == Uninitialized {
        falling := CreateRandom(board.Model(), kindRoll, draws);
        phase := NewBlockCreation;
        return;
      }
      if phase == BlockMerge {
        var count := board.EraseFilledLayers();
        if count > 0 {
          phase := LayersErase;
          return;
        }
      }
      if phase == BlockMerge || phase == LayersErase {
        falling := CreateRandom(board.Model(), kindRoll, draws);
        phase := NewBlockCreation;
        return;
      }
      if !CanFallingBlockFall(board.Model(), falling) {
        if !falling.IsValid(board.Model()) {
          phase := Lost;
          return;
        }
        MergeFallingBlock();
        phase := BlockMerge;
      } else {
        falling := falling.Translated(Down);
        phase := BlockFalling;
      }
    }
  }
}

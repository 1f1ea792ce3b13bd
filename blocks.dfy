/** The falling piece of src/game/block.cc (legacy copy in src/logic.cc): an anchor position,
    cube offsets in object space, a shape and a colour. Blocks are values: the source copies
    them freely (a transformed copy is validated and then assigned back), and every board query
    here takes the board's cells as a Grids.Grid. */
module Blocks {
  import opened Vectors
  import opened Colors
  import opened Grids

  /** BlockType, in declaration order; Undefined is the default of a block never created. */
  datatype BlockType = IShape | LShape | JShape | OShape | SShape | TShape | ZShape | Undefined

  /** The rotation sense of one of the six Rotate* operations. */
  datatype Sense = Clockwise | CounterClockwise

  function Opposite(s: Sense): Sense {
    if s == Clockwise then CounterClockwise else Clockwise
  }

  const IntMax := 0x7fff_ffff
  const IntMin := -0x8000_0000

  /** A 32-bit signed integer, the range of glm::ivec3 components. */
  predicate IsInt32(n: int) { IntMin <= n <= IntMax }

  /** The cube offsets Create lays out for each shape. */
  function ShapeOffsets(kind: BlockType): (offs: seq<Vec3>)
    requires kind != Undefined
    ensures |offs| == if kind == OShape then 8 else 4
    ensures offs[0] == Zero
    ensures forall i :: 0 <= i < |offs| ==> 0 <= offs[i].y <= 1
    ensures forall i, j :: 0 <= i < j < |offs| ==> offs[i] != offs[j]
  {
    match kind
    case LShape => [Vec3(0, 0, 0), Vec3(-1, 0, 0), Vec3(1, 0, 0), Vec3(1, 1, 0)]
    case IShape => [Vec3(0, 0, 0), Vec3(-1, 0, 0), Vec3(-2, 0, 0), Vec3(1, 0, 0)]
    case JShape => [Vec3(0, 0, 0), Vec3(-1, 0, 0), Vec3(1, 0, 0), Vec3(-1, 1, 0)]
    case OShape =>
      [Vec3(0, 0, 0), Vec3(0, 1, 0), Vec3(-1, 0, 0), Vec3(-1, 1, 0),
       Vec3(0, 0, 1), Vec3(0, 1, 1), Vec3(-1, 0, 1), Vec3(-1, 1, 1)]
    case SShape => [Vec3(0, 0, 0), Vec3(-1, 0, 0), Vec3(0, 1, 0), Vec3(1, 1, 0)]
    case TShape => [Vec3(0, 0, 0), Vec3(-1, 0, 0), Vec3(1, 0, 0), Vec3(0, 1, 0)]
    case ZShape => [Vec3(0, 0, 0), Vec3(0, 1, 0), Vec3(-1, 1, 0), Vec3(1, 0, 0)]
  }

  /** How far below the top of the board Create places the anchor of each shape. */
  function Drop(kind: BlockType): nat {
    if kind == IShape then 1 else 2
  }

  /** One Rotate* step on a single offset: negate one component, then swap two, exactly as the
      six loops of the source do. */
  function TurnOffset(axis: Axis, sense: Sense, o: Vec3): Vec3 {
    var (negated, a, b) :=
      match (axis, sense)
      case (X, Clockwise) => (Y, Y, Z)
      case (X, CounterClockwise) => (Z, Y, Z)
      case (Y, Clockwise) => (Z, X, Z)
      case (Y, CounterClockwise) => (X, X, Z)
      case (Z, Clockwise) => (X, X, Y)
      case (Z, CounterClockwise) => (Y, X, Y);
    var n := o.With(negated, -o.Get(negated));
    n.With(a, n.Get(b)).With(b, n.Get(a))
  }

  /** The closed forms of the six rotations: quarter turns about the x, y and z axes. */
  lemma TurnFormulas(o: Vec3)
    ensures TurnOffset(X, Clockwise, o) == Vec3(o.x, o.z, -o.y)
    ensures TurnOffset(X, CounterClockwise, o) == Vec3(o.x, -o.z, o.y)
    ensures TurnOffset(Y, Clockwise, o) == Vec3(-o.z, o.y, o.x)
    ensures TurnOffset(Y, CounterClockwise, o) == Vec3(o.z, o.y, -o.x)
    ensures TurnOffset(Z, Clockwise, o) == Vec3(o.y, -o.x, o.z)
    ensures TurnOffset(Z, CounterClockwise, o) == Vec3(-o.y, o.x, o.z)
  {
  }

  /** Turning one way and then the other about the same axis restores an offset. */
  lemma TurnOffsetBack(axis: Axis, sense: Sense, o: Vec3)
    ensures TurnOffset(axis, Opposite(sense), TurnOffset(axis, sense, o)) == o
  {
    TurnFormulas(o);
    TurnFormulas(TurnOffset(axis, sense, o));
  }

  /** Four clockwise turns about the same axis restore an offset. */
  lemma TurnOffsetFour(axis: Axis, o: Vec3)
    ensures TurnOffset(axis, Clockwise, TurnOffset(axis, Clockwise,
              TurnOffset(axis, Clockwise, TurnOffset(axis, Clockwise, o)))) == o
  {
    var o1 := TurnOffset(axis, Clockwise, o);
    var o2 := TurnOffset(axis, Clockwise, o1);
    var o3 := TurnOffset(axis, Clockwise, o2);
    TurnFormulas(o);
    TurnFormulas(o1);
    TurnFormulas(o2);
    TurnFormulas(o3);
  }

  datatype Block = Block(kind: BlockType, position: Vec3, offsets: seq<Vec3>, color: Rgb) {

    /** World position of each cube: the anchor plus the cube's offset. */
    function Cells(): (ws: seq<Vec3>)
      ensures |ws| == |offsets|
    {
      seq(|offsets|, i requires 0 <= i < |offsets| => position.Plus(offsets[i]))
    }

    /** Block::Translate. */
    function Translated(v: Vec3): (b: Block)
      ensures b.kind == kind && b.offsets == offsets && b.color == color
      ensures b.position.Minus(position) == v
    {
      this.(position := position.Plus(v))
    }

    /** The six Rotate* operations: every offset turned, unless the block is an O shape; the
        anchor, the shape and the colour never change. */
    function Rotated(axis: Axis, sense: Sense): (b: Block)
      ensures b.kind == kind && b.position == position && b.color == color
      ensures |b.offsets| == |offsets|
      ensures kind == OShape ==> b == this
      ensures kind != OShape ==>
        forall i :: 0 <= i < |offsets| ==> b.offsets[i] == TurnOffset(axis, sense, offsets[i])
    {
      if kind == OShape then this
      else this.(offsets := seq(|offsets|, i requires 0 <= i < |offsets| =>
                                TurnOffset(axis, sense, offsets[i])))
    }

    /** Block::IsValid (see ValidMeans). */
    predicate IsValid(g: Grid)
      requires g.WellFormed()
    {
      AllFree(g, position, offsets)
    }

    /** Block::IsCollidingWithOtherBlocks (see CollidingMeans). */
    predicate IsColliding(g: Grid)
      requires g.WellFormed()
    {
      AnyOccupied(g, position, offsets)
    }

    /** Block::GetWorldBounds: the component-wise minimum and maximum of the world cells,
        starting from INT_MAX and INT_MIN. */
    function WorldBounds(): (r: (Vec3, Vec3)) {
      var ws := Cells();
      (Vec3(Lowest(ws, X, IntMax), Lowest(ws, Y, IntMax), Lowest(ws, Z, IntMax)),
       Vec3(Highest(ws, X, IntMin), Highest(ws, Y, IntMin), Highest(ws, Z, IntMin)))
    }

    /** Block::TryTranslate: the moved copy replaces the block only if it is valid. */
    function TryTranslate(g: Grid, v: Vec3): (r: (bool, Block))
      requires g.WellFormed()
      ensures r.0 <==> Translated(v).IsValid(g)
      ensures r.1 == if r.0 then Translated(v) else this
    {
      var t := Translated(v);
      if t.IsValid(g) then (true, t) else (false, this)
    }

    /** The six TryRotate* operations: the turned copy replaces the block only if it is valid. */
    function TryRotate(g: Grid, axis: Axis, sense: Sense): (r: (bool, Block))
      requires g.WellFormed()
      ensures r.0 <==> Rotated(axis, sense).IsValid(g)
      ensures r.1 == if r.0 then Rotated(axis, sense) else this
    {
      var t := Rotated(axis, sense);
      if t.IsValid(g) then (true, t) else (false, this)
    }
  }

  /** The loop of the six Rotate* operations: nothing for an O shape, otherwise each offset in
      turn is negated and swapped in place. */
  method Rotate(b: Block, axis: Axis, sense: Sense) returns (r: Block)
    ensures r == b.Rotated(axis, sense)
  {
    if b.kind == OShape {
      return b;
    }
    var offsets := b.offsets;
    var i := 0;
    while i < |offsets|
      invariant 0 <= i <= |offsets| == |b.offsets|
      invariant forall k :: 0 <= k < i ==> offsets[k] == TurnOffset(axis, sense, b.offsets[k])
      invariant forall k :: i <= k < |offsets| ==> offsets[k] == b.offsets[k]
    {
      offsets := offsets[i := TurnOffset(axis, sense, offsets[i])];
      i := i + 1;
    }
    r := b.(offsets := offsets);
  }

  /** Turning a block one way and then the other about the same axis restores it. */
  lemma RotateBack(b: Block, axis: Axis, sense: Sense)
    ensures b.Rotated(axis, sense).Rotated(axis, Opposite(sense)) == b
  {
    if b.kind != OShape {
      var r := b.Rotated(axis, sense).Rotated(axis, Opposite(sense));
      forall i | 0 <= i < |b.offsets|
        ensures r.offsets[i] == b.offsets[i]
      {
        TurnOffsetBack(axis, sense, b.offsets[i]);
      }
    }
  }

  /** Four clockwise turns about the same axis restore a block. */
  lemma RotateFour(b: Block, axis: Axis)
    ensures b.Rotated(axis, Clockwise).Rotated(axis, Clockwise)
             .Rotated(axis, Clockwise).Rotated(axis, Clockwise) == b
  {
    if b.kind != OShape {
      var b1 := b.Rotated(axis, Clockwise);
      var b2 := b1.Rotated(axis, Clockwise);
      var b3 := b2.Rotated(axis, Clockwise);
      var b4 := b3.Rotated(axis, Clockwise);
      forall i | 0 <= i < |b.offsets|
        ensures b4.offsets[i] == b.offsets[i]
      {
        TurnOffsetFour(axis, b.offsets[i]);
      }
    }
  }

  /** Translating by v and then by -v restores a block; translations compose by addition. */
  lemma TranslateAlgebra(b: Block, u: Vec3, v: Vec3)
    ensures b.Translated(u).Translated(Zero.Minus(u)) == b
    ensures b.Translated(u).Translated(v) == b.Translated(u.Plus(v))
  {
  }

  /** A valid block collides with nothing. */
  lemma ValidIsNotColliding(g: Grid, b: Block)
    requires g.WellFormed() && b.IsValid(g)
    ensures !b.IsColliding(g)
  {
    ValidMeans(g, b);
    CollidingMeans(g, b);
  }

  /** TryTranslate and TryRotate keep a valid block valid whether or not they succeed. */
  lemma TryKeepsValid(g: Grid, b: Block, v: Vec3, axis: Axis, sense: Sense)
    requires g.WellFormed() && b.IsValid(g)
    ensures b.TryTranslate(g, v).1.IsValid(g)
    ensures b.TryRotate(g, axis, sense).1.IsValid(g)
  {
  }

  /** For a non-empty block within the 32-bit range, the bounds are the component-wise minimum
      and maximum of its world cells: no cell lies outside them and each bound is attained. */
  lemma WorldBoundsExtremes(b: Block, a: Axis)
    requires |b.offsets| > 0
    requires forall i :: 0 <= i < |b.offsets| ==> IsInt32(b.Cells()[i].Get(a))
    ensures forall i :: 0 <= i < |b.offsets| ==>
      b.WorldBounds().0.Get(a) <= b.Cells()[i].Get(a) <= b.WorldBounds().1.Get(a)
    ensures exists i :: 0 <= i < |b.offsets| && b.WorldBounds().0.Get(a) == b.Cells()[i].Get(a)
    ensures exists i :: 0 <= i < |b.offsets| && b.WorldBounds().1.Get(a) == b.Cells()[i].Get(a)
  {
    var ws := b.Cells();
    var lo, hi := Lowest(ws, a, IntMax), Highest(ws, a, IntMin);
    assert b.WorldBounds().0.Get(a) == lo && b.WorldBounds().1.Get(a) == hi;
    if lo == IntMax {
      assert lo == ws[0].Get(a);
    }
    if hi == IntMin {
      assert hi == ws[0].Get(a);
    }
  }

  /** A cell a cube may occupy. */
  predicate Free(g: Grid, p: Vec3)
    requires g.WellFormed()
  {
    g.Contains(p) && g.IsEmpty(p)
  }

  /** A cell holding a settled cube. */
  predicate Occupied(g: Grid, p: Vec3)
    requires g.WellFormed()
  {
    g.Contains(p) && !g.IsEmpty(p)
  }

  /** The IsValid loop: it stops with false at the first cube off the board or on an occupied
      cell. */
  predicate AllFree(g: Grid, pos: Vec3, offs: seq<Vec3>)
    requires g.WellFormed()
  {
    if offs == [] then true
    else
      var w := pos.Plus(offs[0]);
      if !g.Contains(w) || !g.IsEmpty(w) then false else AllFree(g, pos, offs[1..])
  }

  /** The IsCollidingWithOtherBlocks loop: it stops with true at the first cube on an occupied
      cell of the board. */
  predicate AnyOccupied(g: Grid, pos: Vec3, offs: seq<Vec3>)
    requires g.WellFormed()
  {
    if offs == [] then false
    else
      var w := pos.Plus(offs[0]);
      if g.Contains(w) && !g.IsEmpty(w) then true else AnyOccupied(g, pos, offs[1..])
  }

  lemma {:induction false} AllFreeMeans(g: Grid, pos: Vec3, offs: seq<Vec3>)
    requires g.WellFormed()
    ensures AllFree(g, pos, offs) <==> forall i :: 0 <= i < |offs| ==> Free(g, pos.Plus(offs[i]))
  {
    if offs != [] {
      AllFreeMeans(g, pos, offs[1..]);
      assert forall i :: 1 <= i < |offs| ==> offs[i] == offs[1..][i - 1];
    }
  }

  lemma {:induction false} AnyOccupiedMeans(g: Grid, pos: Vec3, offs: seq<Vec3>)
    requires g.WellFormed()
    ensures AnyOccupied(g, pos, offs) <==>
      exists i :: 0 <= i < |offs| && Occupied(g, pos.Plus(offs[i]))
  {
    if offs != [] {
      AnyOccupiedMeans(g, pos, offs[1..]);
      assert forall i :: 1 <= i < |offs| ==> offs[i] == offs[1..][i - 1];
    }
  }

  /** IsValid holds iff every cube is on the board and on an empty cell. */
  lemma ValidMeans(g: Grid, b: Block)
    requires g.WellFormed()
    ensures b.IsValid(g) <==>
      forall i :: 0 <= i < |b.offsets| ==> Free(g, b.position.Plus(b.offsets[i]))
  {
    AllFreeMeans(g, b.position, b.offsets);
  }

  /** IsCollidingWithOtherBlocks holds iff some cube is on an occupied cell of the board. */
  lemma CollidingMeans(g: Grid, b: Block)
    requires g.WellFormed()
    ensures b.IsColliding(g) <==>
      exists i :: 0 <= i < |b.offsets| && Occupied(g, b.position.Plus(b.offsets[i]))
  {
    AnyOccupiedMeans(g, b.position, b.offsets);
  }

  /** The running minimum of one component along the GetWorldBounds loop. */
  function Lowest(ws: seq<Vec3>, a: Axis, lo: int): (r: int)
    ensures r <= lo && forall i :: 0 <= i < |ws| ==> r <= ws[i].Get(a)
    ensures r == lo || exists i :: 0 <= i < |ws| && r == ws[i].Get(a)
  {
    if ws == [] then lo
    else
      var r := Lowest(ws[1..], a, if ws[0].Get(a) < lo then ws[0].Get(a) else lo);
      assert forall i :: 1 <= i < |ws| ==> ws[i] == ws[1..][i - 1];
      r
  }

  /** The running maximum of one component along the GetWorldBounds loop. */
  function Highest(ws: seq<Vec3>, a: Axis, hi: int): (r: int)
    ensures r >= hi && forall i :: 0 <= i < |ws| ==> r >= ws[i].Get(a)
    ensures r == hi || exists i :: 0 <= i < |ws| && r == ws[i].Get(a)
  {
    if ws == [] then hi
    else
      var r := Highest(ws[1..], a, if ws[0].Get(a) > hi then ws[0].Get(a) else hi);
      assert forall i :: 1 <= i < |ws| ==> ws[i] == ws[1..][i - 1];
      r
  }

  /** Candidate k of the kick search at distance d: the block moved d steps along t. */
  function Kicked(b: Block, t: Vec3, d: int): Block {
    b.Translated(Scale(t, d))
  }

  lemma KickedZero(b: Block, t: Vec3)
    ensures Kicked(b, t, 0) == b
  {
    assert Scale(t, 0) == Zero;
  }

  /** One more step along t moves a candidate one distance further. */
  lemma KickedStep(b: Block, t: Vec3, d: int)
    ensures Kicked(b, t, d).Translated(t) == Kicked(b, t, d + 1)
  {
    assert (d + 1) * t.x == d * t.x + t.x;
    assert (d + 1) * t.y == d * t.y + t.y;
    assert (d + 1) * t.z == d * t.z + t.z;
  }

  /** The horizontal directions TryFix queues, from the world bounds of the rotated block cur and
      of the block prev before the rotation. */
  function FixDirections(cur: Block, prev: Block): (ts: seq<Vec3>)
    ensures |ts| <= 4
    ensures forall k :: 0 <= k < |ts| ==> IsHorizontalUnit(ts[k])
    ensures forall k, l :: 0 <= k < l < |ts| ==> KickRank(ts[k]) < KickRank(ts[l])
  {
    var (lo, hi) := cur.WorldBounds();
    var (plo, phi) := prev.WorldBounds();
    Directions(lo, hi, plo, phi)
  }

  /** The queue built from the two pairs of bounds: towards +x if either x bound lies below the
      previous one, towards -x if either lies above, and likewise for z; in the order +x, -x,
      +z, -z. */
  function Directions(lo: Vec3, hi: Vec3, plo: Vec3, phi: Vec3): (ts: seq<Vec3>)
    ensures |ts| <= 4
    ensures forall k :: 0 <= k < |ts| ==> IsHorizontalUnit(ts[k])
    ensures forall k, l :: 0 <= k < l < |ts| ==> KickRank(ts[k]) < KickRank(ts[l])
  {
    var px := if lo.x < plo.x || hi.x < phi.x then [PlusX] else [];
    var mx := if lo.x > plo.x || hi.x > phi.x then [MinusX] else [];
    var pz := if lo.z < plo.z || hi.z < phi.z then [PlusZ] else [];
    var mz := if lo.z > plo.z || hi.z > phi.z then [MinusZ] else [];
    px + mx + pz + mz
  }

  /** No candidate that the search reaches before (d, k) is valid: none at a smaller distance,
      and none of the directions queued before k at distance d. */
  predicate NoneValidBefore(g: Grid, b: Block, ts: seq<Vec3>, d: int, k: int)
    requires g.WellFormed()
  {
    forall e, l :: 1 <= e <= d && 0 <= l < |ts| && (e < d || l < k) ==>
      !Kicked(b, ts[l], e).IsValid(g)
  }

  /** Block::TryFix: each queued direction keeps its own candidate, moved one more step per
      round; in each of the three rounds the candidates are tried in queue order and the first
      valid one is taken. So the fix found is the first valid one at the shortest distance. */
  method TryFix(g: Grid, b: Block, prev: Block) returns (ok: bool, r: Block)
    requires g.WellFormed() && !b.IsValid(g)
    ensures ok <==> (exists d, k :: 1 <= d <= 3 && 0 <= k < |FixDirections(b, prev)| &&
                       Kicked(b, FixDirections(b, prev)[k], d).IsValid(g))
    ensures ok ==> r.IsValid(g)
    ensures ok ==> (exists d, k :: 1 <= d <= 3 && 0 <= k < |FixDirections(b, prev)| &&
                      r == Kicked(b, FixDirections(b, prev)[k], d) &&
                      NoneValidBefore(g, b, FixDirections(b, prev), d, k))
    ensures !ok ==> r == b
  {
    var ts := FixDirections(b, prev);
    ok, r := KickSearch(g, b, ts);
  }

  /** The three rounds of the TryFix search over the queued directions ts. */
  method KickSearch(g: Grid, b: Block, ts: seq<Vec3>) returns (ok: bool, r: Block)
    requires g.WellFormed()
    ensures ok <==> (exists d, k :: 1 <= d <= 3 && 0 <= k < |ts| && Kicked(b, ts[k], d).IsValid(g))
    ensures ok ==> r.IsValid(g)
    ensures ok ==> (exists d, k :: 1 <= d <= 3 && 0 <= k < |ts| && r == Kicked(b, ts[k], d) &&
                      NoneValidBefore(g, b, ts, d, k))
    ensures !ok ==> r == b
  {
    var candidates := seq(|ts|, _ => b);
    forall k | 0 <= k < |ts|
      ensures candidates[k] == Kicked(b, ts[k], 0)
    {
      KickedZero(b, ts[k]);
    }
    var d := 1;
    while d <= 3
      invariant 1 <= d <= 4 && |candidates| == |ts|
      invariant forall k :: 0 <= k < |ts| ==> candidates[k] == Kicked(b, ts[k], d - 1)
      invariant NoneValidBefore(g, b, ts, d, 0)
    {
      var found, i;
      found, i, candidates := KickRound(g, b, ts, d, candidates);
      if found {
        ok, r := true, candidates[i];
        return;
      }
      d := d + 1;
    }
    ok, r := false, b;
  }

  /** One round of the TryFix search: every candidate is moved one more step, in queue order,
      until one is valid. */
  method KickRound(g: Grid, b: Block, ts: seq<Vec3>, d: int, candidates: seq<Block>)
    returns (found: bool, i: int, next: seq<Block>)
    requires g.WellFormed() && 1 <= d && |candidates| == |ts|
    requires forall k :: 0 <= k < |ts| ==> candidates[k] == Kicked(b, ts[k], d - 1)
    requires NoneValidBefore(g, b, ts, d, 0)
    ensures |next| == |ts|
    ensures found ==> 0 <= i < |ts| && next[i] == Kicked(b, ts[i], d) &&
                      next[i].IsValid(g) && NoneValidBefore(g, b, ts, d, i)
    ensures !found ==> NoneValidBefore(g, b, ts, d + 1, 0) &&
                       forall k :: 0 <= k < |ts| ==> next[k] == Kicked(b, ts[k], d)
  {
    next := candidates;
    i := 0;
    while i < |ts|
      invariant 0 <= i <= |ts| && |next| == |ts|
      invariant forall k :: 0 <= k < i ==> next[k] == Kicked(b, ts[k], d)
      invariant forall k :: i <= k < |ts| ==> next[k] == Kicked(b, ts[k], d - 1)
      invariant NoneValidBefore(g, b, ts, d, i)
    {
      KickedStep(b, ts[i], d - 1);
      next := next[i := next[i].Translated(ts[i])];
      if next[i].IsValid(g) {
        found := true;
        return;
      }
      i := i + 1;
    }
    found := false;
  }

  /** The six TryRotate*WithFix operations: the turned copy is taken if it is valid, otherwise
      TryFix may move it up to three cells along one horizontal direction; on failure the block
      is unchanged. */
  method TryRotateWithFix(g: Grid, b: Block, axis: Axis, sense: Sense) returns (ok: bool, r: Block)
    requires g.WellFormed()
    ensures var t := b.Rotated(axis, sense);
      ok <==> (t.IsValid(g) ||
               exists d, k :: 1 <= d <= 3 && 0 <= k < |FixDirections(t, b)| &&
                 Kicked(t, FixDirections(t, b)[k], d).IsValid(g))
    ensures ok ==> r.IsValid(g)
    ensures ok ==> r.kind == b.kind && r.color == b.color && r.offsets == b.Rotated(axis, sense).offsets
    ensures ok ==> (r.position == b.position ||
                    exists d, u :: 1 <= d <= 3 && IsHorizontalUnit(u) &&
                      r.position == b.position.Plus(Scale(u, d)))
    ensures b.Rotated(axis, sense).IsValid(g) ==> ok && r == b.Rotated(axis, sense)
    ensures var t := b.Rotated(axis, sense);
      ok && !t.IsValid(g) ==>
        exists d, k :: 1 <= d <= 3 && 0 <= k < |FixDirections(t, b)| &&
          r == Kicked(t, FixDirections(t, b)[k], d) &&
          NoneValidBefore(g, t, FixDirections(t, b), d, k)
    ensures !ok ==> r == b
  {
    var t := Rotate(b, axis, sense);
    if t.IsValid(g) {
      ok, r := true, t;
      return;
    }
    var fixed;
    ok, fixed := TryFix(g, t, b);
    if ok {
      var ts := FixDirections(t, b);
      var d, k :| 1 <= d <= 3 && 0 <= k < |ts| && fixed == Kicked(t, ts[k], d);
      assert fixed.position == b.position.Plus(Scale(ts[k], d));
      r := fixed;
    } else {
      r := b;
    }
  }

  /** The block Create lays out for a shape, with its anchor above the board's centre at
      height y. */
  function Spawned(kind: BlockType, color: Rgb, g: Grid, y: int): Block
    requires kind != Undefined
  {
    Block(kind, Vec3(g.width / 2, y, g.depth / 2), ShapeOffsets(kind), color)
  }

  /** On a board with no settled cube nothing collides. */
  lemma EmptyBoardNoCollision(g: Grid, b: Block)
    requires g.WellFormed() && forall t :: 0 <= t < |g.cells| ==> g.cells[t] == 0
    ensures !b.IsColliding(g)
  {
    CollidingMeans(g, b);
    forall i | 0 <= i < |b.offsets| && g.Contains(b.position.Plus(b.offsets[i]))
      ensures g.IsEmpty(b.position.Plus(b.offsets[i]))
    {
      g.IndexInRange(b.position.Plus(b.offsets[i]));
    }
  }

  /** Block::Create: the shape's offsets, the anchor at the top centre lowered by the shape's
      drop, then lifted one cell at a time (possibly above the board) until it collides with
      nothing. The lift is the least one that works. */
  method Create(kind: BlockType, color: Rgb, g: Grid) returns (b: Block)
    requires kind != Undefined && g.WellFormed()
    ensures b == Spawned(kind, color, g, b.position.y)
    ensures g.height - Drop(kind) <= b.position.y
    ensures !b.IsColliding(g)
    ensures forall y :: g.height - Drop(kind) <= y < b.position.y ==>
      Spawned(kind, color, g, y).IsColliding(g)
    ensures (forall t :: 0 <= t < |g.cells| ==> g.cells[t] == 0) ==>
      b.position.y == g.height - Drop(kind)
  {
    var offs := ShapeOffsets(kind);
    var x, z := g.width / 2, g.depth / 2;
    ghost var low := g.height - Drop(kind);
    b := Block(kind, Vec3(x, g.height, z), offs, color);
    b := b.Translated(Vec3(0, -(Drop(kind) as int), 0));
    while b.IsColliding(g)
      invariant b == Block(kind, Vec3(x, b.position.y, z), offs, color)
      invariant low <= b.position.y
      invariant forall y :: low <= y < b.position.y ==>
        Block(kind, Vec3(x, y, z), offs, color).IsColliding(g)
      decreases g.height - b.position.y
    {
      LiftBelowTop(g, b);
      b := b.Translated(Up);
    }
    if forall t :: 0 <= t < |g.cells| ==> g.cells[t] == 0 {
      EmptyBoardNoCollision(g, Spawned(kind, color, g, low));
    }
  }

  /** A block Create still has to lift collides on the board, so its anchor is below the top
      (the offsets of every shape have y at least 0). */
  lemma LiftBelowTop(g: Grid, b: Block)
    requires g.WellFormed() && b.IsColliding(g)
    requires forall i :: 0 <= i < |b.offsets| ==> 0 <= b.offsets[i].y
    ensures b.position.y < g.height
  {
    CollidingMeans(g, b);
    var i :| 0 <= i < |b.offsets| && Occupied(g, b.position.Plus(b.offsets[i]));
  }

  /** The type CreateRandom picks: rand() % 7 read as a BlockType. */
  function KindOf(roll: nat): (k: BlockType)
    ensures k != Undefined
  {
    match roll % 7
    case 0 => IShape
    case 1 => LShape
    case 2 => JShape
    case 3 => OShape
    case 4 => SShape
    case 5 => TShape
    case _ => ZShape
  }

  /** One colour channel as src/game/block.cc draws it: 10 + rand() % 246. */
  function Channel(roll: nat): (c: bv8)
    ensures 10 <= c
  {
    (10 + roll % 246) as bv8
  }

  /** One colour channel as the legacy copy in src/logic.cc draws it: rand() % 256. */
  function LegacyChannel(roll: nat): bv8 {
    (roll % 256) as bv8
  }

  /** One pass of the legacy colour loop on three rolls. The draw is black exactly when every
      roll is a multiple of 256, which is why the loop draws again and CreateRandom's draws
      may begin with black ones. */
  function LegacyDraw(rollR: nat, rollG: nat, rollB: nat): (c: Rgb)
    ensures IsBlack(c) <==> rollR % 256 == 0 && rollG % 256 == 0 && rollB % 256 == 0
  {
    Rgb(LegacyChannel(rollR), LegacyChannel(rollG), LegacyChannel(rollB))
  }

  /** Every colour comes out of some legacy draw, so only the loop's test keeps black out. */
  lemma LegacyDrawReachesAll(c: Rgb)
    ensures LegacyDraw(c.r as nat, c.g as nat, c.b as nat) == c
  {
    LegacyChannelOf(c.r);
    LegacyChannelOf(c.g);
    LegacyChannelOf(c.b);
  }

  lemma LegacyChannelOf(x: bv8)
    ensures LegacyChannel(x as nat) == x
  {
    assert x as nat % 256 == x as nat;
  }

  /** A colour drawn channel by channel the src/game/block.cc way is never black, so its
      packed value reads as an occupied cell. */
  lemma ChannelColorIsStored(r: nat, g: nat, b: nat)
    ensures !IsBlack(Rgb(Channel(r), Channel(g), Channel(b)))
    ensures PackColor(Rgb(Channel(r), Channel(g), Channel(b))) != 0
  {
  }

  /** The colour loop of CreateRandom: starting from black, draw again while the colour is
      black. The draws stand for successive rand() triples. */
  method DrawColor(draws: seq<Rgb>) returns (c: Rgb, used: nat)
    requires exists i :: 0 <= i < |draws| && !IsBlack(draws[i])
    ensures 1 <= used <= |draws| && c == draws[used - 1] && !IsBlack(c)
    ensures forall i :: 0 <= i < used - 1 ==> IsBlack(draws[i])
  {
    c, used := Rgb(0, 0, 0), 0;
    while IsBlack(c)
      invariant used <= |draws|
      invariant used == 0 ==> c == Rgb(0, 0, 0)
      invariant used > 0 ==> c == draws[used - 1]
      invariant forall i :: 0 <= i < used - 1 ==> IsBlack(draws[i])
      invariant IsBlack(c) ==> forall i :: 0 <= i < used ==> IsBlack(draws[i])
      decreases |draws| - used
    {
      c := draws[used];
      used := used + 1;
    }
  }

  /** c is the first non-black colour of the draws. */
  predicate IsFirstNonBlack(c: Rgb, draws: seq<Rgb>) {
    exists u :: 0 <= u < |draws| && draws[u] == c && !IsBlack(c) &&
      forall i :: 0 <= i < u ==> IsBlack(draws[i])
  }

  /** Block::CreateRandom with rand() replaced by explicit draws: the type roll and the colour
      draws, of which some must be non-black (with src/game/block.cc channels every draw is).
      The block is the one Create builds from the rolled type and the first non-black draw. */
  method CreateRandom(g: Grid, kindRoll: nat, draws: seq<Rgb>) returns (b: Block)
    requires g.WellFormed() && exists i :: 0 <= i < |draws| && !IsBlack(draws[i])
    ensures b.kind == KindOf(kindRoll) && IsFirstNonBlack(b.color, draws)
    ensures b == Spawned(b.kind, b.color, g, b.position.y)
    ensures g.height - Drop(b.kind) <= b.position.y && !b.IsColliding(g)
    ensures forall y :: g.height - Drop(b.kind) <= y < b.position.y ==>
      Spawned(b.kind, b.color, g, y).IsColliding(g)
    ensures (forall t :: 0 <= t < |g.cells| ==> g.cells[t] == 0) ==>
      b.position.y == g.height - Drop(b.kind)
  {
    var color, used := DrawColor(draws);
    b := Create(KindOf(kindRoll), color, g);
    assert draws[used - 1] == color;
  }

  /** The drop shadow of src/game/renderer.cc:221-226: move a copy down while it is valid, then
      back up one cell. For a valid block that is the lowest valid position straight below it. */
  method DropShadow(g: Grid, b: Block) returns (s: Block)
    requires g.WellFormed() && |b.offsets| > 0
    ensures s == b.(position := b.position.(y := s.position.y))
    ensures b.IsValid(g) ==> s.position.y <= b.position.y && s.IsValid(g) && !s.Translated(Down).IsValid(g)
    ensures b.IsValid(g) ==> forall y :: s.position.y <= y <= b.position.y ==>
      b.(position := b.position.(y := y)).IsValid(g)
    ensures !b.IsValid(g) ==> s == b.Translated(Up)
  {
    s := b;
    while s.IsValid(g)
      invariant s == b.(position := b.position.(y := s.position.y))
      invariant s.position.y <= b.position.y
      invariant forall y :: s.position.y < y <= b.position.y ==>
        b.(position := b.position.(y := y)).IsValid(g)
      invariant s.position.y < b.position.y ==> b.IsValid(g)
      decreases s.position.y + b.offsets[0].y
    {
      ValidMeans(g, s);
      assert Free(g, s.position.Plus(s.offsets[0]));
      s := s.Translated(Down);
    }
    s := s.Translated(Up);
  }
}

# tetris3d rule engine in Dafny

This project models the integer rule engine of tetris3d, a falling-block game played on a
three-dimensional board, and proves properties of that model. The engine exists twice in the
repository: the `tetris3d` namespace (src/game/board.cc, src/game/block.cc, src/game/game.cc)
and an older copy in the `GameLogic` namespace (src/logic.h, src/logic.cc). The two copies
follow the same rules, and one model covers both. They differ in one place: the colour
channels `CreateRandom` draws.

The model has these parts:

- **Colours** (`colors.dfy`, module `Colors`):
  - An RGB byte triple is packed into one 32-bit board cell as `0x00RRGGBB`.
  - The value 0 marks an empty cell, so pure black is the one colour the board cannot store.
- **The board value** (`grids.dfy`, module `Grids`):
  - A board is its dimensions plus a flat sequence of `bv32` cells, layer `y` outermost.
  - This module holds the bounds check, the cell index, filling, layer queries, cutting out one layer, and the layer compaction `EraseFilledLayers` performs.
- **The board object** (`boards.dfy`, module `Boards`):
  - `Board` is a class that owns an `array<bv32>` and updates it in place with the source's loops: `Fill`, `IsLayerFilled`, `EraseLayer` and `EraseFilledLayers`.
  - Every method is proved against the board value, read off the array as `Model()`.
- **Blocks** (`blocks.dfy`, module `Blocks`):
  - A block is a value: shape, anchor position, cube offsets and colour.
  - This module holds translation, the six rotations (as a function, and as the in-place loop `Rotate`), the validity and collision checks, and the world bounds.
  - It also holds the commit-if-valid operations `TryTranslate` and `TryRotate`, the rotation kick `TryFix` with its three-round candidate loop, and `TryRotateWithFix`.
  - Placement is covered by `Create` (spawn placement with the lift loop) and `CreateRandom`, which draws the shape and colour.
  - The drop shadow loop of the renderer is modelled here too.
- **The game** (`games.dfy`, module `Games`):
  - `Game` is a class with the board, the falling block, the phase and the pause flag.
  - `SingleStep` is the six-phase state machine, and `MergeFallingBlock` writes the block into the board.
  - `CanFallingBlockFall` is modelled as written (`FallCheck`, which marks a read past the cells), and as the game steps with it: the source's answer, with a read past the cells taken as no obstacle (see Findings).
- **Input** (`inputs.dfy`, module `Inputs`): the keyboard edge detector. It keeps the current state of every key and a snapshot of it taken at the last `Update`.
- **Configuration** (`configs.dfy`, module `Configs`): `ValidateConfig`, with its error cases as values. The title is the byte sequence `std::string` holds, so its length is counted in bytes.

Modelling choices:

- **Square layers.** The board's index formula `(x*width + z) + y*width*depth` maps the board one-to-one onto its cells only when `width == depth` or `width == 1`; for `2 <= width < depth` two positions share a cell, and for `width > depth` the last positions index past the cells. The default board is 7 by 7 by 18. `Grid.WellFormed` and `Board.Valid` therefore require square layers. The index lemmas are proved for the row-major `Grid.Index`, which equals the source's formula on square layers.
- **Non-empty layers.** `EraseFilledLayers` requires a layer width of at least 1. With empty layers every layer is vacuously full, the scan re-checks the same index for ever, and the source never returns.
- **Asserts become preconditions.** The source asserts the block is not `Undefined` in `Create` and that the block is invalid in `TryFix`. These become `requires` clauses.
- **Randomness becomes parameters.** `rand()` is replaced by input: a roll for the shape and a sequence of colour draws, at least one of them non-black. With the `tetris3d` channels, `10 + rand() % 246`, every draw is non-black (`ChannelColorIsStored`). With the `GameLogic` channels, `rand() % 256`, the resample loop `DrawColor` skips black draws.
- **Value semantics for the Try operations.** `TryTranslate` and `TryRotate` are functions that return the success flag and the resulting block. The game stores the falling block as a field that is swapped as a whole.

## Model

| member | source | states |
|---|---|---|
| Colors.PackColor | src/game/color.h:21-23 | the packed value is below 2^24 (top byte zero), and it is 0 exactly for black |
| Colors.ChannelsOfPack | src/game/color.cc:7-9 | masking and shifting the packed value gives back the red, green and blue bytes |
| Colors.Channels | src/game/color.cc:7-9 | definition: red is bits 16-23 of the cell value, green bits 8-15 and blue bits 0-7; Colors.ChannelsOfPack states that it inverts PackColor |
| Colors.PackInjective | src/game/color.h:21-23 | different colours pack to different cell values |
| Grids.SourceIndexCollides | src/game/board.cc:29-32 | as written, with 2 <= width < depth two different on-board positions, (1,0,0) and (0,0,width), share a cell index |
| Grids.SourceIndexOverruns | src/logic.h:119-122 | as written, with width > depth the last on-board position indexes at or past width*depth*height |
| Grids.SourceIndex | src/game/board.cc:29-32 | definition: the source's formula (x*width + z) + y*width*depth on integer positions (its float evaluation is under Left out), used by the two lemmas above and by the fall check as written |
| Grids.Grid.Contains | src/game/board.cc:19-27 | definition: a position is on the board iff 0 <= x < width, 0 <= y < height and 0 <= z < depth, every other position is rejected |
| Grids.Grid.Index | src/game/board.cc:29-32 | definition: the row-major index (x*depth + z) + y*width*depth; the three lemmas below state that it stays in range, is injective and equals the source's formula on square layers |
| Grids.Grid.IsEmpty | src/game/board.cc:14-17 | definition: a position on the board is empty iff its cell holds 0 |
| Grids.Grid.Filled | src/game/board.cc:9-12 | the board with cell p set to v keeps its dimensions and stays well formed; Grids.Grid.FilledEffect states what it reads afterwards |
| Grids.Grid.IsLayerFilled | src/game/board.cc:73-83 | definition: every cell of layer k is non-zero, as Grids.Grid.LayerFilledIffCellsOccupied states cell by cell |
| Grids.Grid.WithoutLayer | src/game/board.cc:49-70 | erasing a layer keeps the board's dimensions and leaves it well formed; Grids.Grid.WithoutLayerLayers and WithoutLayerAt state its contents |
| Grids.Grid.IndexInRange | src/game/board.cc:19-32 | every position Contains accepts (0 <= x < width, 0 <= y < height, 0 <= z < depth) has an index inside the cells |
| Grids.Grid.IndexInjective | src/game/board.cc:29-32 | distinct positions on the board have distinct cell indices |
| Grids.Grid.IndexIsSourceIndex | src/logic.h:119-122 | on square layers the row-major index equals the source's formula |
| Grids.Grid.FilledEffect | src/game/board.cc:9-17 | after Fill(p, v), IsEmpty(p) holds iff v == 0, and every other position reads as before |
| Grids.Grid.LayerFilledIffCellsOccupied | src/game/board.cc:73-83 | layer k is filled iff every (x, z) cell of it is non-zero |
| Grids.Grid.WithoutLayerLayers | src/game/board.cc:49-70 | erasing layer k keeps the layers below k, moves each layer above k down one, and leaves a cleared top layer |
| Grids.Grid.WithoutLayerAt | src/logic.h:139-162 | the same per cell: cells below layer k are unchanged, the next ones are those one layer up, and the top layer is zero |
| Grids.Grid.PaintedCell | src/game/game.cc:264-270 | after writing v at a list of positions, a board cell holds v iff it is one of them, and is unchanged otherwise |
| Grids.Kept | src/game/board.cc:36-47 | EraseFilledLayers keeps at most as many layers as there were, and none of them is full |
| Grids.KeptPlusFullCount | src/game/board.cc:36-47 | every layer is either kept or counted as erased |
| Grids.NoFullLayer | src/game/board.cc:36-47 | the erase count is 0 iff no layer was full |
| Grids.CompactedShape | src/game/board.cc:36-47 | compaction keeps the number of layers and, for non-empty layers, leaves no full one |
| Grids.CompactedUnchangedIff | src/game/board.cc:36-47 | compaction leaves the layers unchanged iff none was full |
| Grids.CompactedGrid | src/logic.h:126-137 | a board compacted this way has no filled layer, and equals the old board iff the count is 0 |
| Boards.Board.constructor | src/game/board.cc:5-7 | a new board has exactly width*depth*height cells, all zero |
| Boards.Board.IsEmpty | src/game/board.cc:14-17 | reading the array cell at the source's index agrees with the board value's IsEmpty |
| Boards.Board.Fill | src/game/board.cc:9-12 | the array afterwards is the old board with that one cell set to v |
| Boards.Board.IsLayerFilled | src/game/board.cc:73-83 | the row-by-row scan returns exactly whether the layer is filled |
| Boards.Board.EraseLayer | src/game/board.cc:49-70 | the clearing loop and the copy-down loops leave exactly the board without layer k, cleared at the top |
| Boards.Board.EraseFilledLayers | src/game/board.cc:36-47 | the new layers are the non-full layers in their old order, with cleared layers above. The result is the number of full layers. No layer is left filled. The result is 0 iff the board is unchanged |
| Blocks.ShapeOffsets | src/game/block.cc:24-82 | each shape has 8 distinct cubes for the O shape and 4 otherwise, the first at the anchor, all at offset height 0 or 1 |
| Blocks.TurnFormulas | src/game/block.cc:117-169 | the negate-then-swap steps are the six quarter turns: X cw (x,z,-y), X ccw (x,-z,y), Y cw (-z,y,x), Y ccw (z,y,-x), Z cw (y,-x,z), Z ccw (-y,x,z) |
| Blocks.TurnOffsetBack | src/logic.cc:113-165 | turning an offset one way, then the other way about the same axis, restores it |
| Blocks.TurnOffsetFour | src/game/block.cc:117-124 | four clockwise turns about one axis restore an offset |
| Blocks.Block.Translated | src/game/block.cc:115 | translation moves the anchor by exactly v and keeps shape, offsets and colour |
| Blocks.Block.Rotated | src/game/block.cc:117-169 | a rotation is the identity on an O shape, otherwise turns every offset; anchor, shape, colour and number of offsets never change |
| Blocks.Rotate | src/game/block.cc:117-124 | the in-place loop over the offsets yields exactly the rotated block |
| Blocks.RotateBack | src/logic.cc:113-165 | rotating a block one way and then the other about the same axis restores it |
| Blocks.RotateFour | src/game/block.cc:117-169 | four clockwise rotations about one axis restore a block |
| Blocks.TranslateAlgebra | src/game/block.cc:115 | translating by v and then by -v restores a block, and translations compose by adding |
| Blocks.Block.IsValid | src/game/block.cc:307-315 | definition: every cube is on the board and on an empty cell (Blocks.ValidMeans states it per cube) |
| Blocks.Block.IsColliding | src/game/block.cc:317-325 | definition: some cube is on the board and on an occupied cell (Blocks.CollidingMeans states it per cube) |
| Blocks.ValidMeans | src/game/block.cc:307-315 | IsValid holds iff every cube is on the board and on an empty cell |
| Blocks.CollidingMeans | src/game/block.cc:317-325 | IsCollidingWithOtherBlocks holds iff some cube is on an occupied board cell |
| Blocks.ValidIsNotColliding | src/logic.cc:303-321 | a valid block collides with nothing |
| Blocks.Lowest | src/game/block.cc:370-382 | the running minimum is below the start and every cell, and is the start or some cell's value |
| Blocks.Highest | src/game/block.cc:370-382 | the running maximum is above the start and every cell, and is the start or some cell's value |
| Blocks.Block.WorldBounds | src/game/block.cc:370-382 | definition: the running minimum and maximum of every component over the block's cells, from INT_MAX and INT_MIN; Blocks.WorldBoundsExtremes states their meaning |
| Blocks.WorldBoundsExtremes | src/game/block.cc:370-382 | for a non-empty block in the 32-bit range the bounds are the component-wise minimum and maximum of its cells, each attained by some cell |
| Blocks.Block.TryTranslate | src/game/block.cc:171-179 | success iff the moved copy is valid; on success the block is that copy, otherwise unchanged |
| Blocks.Block.TryRotate | src/game/block.cc:181-239 | success iff the turned copy is valid; on success the block is that copy, otherwise unchanged |
| Blocks.TryKeepsValid | src/logic.cc:167-235 | TryTranslate and TryRotate keep a valid block valid, whether or not they succeed |
| Blocks.FixDirections | src/game/block.cc:333-352 | at most four queued directions, each a horizontal unit vector, in the order +x, -x, +z, -z |
| Blocks.TryFix | src/game/block.cc:327-368 | success iff some queued direction at some distance 1 to 3 gives a valid block; on success the result is valid, is that kick, and no kick at a smaller distance or earlier in the queue at the same distance is valid (shortest fix first); on failure the block is unchanged |
| Blocks.KickSearch | src/game/block.cc:354-367 | the three rounds of the candidate loop find a valid kick iff one exists within distance 3, and the first in round-then-queue order |
| Blocks.KickRound | src/game/block.cc:358-365 | one round moves the candidates one step each, in queue order, and stops at the first valid one |
| Blocks.TryRotateWithFix | src/game/block.cc:241-305 | success iff the rotated block or one of its kicks within distance 3 is valid. On success the block is valid with the rotated offsets, shape and colour, and its anchor is moved by d times a horizontal unit, d in 1..3, or not at all. A valid rotation is taken as is; otherwise the block is the first valid kick by distance and then queue order, as TryFix finds it. On failure the block is unchanged |
| Blocks.EmptyBoardNoCollision | src/game/block.cc:84-90 | on an all-empty board no block collides |
| Blocks.Create | src/game/block.cc:16-93 | the shape's offsets, anchor (w/2, y, d/2) with y at least h minus the drop (1 for I, 2 otherwise). The result collides with nothing, every lower lift collides, and on an empty board y is exactly h minus the drop |
| Blocks.LiftBelowTop | src/game/block.cc:88-90 | a block the lift loop still has to raise has its anchor below the top, so the loop ends |
| Blocks.KindOf | src/game/block.cc:96-98 | the drawn type is never Undefined |
| Blocks.Channel | src/game/block.cc:106-111 | a channel drawn as 10 + rand() % 246 is at least 10 |
| Blocks.ChannelColorIsStored | src/game/block.cc:106-111 | such a colour is never black, so its packed value reads as an occupied cell |
| Blocks.LegacyDraw | src/logic.cc:104-106 | one pass of the legacy loop draws black exactly when all three rolls are multiples of 256 |
| Blocks.LegacyDrawReachesAll | src/logic.cc:104-106 | every colour, black included, is the draw of some rolls, so only the loop's test keeps black out |
| Blocks.DrawColor | src/logic.cc:102-107 | the resample loop returns the first non-black draw |
| Blocks.CreateRandom | src/game/block.cc:95-113 | the block has the rolled type and the first non-black draw as its colour. It is placed as Create places it: not colliding, every lower lift collides, and on an empty board it sits exactly at height h minus the drop |
| Blocks.DropShadow | src/game/renderer.cc:221-226 | only the height changes. For a valid block the shadow is valid, sits at or below it, is blocked one cell lower, and every height between the two is valid. For an invalid block it is the block one cell up |
| Games.FallCheck | src/game/game.cc:244-262 | definition: CanFallingBlockFall as written, reading each below-cell through the source's formula; None marks a read past the cells |
| Games.CanFallingBlockFall | src/game/game.cc:244-262 | the check the game steps with: wherever the source's reads stay inside the cells, including off-board positions its formula maps onto other cells, it gives the source's answer; only a read past the cells is taken as no obstacle |
| Games.GuardedFallOnValid | src/game/game.cc:244-254 | for a valid block it is the geometric check CanFall |
| Games.NarrowBoardStopsFall | src/game/game.cc:229-236 | on a 3x3x4 board with cell 7 occupied, an I shape at height 2 reaches x = -1, whose below-cell the source's formula maps to cell 7: the block cannot fall and is invalid, so the step loses |
| Games.CanFall | src/logic.cc:572-590 | definition: every cube's below-cell is skipped at height 50 or more, or is at height 0 or more and either off the board or empty; Games.FallCheckOnValid states that the source's check agrees with it on valid blocks |
| Games.FallReadsAgree | src/game/game.cc:244-254 | over the board's x-z square, the loop as written reads outside the cells only for a below-cell between the top and height 50. When it reads nothing outside, it answers whether every below-cell is open, as CanFall does |
| Games.FallCheckOnValid | src/game/game.cc:244-262 | for a valid block every read of CanFallingBlockFall is on the board, and its answer is CanFall |
| Games.FallReadsTrueAboveFloor | src/game/game.cc:255-259 | when the first loop answers true, the assertion of the second loop holds for every cube |
| Games.FallKeepsValid | src/game/game.cc:237-240 | on a board at most 51 high, a valid block that CanFallingBlockFall lets fall is valid one cell lower |
| Games.TallBoardFallsIntoCube | src/game/game.cc:248-249 | as written, on a 1x1x52 board with cell 50 occupied, a valid one-cube block at height 51 has its below-cell skipped, so the check lets it fall onto the occupied cell |
| Games.LiftedOIsSpawned | src/game/block.cc:84-90 | on a 7x7x18 board with (2,17,3) occupied, an O shape collides at heights 16 and 17 and not at 18 |
| Games.CreateLiftsO | src/game/block.cc:16-93 | so Create returns that O shape at height 18, above the board |
| Games.LiftedOReadsOutside | src/game/game.cc:251 | as written, with (3,17,3) empty, CanFallingBlockFall on that block reads cell 906 of 882 |
| Games.OneCubeBoardLifts | src/config.h:51-53 | the default 7x7x18 board with a single cube at (2,17,3) meets both conditions |
| Games.Merged | src/game/game.cc:264-270 | merging keeps the board's shape |
| Games.MergedCell | src/logic.cc:592-597 | after a merge a cell holds the packed colour iff the block covers it, and is unchanged otherwise; with a non-black colour exactly the block's cells become occupied |
| Games.Game.constructor | src/game/state.h:12-37 | a new game has an empty board of the configured size, an Undefined block, phase Uninitialized and is not paused |
| Games.Game.MergeFallingBlock | src/game/game.cc:264-270 | the loop of Fill calls leaves exactly the merged board |
| Games.Game.SingleStep | src/game/game.cc:204-242 | Lost is absorbing. From Uninitialized or LayersErase a block is spawned, giving NewBlockCreation with the board unchanged. From BlockMerge the board is compacted: LayersErase with the block unchanged if some layer was full, otherwise a spawn. From NewBlockCreation or BlockFalling the block falls one cell (BlockFalling, board unchanged) if CanFallingBlockFall allows it; otherwise an invalid block gives Lost with the board unchanged and a valid one is merged (BlockMerge). The pause flag never changes |
| Inputs.Input.constructor | src/input.cc:7-10 | after construction every key is released in both arrays, and no key is down or pressed |
| Inputs.Input.Update | src/input.cc:12 | the snapshot becomes a copy of the current state; no key's down state changes and afterwards no key is pressed |
| Inputs.Input.OnKeyChanged | src/input.cc:14-17 | a release makes the key up and any other action (press or repeat) makes it down; no other key and not the snapshot changes |
| Inputs.Input.IsKeyDown | src/input.cc:19-22 | definition: a key is down iff its current state is a press; OnKeyChanged, Update and the constructor state their effect through it |
| Inputs.Input.IsKeyPressed | src/input.cc:24-27 | a pressed key is down |
| Configs.ValidateConfig | src/config.cc:9-19 | a title is accepted iff its length in bytes is 1 to 50. The empty title gets the empty-title error, and exactly the titles longer than 50 bytes get the too-long error with their length |
| Configs.DefaultConfigIsValid | src/config.h:19-60 | the default title passes, and the default board has square layers at least one cell wide |

## Left out

- Game::Update (src/game/game.cc:52-202, src/logic.cc:380-530) is not modelled. Its timers are floating point, and the axis selection uses normalised float vectors. So the pause toggle and the key handling live only there, and the model has no rule that changes `paused`.
- Rendering, the camera and the application plumbing (window, event loop, timing) are left out as graphics, floating point and I/O. The drop-shadow loop is the only part modelled.
- `rand()` is replaced by explicit rolls and colour draws.
- Blocks.KindOf: models `rand() % 7` on a non-negative roll, with no generator state.
- FromPackedColorToColor: the division by 255.0 is floating point and is left out. Only the integer mask and shift are modelled (Channels).
- Configs.ValidateConfig: the error message text is left out. The errors are values, not exceptions.
- Inputs.Input.OnKeyChanged: `scancode` and `mods` are parameters the source ignores. The key range 0..GLFW_KEY_LAST is a precondition of every operation, matching the source's asserts and its unchecked write.
- Blocks.WorldBoundsExtremes: 32-bit wrap-around of `glm::ivec3` components is not modelled. Positions are unbounded integers, and the bounds lemma assumes every cell is within the 32-bit range.
- Grids.SourceIndex: the source computes PositionToIndex in single-precision float from a `glm::vec3` and converts the result to `size_t`. The model uses exact integers, which agree with the float computation while the index stays below 2^24, so on every board under 2^24 cells. A negative index, whose conversion is undefined behaviour in the source, is one of the reads past the cells that FallReads marks as None.
- Games.FallReadsTrueAboveFloor: the second loop of CanFallingBlockFall only asserts. The model states that the assertion holds after a true answer, rather than modelling an abort.
- Games.FallKeepsValid: holds only on boards at most 51 layers high. CanFallingBlockFall skips every below-cell at height 50 or more, even one on the board, so on a taller board a block can fall into an occupied cell (Games.TallBoardFallsIntoCube). The model keeps the skip, as the source does, because its intent is not evident from the source and the configured board is 18 high.
- Games.Game.SingleStep: where CanFallingBlockFall as written reads past the end or before the start of the cells, which is undefined behaviour in the source, the model reads that cell as empty. Everywhere else it decides as the source does, including where the source's formula maps an off-board position onto another cell (Games.NarrowBoardStopsFall).
- A default-constructed `glm::ivec3` position is uninitialised in the source. The model's default block has anchor (0,0,0) and no cubes.
- IsFallingBlockOutOfBounds and the rest of the game header are not part of this model.

## Findings

| source | as written | input that shows it | evidently intended | confidence | as-written member | corrected member |
|---|---|---|---|---|---|---|
| src/game/board.cc:29-32 | the row index x is scaled by width: `(x*width + z) + y*width*depth` | width 2, depth 3: positions (1,0,0) and (0,0,2) both get index 2; width 3, depth 2, height 1: position (2,0,1) gets index 7 of 6 cells | row-major `(x*depth + z) + y*width*depth`, injective and in range for every shape | not executed | Grids.SourceIndexCollides | Grids.Grid.IndexInjective |
| src/game/game.cc:251 | CanFallingBlockFall calls IsEmpty on the below-cell with no Contains check | 7x7x18 board, one cube at (2,17,3), (3,17,3) empty: Create lifts an O shape to (3,18,3), and the read for its cube at (3,19,3) is cell 906 of 882 | a below-cell past the cells is no obstacle; only the floor and occupied cells stop the fall, and for a valid block the check is the geometric CanFall (Games.GuardedFallOnValid) | not executed | Games.LiftedOReadsOutside | Games.CanFallingBlockFall |

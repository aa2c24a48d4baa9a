# Minesweeper game core, modelled in Dafny

This project models the game logic of a small Minesweeper written in Rust on
the Bevy engine. It covers:

- the board dimensions (`GridSize`);
- the slot table that maps cells to tile entities (`Grid`), with its resize
  algorithm and its cell and pixel lookups;
- the four tile states (`Tile`) and their sprite-sheet frame numbers;
- the difficulty presets (`Difficulty`);
- the game systems that drive a round: spawning the grid, refilling it on
  `Start`, handling clicks in `Run`, and revealing the mines on `Over`.

The Bevy world becomes one object, `Game.World`. It holds:

- the `GameState` and `Difficulty` resources;
- the `Tile` component of every tile entity ever spawned, as a sequence
  indexed by entity id;
- the one `Grid` component.

Entities are natural numbers. Spawning a tile appends a `Default` tile.

Files and modules:

- `gridsize.dfy` (`GridSizes`): board size, row-major slot numbering, and its inverse.
- `tile.dfy` (`Tiles`): tile states and frame numbers.
- `difficulty.dfy` (`Difficulties`): the presets.
- `grid.dfy` (`Grids`): the `Grid` class. `Grid.Resize` is proved against the pure
  function `Resized`, and the lemmas about resizing are stated on that function.
- `game.dfy` (`Game`): the `World` class and the systems.
  - `UpdateGrid` is proved against the result of the resize, through the walk
    invariant `Rebuilt`.
  - `RevealMines` is proved against `CountResolved` and `Candidates`.

Points where the model makes a behaviour of the code explicit:

- `Grid::resize` compares capacities only. When the new size has the same
  capacity as the old one (8x8 to 4x16, say), a reader might expect the new
  shape to be recorded, but the code returns before assigning `grid_size`.
  `Grids.Resized` keeps the old size, and `Grids.ResizedSameCapacityExample`
  states the 8x8 to 4x16 case. `update_grid` then walks the old shape.
- Shrinking the grid only detaches the evicted tiles from the grid entity. They
  stay spawned with their `Tile` component. They therefore stay in
  `World.tiles`, and `reveal_mines`, which scans every tile entity, still
  counts them.
- `reveal_mines` counts `want` down in a `usize`. More `Mine`/`Boom` tiles than
  the difficulty's mine count make it underflow. That panics in debug builds.
  In release builds it wraps around, `truncate(want)` then keeps every
  candidate, and every `Default` or `Flag` tile becomes a `Mine`; that outcome
  is not modelled. The model makes the no-underflow condition a precondition
  of `RevealMines`.
- `setup_components` calls `Grid::new`, which is not part of this model;
  `Grid::spawn` in `grid.rs` builds the same struct. The constructor
  `Grids.Grid.constructor` models that struct: all slots empty.
- Pixel arithmetic is on integers. The tile size is 24 pixels (set at start-up in
  `src/main.rs`), and the grid is laid out 12 pixels from the window corner.

## Model

| member | source | states |
|---|---|---|
| GridSizes.GridSize.New | src/game/grid/mod.rs:11-13 | reading back columns and rows gives the constructor's arguments |
| GridSizes.GridSize.Columns | src/game/grid/mod.rs:16 | accessor of the column count, with no contract of its own; `GridSize.New` states that it reads back the constructor's argument |
| GridSizes.GridSize.Rows | src/game/grid/mod.rs:19 | accessor of the row count, with no contract of its own; `GridSize.New` states that it reads back the constructor's argument |
| GridSizes.GridSize.Capacity | src/game/grid/mod.rs:22 | a board has no cells exactly when it has no columns or no rows |
| GridSizes.GridSize.IndexOf | src/game/grid/mod.rs:25-27 | the cells of row `row` take the `cols` consecutive slots from `row * cols` on |
| GridSizes.IndexOfInRange | src/game/grid/mod.rs:22-27 | every in-range cell's row-major slot number `col + row * cols` is below the capacity `cols * rows` |
| GridSizes.IndexOfInjective | src/game/grid/mod.rs:25-27 | distinct in-range cells get distinct slot numbers |
| GridSizes.CellOfIndexOf | src/game/grid/mod.rs:25-27 | the slot number of an in-range cell decodes back to that cell |
| GridSizes.IndexOfCellOf | src/game/grid/mod.rs:22-27 | every slot below the capacity is the slot number of exactly the in-range cell it decodes to, so slot numbering is a bijection |
| Tiles.Tile.Index | src/game/grid/tile.rs:20-28 | the frame number of every state is below 4 |
| Tiles.All | src/game/grid/tile.rs:15-18 | the four states in frame order: position i holds the state of frame i, and every state appears at its frame |
| Tiles.IndexTable | src/game/grid/tile.rs:20-28 | Default, Flag, Mine, Boom are frames 0, 1, 2, 3 |
| Tiles.IndexInjective | src/game/grid/tile.rs:20-28 | two states have the same frame number exactly when they are equal |
| Tiles.Tile.Hash | src/game/grid/tile.rs:35-39 | the value written to the hasher is one of the four frame numbers |
| Tiles.HashConsistentWithEq | src/game/grid/tile.rs:35-39 | hashing writes only the frame number, and two tiles hash alike exactly when they are equal |
| Difficulties.Difficulty.Size | src/game/mod.rs:22-30 | a custom difficulty returns its size as given; every preset is at least 8x8 |
| Difficulties.Difficulty.Mines | src/game/mod.rs:33-41 | a custom difficulty returns its mine count as given; every preset has at least one mine and fewer mines than cells |
| Difficulties.DefaultDifficulty | src/game/mod.rs:50-52 | the default difficulty is an 8x8 board with 10 mines |
| Difficulties.PresetTable | src/game/mod.rs:22-41 | Beginner is 8x8 with 10 mines, Intermediate 16x16 with 40, Expert 32x16 with 100 |
| Difficulties.CustomUnvalidated | src/game/mod.rs:22-41 | a custom size and mine count come back unvalidated, even more mines than cells |
| Grids.Occupants | src/game/grid/grid.rs:56-60 | the occupants of a slot table are exactly the entities of its occupied slots, and there are no more of them than slots |
| Grids.OccupantsStep | src/game/grid/grid.rs:56-60 | widening the window of evicted slots by one slot appends that slot's entity, if it holds one, to the evicted list |
| Grids.OccupantsFill | src/game/game.rs:92-96 | filling one empty slot adds exactly one occupant |
| Grids.OccupantsFull | src/game/game.rs:82-99 | a table with every slot occupied has one occupant per slot |
| Grids.Resized | src/game/grid/grid.rs:43-64 | the result reports no change exactly when the capacities are equal, growth exactly when the new capacity is larger, and the recorded size becomes the new one unless nothing changed |
| Grids.ResizedValid | src/game/grid/grid.rs:43-64 | after a resize the table is again exactly as long as the capacity of the recorded size |
| Grids.ResizedSameCapacity | src/game/grid/grid.rs:44-48 | equal capacity changes nothing and reports no change, not even the recorded size |
| Grids.ResizedSameCapacityExample | src/game/grid/grid.rs:44-48 | an 8x8 board resized to 4x16 keeps the recorded size 8x8 and its table |
| Grids.ResizedGrow | src/game/grid/grid.rs:50-54 | growing records the new size, keeps the old slots as a prefix, appends empty slots up to the new capacity, and reports how many were added |
| Grids.ResizedShrink | src/game/grid/grid.rs:50-63 | shrinking records the new size, keeps the first new-capacity slots, and reports in slot order exactly the entities of the occupied slots cut off |
| Grids.ResizedBounded | src/game/grid/grid.rs:43-64 | a resize brings in no entity: a bound on the entities of the old table bounds the new one |
| Grids.ResizedIdempotent | src/game/grid/grid.rs:43-64 | resizing a second time to the same size reports no change and changes nothing |
| Grids.ShrinkThenGrow | src/game/grid/grid.rs:43-64 | shrinking and growing back restores size and capacity and the kept prefix, but the dropped slots come back empty |
| Grids.Grid.constructor | src/game/grid/grid.rs:20-28 | a new grid has the given size and tile size and one empty slot per cell |
| Grids.Grid.Capacity | src/game/grid/grid.rs:31 | under the invariant, the capacity is the length of the slot table |
| Grids.Grid.Size | src/game/grid/grid.rs:34 | under the invariant, the recorded size's capacity is the length of the slot table |
| Grids.Grid.Resize | src/game/grid/grid.rs:43-64 | the new size, the new slot table and the result are those of `Resized` on the old size and table, and the invariant is kept |
| Grids.Grid.Insert | src/game/grid/grid.rs:66-68 | exactly the cell's slot now holds the entity, the size is unchanged, and looking the cell up returns the entity |
| Grids.Grid.GetTile | src/game/grid/grid.rs:71-82 | a tile is found only at an in-range cell whose slot exists, and it is the entity in that slot |
| Grids.GetTileInRange | src/game/grid/grid.rs:71-82 | under the invariant every in-range cell has a slot, and the lookup returns that slot's content |
| Grids.Grid.GetTileXY | src/game/grid/grid.rs:85-94 | pixels left of or below the grid, or at or beyond its width (columns times tile width) or height, find no tile; a tile found is one of the grid's |
| Grids.FloorDivBelow | src/game/grid/grid.rs:90-93 | the floored pixel column is below the column count exactly when the pixel is below the grid width |
| Grids.GetTileXYInCell | src/game/grid/grid.rs:85-94 | every pixel inside the square of cell (col, row) finds that cell's tile |
| Game.CountResolved | src/game/game.rs:193-207 | the number of `Mine` and `Boom` tiles is at most the number of tiles |
| Game.CountResolvedUpdate | src/game/game.rs:212-215 | overwriting one tile changes the count by what the old and new states contribute |
| Game.CountResolvedPointwise | src/game/game.rs:193-207 | turning `Mine` into `Boom` leaves the count unchanged, and so does any change that keeps which tiles are resolved |
| Game.CountResolvedPrefix | src/game/game.rs:193-207 | a prefix of the tiles has no more resolved tiles than the whole, so `want` cannot underflow during the scan |
| Game.ScanCandidates | src/game/game.rs:193-206 | scanning one more tile adds it to the candidates exactly when it is neither `Boom` nor `Mine` |
| Game.ScanCount | src/game/game.rs:193-206 | scanning one more tile adds one to the resolved count exactly when it is `Boom` or `Mine`, and the count so far stays within the whole count |
| Game.DetonatedStep | src/game/game.rs:199-202 | scanning one more tile turns it into `Boom` if it is a `Mine` and changes nothing else |
| Game.Candidates | src/game/game.rs:191-206 | the collected entities are exactly the tiles that are neither `Mine` nor `Boom`, in increasing entity order; their number plus the resolved count is the tile count |
| Game.Toggled | src/game/game.rs:165-171 | a right click swaps `Default` and `Flag` and leaves `Mine` and `Boom` alone |
| Game.ToggledTwice | src/game/game.rs:165-171 | two right clicks give a tile back its state |
| Game.KeepsReadyTrans | src/game/game.rs:82-99 | a slot that stays ready through two steps of the walk stays ready through both |
| Game.ColumnReadyStep | src/game/game.rs:83-98 | once the next row's cell is ready, one more cell of the column is ready |
| Game.ColumnReadyKeep | src/game/game.rs:82-99 | rebuilding later cells leaves the cells already rebuilt ready |
| Game.RebuiltStep | src/game/game.rs:87-97 | one cell of the walk keeps the walk's invariant, leaves its cell holding a `Default` tile, and unreadies no other cell |
| Game.ResetStep | src/game/game.rs:87-91 | resetting an occupied cell's tile keeps the walk's invariant and leaves the cell ready |
| Game.SpawnStep | src/game/game.rs:92-96 | spawning into an empty cell keeps the walk's invariant, counts one more occupant, and leaves the cell ready |
| Game.SpawnChanged | src/game/game.rs:92-96 | spawning changes no earlier tile, and every earlier occupant keeps its slot |
| Game.SpawnKeepsReady | src/game/game.rs:92-96 | filling an empty slot with a new `Default` tile unreadies no slot |
| Game.SpawnDistinct | src/game/game.rs:92-96 | an entity above every entity in the table, put into one slot, shares that slot's tile with no other filled slot |
| Game.AllColumnsReady | src/game/game.rs:82-99 | once every column is ready, every slot of the table holds a `Default` tile |
| Game.RebuiltDone | src/game/game.rs:82-104 | at the end of the walk occupied slots keep their tile, distinct empty slots hold distinct new tiles, one tile was spawned per empty slot, and tiles outside the grid are untouched |
| Game.ClickTargetInCell | src/game/game.rs:142-152 | a click anywhere in the 24x24 square of a cell, 12 pixels in from the corner, targets that cell's tile |
| Game.World.ClickTarget | src/game/game.rs:142-152 | with no cursor there is no target, and a target is always a tile of the grid |
| Game.World.constructor | src/game/game.rs:28-30 | the plugin starts in `Setup` with the default difficulty, no tiles and no grid |
| Game.World.ChangeTile | src/game/grid/tile.rs:30-32 | the tile takes the new state, whatever it was, and nothing else changes |
| Game.World.ChangeDifficulty | src/game/mod.rs:44-47 | the difficulty is replaced as a whole, and nothing else changes |
| Game.World.SpawnTile | src/game/grid/tile.rs:73-86 | a new entity, one past the last, gets a `Default` tile, and nothing else changes |
| Game.World.SetupComponents | src/game/game.rs:57-65 | leaving `Setup` spawns a fresh grid of the difficulty's size and 24-pixel tiles, with every slot empty |
| Game.World.RebuildCell | src/game/game.rs:87-97 | an occupied cell keeps its tile, which is reset to `Default`; an empty cell gets a newly spawned `Default` tile; nothing else changes |
| Game.World.RebuildColumn | src/game/game.rs:83-98 | every row of the column ends up ready, the walk's invariant is kept, and no earlier cell is unreadied |
| Game.World.RebuildCells | src/game/game.rs:82-99 | every slot of the grid ends up occupied by a `Default` tile, and the walk's invariant is kept |
| Game.World.UpdateGrid | src/game/game.rs:68-105 | the grid has the size and table length `Resized` gives, every slot holds a `Default` tile, occupied slots keep their entity, distinct empty slots get distinct new entities, one tile is spawned per empty slot, and tiles outside the grid are untouched |
| Game.World.UpdateUi | src/game/game.rs:107-124 | once the grid is laid out the game moves on to `Run`, and nothing else changes |
| Game.World.StartGame | src/game/game.rs:33-42 | the start-up request for `Start` ends in `Run` with a fresh grid of the difficulty's size whose cells hold pairwise distinct, newly spawned `Default` tiles, one spawned per cell, and the earlier tiles untouched |
| Game.World.HandleGridClick | src/game/game.rs:126-175 | with no click or no tile under the cursor nothing changes; a left click turns the tile into `Boom` and ends the game; otherwise a right click toggles the tile's flag |
| Game.World.DetonateKnownMines | src/game/game.rs:190-207 | every `Mine` becomes `Boom` and every other tile is unchanged; `want` is the mine count minus the `Mine`/`Boom` tiles; the other tiles are collected in entity order |
| Game.World.PlaceMines | src/game/game.rs:212-215 | exactly the chosen tiles become `Mine`, and the resolved count grows by the number chosen |
| Game.World.RevealMines | src/game/game.rs:186-216 | known mines become `Boom`; for every shuffle, the first `want` shuffled candidates become `Mine` and the rest keep their state; afterwards exactly min(mine count, tile count) tiles are `Mine` or `Boom` |

## Left out

- Rendering, sprites, transforms and window layout are left out. That covers
  `update_tile_sprite`, the tile translations set in `update_grid`, the window
  sizing and centring in `update_ui`, and `Grid::width`/`Grid::height`, which
  serve only that sizing. They are presentation, not game logic.
- The Bevy scheduler is reduced to the wiring of the plugin. Each system
  becomes a method with the state it runs in as a precondition. `StartGame`
  chains the systems that run on leaving `Setup` and on entering `Start`.
  Deferred commands take effect at once.
- Entity ids are naturals in spawn order, and the ECS query order is taken to
  be entity order. Bevy fixes neither.
- The shuffle of `reveal_mines` uses a random generator. It is a permutation
  parameter, and the contract holds for every permutation.
- Pixel coordinates are integers rather than `f32`, and the tile size is a
  natural. Float rounding and the cast of a floored float to `usize` are not
  modelled.
- `usize` overflow of `cols * rows` and of `col + row * cols` is not modelled.
  Sizes are unbounded naturals.
- Game.World.RevealMines: the `usize` underflow of `want` is a precondition,
  not an error path. It panics in debug builds; in release builds it wraps and
  every candidate becomes a mine, which is not modelled.
- Game.World.UpdateGrid: states that distinct empty slots get distinct new
  tiles and that one tile is spawned per empty slot, but not in so many words
  that every spawned tile sits in a slot (which follows from the two by
  counting).
- Grids.Grid.constructor: requires a positive tile size. The program passes the
  24-pixel size set at start-up; a zero size would make the floored division
  in `get_tile_xy` meaningless.
- Tiles.Tile.Hash: modelled as the frame number written to the hasher. The
  hasher itself is not modelled.
- Printing the new difficulty in `Difficulty::change` is left out.
- Asset loading, the UI digits and edges, and the camera are not part of this model.

/**
 * The game systems, with the ECS plumbing replaced by an explicit world
 * object: the `GameState` and `Difficulty` resources, the `Tile` component of
 * every spawned tile entity (indexed by entity id) and the one `Grid`.
 */
module Game {
  import opened GridSizes
  import opened Tiles
  import opened Difficulties
  import opened Grids

  datatype GameState =
    | Setup  // load assets etc.
    | Start  // start a new game, reset the previous one
    | Run    // the game is running, awaiting clicks
    | Over   // game over

  /** Pixel size of one tile, from the tile sprite sheet set up at start-up. */
  const TileSide: nat := 24

  /** Offset of the grid's bottom-left corner in the window, set when the board is laid out. */
  const GridMargin: int := 12

  // ---------------------------------------------------------------------------
  // Counting the tiles a reveal works on

  /** A tile whose mine is known: placed (`Mine`) or detonated (`Boom`). */
  predicate Resolved(t: Tile) {
    t == Mine || t == Boom
  }

  function CountResolved(ts: seq<Tile>): (n: nat)
    ensures n <= |ts|
  {
    if ts == [] then 0
    else CountResolved(ts[..|ts| - 1]) + (if Resolved(ts[|ts| - 1]) then 1 else 0)
  }

  lemma CountResolvedSnoc(ts: seq<Tile>, t: Tile)
    ensures CountResolved(ts + [t]) == CountResolved(ts) + (if Resolved(t) then 1 else 0)
  {
    assert (ts + [t])[..|ts|] == ts;
  }

  /** Overwriting one tile changes the count by what the old and new states contribute. */
  lemma {:induction false} CountResolvedUpdate(ts: seq<Tile>, i: nat, t: Tile)
    requires i < |ts|
    ensures CountResolved(ts[i := t])
         == CountResolved(ts) - (if Resolved(ts[i]) then 1 else 0) + (if Resolved(t) then 1 else 0)
    decreases |ts|
  {
    var n := |ts| - 1;
    var us := ts[i := t];
    assert ts == ts[..n] + [ts[n]];
    assert us == us[..n] + [us[n]];
    CountResolvedSnoc(ts[..n], ts[n]);
    CountResolvedSnoc(us[..n], us[n]);
    if i < n {
      assert us[..n] == ts[..n][i := t];
      CountResolvedUpdate(ts[..n], i, t);
    } else {
      assert us[..n] == ts[..n];
    }
  }

  /** Sequences that agree on which positions are resolved have the same count. */
  lemma {:induction false} CountResolvedPointwise(a: seq<Tile>, b: seq<Tile>)
    requires |a| == |b|
    requires forall j :: 0 <= j < |a| ==> Resolved(a[j]) == Resolved(b[j])
    ensures CountResolved(a) == CountResolved(b)
    decreases |a|
  {
    if a != [] {
      var n := |a| - 1;
      CountResolvedPointwise(a[..n], b[..n]);
    }
  }

  /** A prefix holds no more resolved tiles than the whole sequence. */
  lemma {:induction false} CountResolvedPrefix(ts: seq<Tile>, i: nat)
    requires i <= |ts|
    ensures CountResolved(ts[..i]) <= CountResolved(ts)
    decreases |ts|
  {
    if i < |ts| {
      var n := |ts| - 1;
      assert ts[..n][..i] == ts[..i];
      CountResolvedPrefix(ts[..n], i);
    } else {
      assert ts[..i] == ts;
    }
  }

  /**
   * The entities a reveal may turn into mines, in the order the scan meets
   * them: every tile that is neither `Mine` nor `Boom`.
   */
  function Candidates(ts: seq<Tile>): (c: seq<Entity>)
    ensures |c| + CountResolved(ts) == |ts|
    ensures forall k :: 0 <= k < |c| ==> c[k] < |ts| && !Resolved(ts[c[k]])
    ensures forall k, l :: 0 <= k < l < |c| ==> c[k] < c[l]
  {
    if ts == [] then []
    else
      var n := |ts| - 1;
      Candidates(ts[..n]) + (if Resolved(ts[n]) then [] else [n])
  }

  lemma CandidatesSnoc(ts: seq<Tile>, t: Tile)
    ensures Candidates(ts + [t]) == Candidates(ts) + (if Resolved(t) then [] else [|ts|])
  {
    assert (ts + [t])[..|ts|] == ts;
  }

  /** One more tile scanned joins the candidates unless it is resolved. */
  lemma ScanCandidates(ts: seq<Tile>, e: nat)
    requires e < |ts|
    ensures Candidates(ts[..e + 1]) == Candidates(ts[..e]) + (if Resolved(ts[e]) then [] else [e])
  {
    assert ts[..e + 1] == ts[..e] + [ts[e]];
    CandidatesSnoc(ts[..e], ts[e]);
  }

  /**
   * One more tile scanned adds to the resolved count exactly when it is
   * resolved, and the count so far stays within the whole count.
   */
  lemma ScanCount(ts: seq<Tile>, e: nat)
    requires e < |ts|
    ensures CountResolved(ts[..e + 1]) == CountResolved(ts[..e]) + (if Resolved(ts[e]) then 1 else 0)
    ensures CountResolved(ts[..e + 1]) <= CountResolved(ts)
  {
    var p := ts[..e + 1];
    assert p[..e] == ts[..e];
    assert p[e] == ts[e];
    CountResolvedPrefix(ts, e + 1);
  }

  /** The tiles after the scan of `reveal_mines` has passed the first `e`: the resolved ones among them are `Boom`. */
  function Detonated(ts: seq<Tile>, e: nat): (r: seq<Tile>)
    ensures |r| == |ts|
    ensures forall j :: 0 <= j < |ts| ==> r[j] == if j < e && Resolved(ts[j]) then Boom else ts[j]
  {
    seq(|ts|, j requires 0 <= j < |ts| => if j < e && Resolved(ts[j]) then Boom else ts[j])
  }

  /** Scanning one more tile turns it into `Boom` if it is a `Mine`, and leaves everything else. */
  lemma DetonatedStep(ts: seq<Tile>, e: nat)
    requires e < |ts|
    ensures Detonated(ts, e + 1) == if ts[e] == Mine then Detonated(ts, e)[e := Boom] else Detonated(ts, e)
  {
    var a, b := Detonated(ts, e), Detonated(ts, e + 1);
    if ts[e] == Mine {
      assert b == a[e := Boom];
    } else {
      assert b == a;
    }
  }

  /** `p` lists every position below `n` exactly once: a shuffle of `n` items. */
  ghost predicate IsPermutation(p: seq<nat>, n: nat) {
    && |p| == n
    && (forall k :: 0 <= k < n ==> p[k] < n)
    && (forall k, l :: 0 <= k < l < n ==> p[k] != p[l])
  }

  /** The effect of a right click: `Default` and `Flag` swap, revealed tiles stay. */
  function Toggled(t: Tile): (r: Tile)
    ensures t == Default || t == Flag ==> r != t && (r == Default || r == Flag)
    ensures t == Mine || t == Boom ==> r == t
  {
    match t
    case Default => Flag
    case Flag => Default
    case _ => t
  }

  /** Two right clicks on an unrevealed tile give it back its state. */
  lemma ToggledTwice(t: Tile)
    ensures Toggled(Toggled(t)) == t
  {
  }

  /** Slot `i` of `slots` holds a tile whose state in `ts` is `Default`. */
  ghost predicate Ready(slots: seq<Option<Entity>>, ts: seq<Tile>, i: nat) {
    && i < |slots|
    && slots[i].Some?
    && slots[i].value < |ts|
    && ts[slots[i].value] == Default
  }

  /**
   * One cell step of `update_grid` at slot `idx`, from slot table `s` and
   * tiles `ts` to `s'` and `ts'`: an occupied slot keeps its tile, which is
   * reset to `Default`; an empty slot receives a newly spawned `Default` tile.
   */
  ghost predicate CellStep(s: seq<Option<Entity>>, ts: seq<Tile>, s': seq<Option<Entity>>, ts': seq<Tile>, idx: nat) {
    && idx < |s|
    && match s[idx] {
      case Some(e) => e < |ts| && s' == s && ts' == ts[e := Default]
      case None => s' == s[idx := Some(|ts|)] && ts' == ts + [Default]
    }
  }

  /**
   * What holds during the walk of `update_grid`, with `slots` the slot table
   * right after the resize, `t0` the tiles before the walk, and `s`, `ts`
   * the current slot table and tiles: every entity is spawned, occupied slots
   * keep their tile, filled slots got newly spawned tiles, a tile changed
   * only while it sat in a slot, one tile was spawned per filled slot, and
   * no two filled slots share a tile.
   */
  ghost predicate Rebuilt(slots: seq<Option<Entity>>, t0: seq<Tile>, s: seq<Option<Entity>>, ts: seq<Tile>) {
    && |s| == |slots|
    && Bounded(s, |ts|)
    && (forall i :: 0 <= i < |slots| && slots[i].Some? ==> s[i] == slots[i])
    && (forall i :: 0 <= i < |slots| && slots[i] == None && s[i].Some? ==> s[i].value >= |t0|)
    && |t0| <= |ts|
    && (forall e :: 0 <= e < |t0| && ts[e] != t0[e] ==> Some(e) in s)
    && |ts| - |t0| == |Occupants(s)| - |Occupants(slots)|
    && FilledDistinct(slots, s)
  }

  /** No two slots that were empty in `slots` hold the same entity in `s`. */
  ghost predicate FilledDistinct(slots: seq<Option<Entity>>, s: seq<Option<Entity>>)
    requires |s| == |slots|
  {
    forall i, j {:trigger slots[i], slots[j]} ::
      0 <= i < j < |slots| && slots[i] == None && slots[j] == None && s[i].Some? && s[j].Some? ==> s[i] != s[j]
  }

  /** Every slot ready in (`s`, `ts`) is still ready in (`s'`, `ts'`). */
  ghost predicate KeepsReady(s: seq<Option<Entity>>, ts: seq<Tile>, s': seq<Option<Entity>>, ts': seq<Tile>) {
    forall i :: Ready(s, ts, i) ==> Ready(s', ts', i)
  }

  lemma KeepsReadyTrans(s: seq<Option<Entity>>, ts: seq<Tile>, s1: seq<Option<Entity>>, ts1: seq<Tile>,
                        s2: seq<Option<Entity>>, ts2: seq<Tile>)
    requires KeepsReady(s, ts, s1, ts1) && KeepsReady(s1, ts1, s2, ts2)
    ensures KeepsReady(s, ts, s2, ts2)
  {
  }

  /** The first `n` cells of column `col` are ready. */
  ghost predicate ColumnReady(s: seq<Option<Entity>>, ts: seq<Tile>, size: GridSize, col: nat, n: nat) {
    forall r :: 0 <= r < n ==> Ready(s, ts, size.IndexOf(col, r))
  }

  lemma ColumnReadyStep(s: seq<Option<Entity>>, ts: seq<Tile>, s': seq<Option<Entity>>, ts': seq<Tile>,
                        size: GridSize, col: nat, n: nat)
    requires ColumnReady(s, ts, size, col, n) && KeepsReady(s, ts, s', ts')
    requires Ready(s', ts', size.IndexOf(col, n))
    ensures ColumnReady(s', ts', size, col, n + 1)
  {
  }

  lemma ColumnReadyKeep(s: seq<Option<Entity>>, ts: seq<Tile>, s': seq<Option<Entity>>, ts': seq<Tile>,
                        size: GridSize, col: nat, n: nat)
    requires ColumnReady(s, ts, size, col, n) && KeepsReady(s, ts, s', ts')
    ensures ColumnReady(s', ts', size, col, n)
  {
  }

  /** When every column is ready, every slot of the table holds a `Default` tile. */
  lemma AllColumnsReady(s: seq<Option<Entity>>, ts: seq<Tile>, size: GridSize)
    requires |s| == size.Capacity()
    requires forall c :: 0 <= c < size.Columns() ==> ColumnReady(s, ts, size, c, size.Rows())
    ensures forall i :: 0 <= i < |s| ==> Ready(s, ts, i) && s[i].Some?
  {
    forall i | 0 <= i < |s|
      ensures Ready(s, ts, i) && s[i].Some?
    {
      IndexOfCellOf(size, i);
      var (c, r) := size.CellOf(i);
      assert ColumnReady(s, ts, size, c, size.Rows());
    }
  }

  /**
   * The walk's invariant with every slot ready is the outcome of
   * `update_grid`: occupied slots keep their tile, empty ones get distinct
   * new tiles, one spawned per empty slot, and tiles outside the grid are
   * left alone.
   */
  lemma RebuiltDone(slots: seq<Option<Entity>>, t0: seq<Tile>, s: seq<Option<Entity>>, ts: seq<Tile>)
    requires Rebuilt(slots, t0, s, ts)
    requires forall i :: 0 <= i < |s| ==> Ready(s, ts, i) && s[i].Some?
    ensures Bounded(s, |ts|)
    ensures forall i :: 0 <= i < |slots| && slots[i].Some? ==> s[i] == slots[i]
    ensures forall i :: 0 <= i < |slots| && slots[i] == None ==> s[i].value >= |t0|
    ensures forall i, j :: 0 <= i < j < |slots| && slots[i] == None && slots[j] == None ==> s[i] != s[j]
    ensures |ts| == |t0| + |slots| - |Occupants(slots)|
    ensures forall e :: 0 <= e < |t0| && Some(e) !in s ==> ts[e] == t0[e]
  {
    OccupantsFull(s);
  }

  /** A cell step keeps the walk's invariant, readies its slot and unreadies none. */
  lemma RebuiltStep(slots: seq<Option<Entity>>, t0: seq<Tile>, s: seq<Option<Entity>>, ts: seq<Tile>,
                    s': seq<Option<Entity>>, ts': seq<Tile>, idx: nat)
    requires Rebuilt(slots, t0, s, ts) && CellStep(s, ts, s', ts', idx)
    ensures Rebuilt(slots, t0, s', ts')
    ensures Ready(s', ts', idx)
    ensures KeepsReady(s, ts, s', ts')
  {
    if s[idx].Some? {
      ResetStep(slots, t0, s, ts, s', ts', idx);
    } else {
      SpawnStep(slots, t0, s, ts, s', ts', idx);
    }
  }

  /** The step on an occupied slot: only the slot's tile changes, to `Default`. */
  lemma ResetStep(slots: seq<Option<Entity>>, t0: seq<Tile>, s: seq<Option<Entity>>, ts: seq<Tile>,
                  s': seq<Option<Entity>>, ts': seq<Tile>, idx: nat)
    requires Rebuilt(slots, t0, s, ts) && CellStep(s, ts, s', ts', idx) && s[idx].Some?
    ensures Rebuilt(slots, t0, s', ts')
    ensures Ready(s', ts', idx)
    ensures KeepsReady(s, ts, s', ts')
  {
    var e := s[idx].value;
    forall x | 0 <= x < |t0| && ts'[x] != t0[x]
      ensures Some(x) in s'
    {
      if x != e {
        assert ts'[x] == ts[x];
      }
    }
  }

  /** The step on an empty slot: a new entity, one past the last, fills it. */
  lemma SpawnStep(slots: seq<Option<Entity>>, t0: seq<Tile>, s: seq<Option<Entity>>, ts: seq<Tile>,
                  s': seq<Option<Entity>>, ts': seq<Tile>, idx: nat)
    requires Rebuilt(slots, t0, s, ts) && CellStep(s, ts, s', ts', idx) && s[idx] == None
    ensures Rebuilt(slots, t0, s', ts')
    ensures Ready(s', ts', idx)
    ensures KeepsReady(s, ts, s', ts')
  {
    OccupantsFill(s, idx, |ts|);
    SpawnChanged(t0, s, ts, idx);
    SpawnKeepsReady(s, ts, idx);
    SpawnDistinct(slots, s, |ts|, idx);
  }

  /** Spawning changes no earlier tile, and every earlier occupant keeps its slot. */
  lemma SpawnChanged(t0: seq<Tile>, s: seq<Option<Entity>>, ts: seq<Tile>, idx: nat)
    requires idx < |s| && s[idx] == None && |t0| <= |ts|
    requires forall e :: 0 <= e < |t0| && ts[e] != t0[e] ==> Some(e) in s
    ensures forall e :: 0 <= e < |t0| && (ts + [Default])[e] != t0[e] ==> Some(e) in s[idx := Some(|ts|)]
  {
    var s', ts' := s[idx := Some(|ts|)], ts + [Default];
    forall x | 0 <= x < |t0| && ts'[x] != t0[x]
      ensures Some(x) in s'
    {
      assert ts'[x] == ts[x];
      var j :| 0 <= j < |s| && s[j] == Some(x);
      assert s'[j] == Some(x);
    }
  }

  /** Filling an empty slot with a new tile unreadies no slot. */
  lemma SpawnKeepsReady(s: seq<Option<Entity>>, ts: seq<Tile>, idx: nat)
    requires idx < |s| && s[idx] == None
    ensures KeepsReady(s, ts, s[idx := Some(|ts|)], ts + [Default])
  {
    var s', ts' := s[idx := Some(|ts|)], ts + [Default];
    forall i: nat | Ready(s, ts, i)
      ensures Ready(s', ts', i)
    {
      assert s'[i] == s[i];
    }
  }

  /** A fresh entity, above every entity in the table, shares no slot with another. */
  lemma SpawnDistinct(slots: seq<Option<Entity>>, s: seq<Option<Entity>>, n: nat, idx: nat)
    requires |s| == |slots| && idx < |s| && Bounded(s, n) && FilledDistinct(slots, s)
    ensures FilledDistinct(slots, s[idx := Some(n)])
  {
    var s' := s[idx := Some(n)];
    forall i, j | 0 <= i < j < |slots| && slots[i] == None && slots[j] == None && s'[i].Some? && s'[j].Some?
      ensures s'[i] != s'[j]
    {
      if i != idx && j != idx {
        assert s'[i] == s[i] && s'[j] == s[j];
      }
    }
  }

  // ---------------------------------------------------------------------------
  // The world

  class World {
    var state: GameState
    var difficulty: Difficulty
    /** The `Tile` component of every spawned tile entity, indexed by entity. */
    var tiles: seq<Tile>
    /** The grid entity, spawned when `Setup` is left. */
    var grid: Grid?

    ghost predicate Valid()
      reads this, grid
    {
      && (grid != null ==>
            && grid.Valid()
            && grid.tileWidth == TileSide && grid.tileHeight == TileSide
            && Bounded(grid.tiles, |tiles|))
      && (state != Setup ==> grid != null)
      && (state == Run || state == Over ==> grid != null && Filled())
    }

    /** Every slot of the grid holds a tile. */
    ghost predicate Filled()
      reads this, grid
      requires grid != null
    {
      forall i :: 0 <= i < |grid.tiles| ==> grid.tiles[i].Some?
    }

    /** The plugin's start-up: the default difficulty, state `Setup`, no tiles and no grid yet. */
    constructor ()
      ensures Valid()
      ensures state == Setup && difficulty == DefaultDifficulty()
      ensures tiles == [] && grid == null
    {
      state := Setup;
      difficulty := DefaultDifficulty();
      tiles := [];
      grid := null;
    }

    /** `Tile::change`: the tile becomes `newState`, whatever it was before. */
    method ChangeTile(e: Entity, newState: Tile)
      requires e < |tiles|
      modifies this
      ensures tiles == old(tiles)[e := newState]
      ensures state == old(state) && difficulty == old(difficulty) && grid == old(grid)
    {
      tiles := tiles[e := newState];
    }

    /** `Difficulty::change`: the difficulty is replaced as a whole. */
    method ChangeDifficulty(newDifficulty: Difficulty)
      modifies this
      ensures difficulty == newDifficulty
      ensures state == old(state) && tiles == old(tiles) && grid == old(grid)
    {
      difficulty := newDifficulty;
    }

    /** Spawning a tile bundle: a new entity whose tile is `Default`. */
    method SpawnTile() returns (e: Entity)
      modifies this
      ensures e == |old(tiles)| && tiles == old(tiles) + [Default]
      ensures state == old(state) && difficulty == old(difficulty) && grid == old(grid)
    {
      e := |tiles|;
      tiles := tiles + [Default];
    }

    /** `setup_components`, on leaving `Setup`: spawn an empty grid of the difficulty's size. */
    method SetupComponents()
      requires Valid() && state == Setup
      modifies this
      ensures fresh(grid) && grid.Valid() && grid.tileWidth == TileSide && grid.tileHeight == TileSide
      ensures grid.gridSize == difficulty.Size()
      ensures forall i :: 0 <= i < |grid.tiles| ==> grid.tiles[i] == None
      ensures state == old(state) && difficulty == old(difficulty) && tiles == old(tiles)
    {
      grid := new Grid(difficulty.Size(), TileSide, TileSide);
    }

    /** The grid exists, is well formed, has size `size` and 24-pixel tiles. */
    ghost predicate GridAt(size: GridSize)
      reads this, grid
    {
      && grid != null
      && grid.Valid() && grid.gridSize == size
      && grid.tileWidth == TileSide && grid.tileHeight == TileSide
    }

    /**
     * One cell of the walk in `update_grid`: the tile in an occupied slot is
     * reset to `Default`; an empty slot gets a newly spawned tile.
     */
    method RebuildCell(col: nat, row: nat, ghost size: GridSize)
      requires GridAt(size) && col < size.Columns() && row < size.Rows()
      requires Bounded(grid.tiles, |tiles|)
      modifies this, grid
      ensures GridAt(size)
      ensures grid == old(grid) && state == old(state) && difficulty == old(difficulty)
      ensures CellStep(old(grid.tiles), old(tiles), grid.tiles, tiles, size.IndexOf(col, row))
    {
      GetTileInRange(grid, col, row);
      var found := grid.GetTile(col, row);
      if found.Some? {
        ChangeTile(found.value, Default);
      } else {
        var e := SpawnTile();
        grid.Insert(col, row, e);
      }
    }

    /** One column of the walk of `update_grid`: every row of column `col` is rebuilt. */
    method RebuildColumn(col: nat, size: GridSize, ghost slots: seq<Option<Entity>>, ghost t0: seq<Tile>)
      requires GridAt(size) && col < size.Columns()
      requires Rebuilt(slots, t0, grid.tiles, tiles)
      modifies this, grid
      ensures GridAt(size) && Rebuilt(slots, t0, grid.tiles, tiles)
      ensures grid == old(grid) && state == old(state) && difficulty == old(difficulty)
      ensures ColumnReady(grid.tiles, tiles, size, col, size.Rows())
      ensures KeepsReady(old(grid.tiles), old(tiles), grid.tiles, tiles)
    {
      ghost var s0, ts0 := grid.tiles, tiles;
      var row: nat := 0;
      while row < size.Rows()
        invariant row <= size.Rows()
        invariant GridAt(size) && Rebuilt(slots, t0, grid.tiles, tiles)
        invariant grid == old(grid) && state == old(state) && difficulty == old(difficulty)
        invariant ColumnReady(grid.tiles, tiles, size, col, row)
        invariant KeepsReady(s0, ts0, grid.tiles, tiles)
      {
        ghost var s1, ts1 := grid.tiles, tiles;
        RebuildCell(col, row, size);
        RebuiltStep(slots, t0, s1, ts1, grid.tiles, tiles, size.IndexOf(col, row));
        KeepsReadyTrans(s0, ts0, s1, ts1, grid.tiles, tiles);
        ColumnReadyStep(s1, ts1, grid.tiles, tiles, size, col, row);
        row := row + 1;
      }
    }

    /** The walk of `update_grid`: column by column, row by row, every cell is rebuilt. */
    method RebuildCells(size: GridSize, ghost slots: seq<Option<Entity>>, ghost t0: seq<Tile>)
      requires GridAt(size) && Rebuilt(slots, t0, grid.tiles, tiles)
      modifies this, grid
      ensures GridAt(size) && Rebuilt(slots, t0, grid.tiles, tiles)
      ensures grid == old(grid) && state == old(state) && difficulty == old(difficulty)
      ensures forall i :: 0 <= i < |grid.tiles| ==> Ready(grid.tiles, tiles, i) && grid.tiles[i].Some?
    {
      var col: nat := 0;
      while col < size.Columns()
        invariant col <= size.Columns()
        invariant GridAt(size) && Rebuilt(slots, t0, grid.tiles, tiles)
        invariant grid == old(grid) && state == old(state) && difficulty == old(difficulty)
        invariant forall c :: 0 <= c < col ==> ColumnReady(grid.tiles, tiles, size, c, size.Rows())
      {
        ghost var s1, ts1 := grid.tiles, tiles;
        RebuildColumn(col, size, slots, t0);
        forall c | 0 <= c < col
          ensures ColumnReady(grid.tiles, tiles, size, c, size.Rows())
        {
          ColumnReadyKeep(s1, ts1, grid.tiles, tiles, size, c, size.Rows());
        }
        col := col + 1;
      }
      AllColumnsReady(grid.tiles, tiles, size);
    }

    /**
     * `update_grid`, on entering `Start`: resize the grid to the difficulty's
     * size, then walk every cell of the grid's size, resetting the tile in an
     * occupied slot and spawning a tile into an empty one.
     */
    method UpdateGrid()
      requires Valid() && state == Start
      modifies this, grid
      ensures grid == old(grid) && state == old(state) && difficulty == old(difficulty)
      ensures Valid() && Filled()
      ensures var (size, slots, _) := Resized(old(grid.gridSize), old(grid.tiles), difficulty.Size());
        && grid.gridSize == size
        && |grid.tiles| == |slots|
        // every cell holds a tile, reset to `Default`
        && (forall i :: 0 <= i < |grid.tiles| ==> Ready(grid.tiles, tiles, i))
        // occupied slots keep their tile; empty slots get a newly spawned one
        && (forall i :: 0 <= i < |slots| && slots[i].Some? ==> grid.tiles[i] == slots[i])
        && (forall i :: 0 <= i < |slots| && slots[i] == None ==> grid.tiles[i].value >= |old(tiles)|)
        // distinct empty slots get distinct new tiles, one spawned per empty slot
        && (forall i, j :: 0 <= i < j < |slots| && slots[i] == None && slots[j] == None ==> grid.tiles[i] != grid.tiles[j])
        && |tiles| == |old(tiles)| + |slots| - |Occupants(slots)|
      // tiles outside the grid are left alone
      ensures forall e :: 0 <= e < |old(tiles)| && Some(e) !in grid.tiles ==> tiles[e] == old(tiles)[e]
    {
      ghost var t0 := tiles;
      var _ := grid.Resize(difficulty.Size());
      // A shrink only detaches the evicted tiles from the grid entity: they
      // stay spawned, so `tiles` keeps them.
      ghost var slots := grid.tiles;
      var size := grid.Size();
      ResizedBounded(old(grid.gridSize), old(grid.tiles), difficulty.Size(), |tiles|);
      assert Rebuilt(slots, t0, grid.tiles, tiles);
      RebuildCells(size, slots, t0);
      RebuiltDone(slots, t0, grid.tiles, tiles);
    }

    /** `update_ui`: lays out the window (not modelled) and moves on to `Run`. */
    method UpdateUi()
      requires Valid() && state == Start && Filled()
      modifies this
      ensures Valid() && state == Run
      ensures difficulty == old(difficulty) && tiles == old(tiles) && grid == old(grid)
    {
      state := Run;
    }

    /**
     * The start-up request for `Start`: leaving `Setup` spawns the grid,
     * entering `Start` fills it and moves on to `Run`.
     */
    method StartGame()
      requires Valid() && state == Setup
      modifies this
      ensures Valid() && state == Run && difficulty == old(difficulty)
      ensures fresh(grid) && grid.gridSize == difficulty.Size()
      ensures forall i :: 0 <= i < |grid.tiles| ==> Ready(grid.tiles, tiles, i)
      ensures |tiles| == |old(tiles)| + difficulty.Size().Capacity()
      ensures tiles[..|old(tiles)|] == old(tiles)
      // every cell holds its own newly spawned tile
      ensures forall i :: 0 <= i < |grid.tiles| ==> grid.tiles[i].value >= |old(tiles)|
      ensures forall i, j :: 0 <= i < j < |grid.tiles| ==> grid.tiles[i] != grid.tiles[j]
    {
      SetupComponents();
      OccupantsEmpty(grid.tiles);
      state := Start;
      ghost var t0 := tiles;
      ghost var g := grid;
      UpdateGrid();
      assert forall i :: 0 <= i < |grid.tiles| ==> grid.tiles[i].value >= |t0|;
      forall e | 0 <= e < |t0|
        ensures tiles[e] == t0[e]
      {
      }
      UpdateUi();
    }

    /** The tile under the cursor, if the cursor is over the grid. */
    function ClickTarget(cursor: Option<(int, int)>): (r: Option<Entity>)
      reads this, grid
      requires grid != null && grid.Valid()
      ensures cursor == None ==> r == None
      ensures r.Some? ==> r in grid.tiles
    {
      match cursor
      case None => None
      case Some((x, y)) => grid.GetTileXY(x - GridMargin, y - GridMargin)
    }

    /**
     * `handle_grid_click`, every frame in `Run`: a left click detonates the
     * tile under the cursor and ends the game; otherwise a right click toggles
     * its flag. Anything else changes nothing.
     */
    method HandleGridClick(leftPressed: bool, rightPressed: bool, cursor: Option<(int, int)>)
      requires Valid() && state == Run
      modifies this
      ensures Valid()
      ensures grid == old(grid) && difficulty == old(difficulty)
      ensures var target := ClickTarget(cursor);
        if (!leftPressed && !rightPressed) || target == None then
          tiles == old(tiles) && state == Run
        else if leftPressed then
          tiles == old(tiles)[target.value := Boom] && state == Over
        else
          tiles == old(tiles)[target.value := Toggled(old(tiles)[target.value])] && state == Run
    {
      if !leftPressed && !rightPressed {
        return;
      }
      var target := ClickTarget(cursor);
      if target.Some? {
        var e := target.value;
        assert e < |tiles| by {
          var x, y := cursor.value.0 - GridMargin, cursor.value.1 - GridMargin;
          assert grid.GetTile(x / TileSide, y / TileSide) == target;
        }
        if leftPressed {
          ChangeTile(e, Boom);
          state := Over;
        } else {
          ChangeTile(e, Toggled(tiles[e]));
        }
      }
    }

    /**
     * `reveal_mines`, on entering `Over`: every known mine detonates, and the
     * mines still missing from the difficulty's count are placed on tiles
     * drawn from the others. The random shuffle is the permutation `shuffle`
     * of the candidates; the contract holds for every one of them.
     */
    method RevealMines(shuffle: seq<nat>)
      requires Valid() && state == Over
      requires difficulty.Mines() >= CountResolved(tiles)
      requires IsPermutation(shuffle, |Candidates(tiles)|)
      modifies this
      ensures state == old(state) && difficulty == old(difficulty) && grid == old(grid)
      ensures Valid()
      ensures |tiles| == |old(tiles)|
      ensures forall e :: 0 <= e < |tiles| && Resolved(old(tiles)[e]) ==> tiles[e] == Boom
      ensures forall e :: 0 <= e < |tiles| && !Resolved(old(tiles)[e]) ==> tiles[e] in {old(tiles)[e], Mine}
      ensures var want := difficulty.Mines() - CountResolved(old(tiles));
        var candidates := Candidates(old(tiles));
        forall k :: 0 <= k < |shuffle| ==>
          tiles[candidates[shuffle[k]]] == if k < want then Mine else old(tiles)[candidates[shuffle[k]]]
      ensures CountResolved(tiles) == Min(difficulty.Mines(), |tiles|)
    {
      ghost var t0 := tiles;
      var want, remaining := DetonateKnownMines();

      // shuffle, then keep the first `want`
      var shuffled := seq(|remaining|, k requires 0 <= k < |remaining| => remaining[shuffle[k]]);
      forall k, l | 0 <= k < l < |shuffled|
        ensures shuffled[k] != shuffled[l]
      {
        if shuffle[k] < shuffle[l] {
          assert remaining[shuffle[k]] < remaining[shuffle[l]];
        } else {
          assert shuffle[k] != shuffle[l];
          assert remaining[shuffle[l]] < remaining[shuffle[k]];
        }
      }
      var chosen := shuffled[..Min(want, |shuffled|)];
      ghost var mid := tiles;
      PlaceMines(chosen);

      forall k | 0 <= k < |shuffle|
        ensures tiles[remaining[shuffle[k]]] == if k < want then Mine else t0[remaining[shuffle[k]]]
      {
        var x := shuffled[k];
        if k < want {
          assert x == chosen[k];
        } else {
          assert x !in chosen;
        }
      }
    }

    /**
     * The scan of `reveal_mines`: count down the wanted mines for every
     * `Mine` and `Boom`, turn every `Mine` into `Boom`, and collect the other
     * tiles. Counting down past zero is a `usize` underflow, which panics.
     */
    method DetonateKnownMines() returns (want: nat, remaining: seq<Entity>)
      requires difficulty.Mines() >= CountResolved(tiles)
      modifies this
      ensures state == old(state) && difficulty == old(difficulty) && grid == old(grid)
      ensures |tiles| == |old(tiles)|
      ensures want == difficulty.Mines() - CountResolved(old(tiles))
      ensures remaining == Candidates(old(tiles))
      ensures forall j :: 0 <= j < |tiles| ==> tiles[j] == if Resolved(old(tiles)[j]) then Boom else old(tiles)[j]
      ensures CountResolved(tiles) == CountResolved(old(tiles))
    {
      ghost var t0 := tiles;
      want := difficulty.Mines();
      remaining := [];
      var e: nat := 0;
      while e < |tiles|
        invariant e <= |tiles| == |t0|
        invariant state == old(state) && difficulty == old(difficulty) && grid == old(grid)
        invariant remaining == Candidates(t0[..e])
        invariant want + CountResolved(t0[..e]) == difficulty.Mines()
        invariant tiles == Detonated(t0, e)
      {
        assert tiles[e] == t0[e];
        ScanCandidates(t0, e);
        ScanCount(t0, e);
        DetonatedStep(t0, e);
        match tiles[e] {
          case Boom =>
            want := want - 1;
          case Mine =>
            want := want - 1;
            ChangeTile(e, Boom);
          case _ =>
            remaining := remaining + [e];
        }
        e := e + 1;
      }
      assert t0[..e] == t0;
      assert tiles == Detonated(t0, |t0|);
      forall j | 0 <= j < |tiles|
        ensures Resolved(tiles[j]) == Resolved(t0[j])
      {
      }
      CountResolvedPointwise(tiles, t0);
    }

    /** The last loop of `reveal_mines`: each chosen tile becomes `Mine`. */
    method PlaceMines(chosen: seq<Entity>)
      requires forall k :: 0 <= k < |chosen| ==> chosen[k] < |tiles| && !Resolved(tiles[chosen[k]])
      requires forall k, l :: 0 <= k < l < |chosen| ==> chosen[k] != chosen[l]
      modifies this
      ensures state == old(state) && difficulty == old(difficulty) && grid == old(grid)
      ensures |tiles| == |old(tiles)|
      ensures forall j :: 0 <= j < |tiles| ==> tiles[j] == if j in chosen then Mine else old(tiles)[j]
      ensures CountResolved(tiles) == CountResolved(old(tiles)) + |chosen|
    {
      ghost var t0 := tiles;
      var k := 0;
      while k < |chosen|
        invariant k <= |chosen|
        invariant state == old(state) && difficulty == old(difficulty) && grid == old(grid)
        invariant |tiles| == |t0|
        invariant forall j :: 0 <= j < |tiles| ==> tiles[j] == if j in chosen[..k] then Mine else t0[j]
        invariant CountResolved(tiles) == CountResolved(t0) + k
      {
        var x := chosen[k];
        assert x !in chosen[..k];
        assert chosen[..k + 1] == chosen[..k] + [x];
        CountResolvedUpdate(tiles, x, Mine);
        ChangeTile(x, Mine);
        k := k + 1;
      }
      assert chosen[..k] == chosen;
    }
  }

  /**
   * A click anywhere inside the 24x24 square of cell (col, row), with the
   * grid laid out 12 pixels from the window corner, targets that cell's tile.
   */
  lemma ClickTargetInCell(w: World, col: nat, row: nat, dx: nat, dy: nat)
    requires w.grid != null && w.grid.Valid()
    requires w.grid.tileWidth == TileSide && w.grid.tileHeight == TileSide
    requires dx < TileSide && dy < TileSide
    ensures w.ClickTarget(Some((GridMargin + col * TileSide + dx, GridMargin + row * TileSide + dy)))
         == w.grid.GetTile(col, row)
  {
    GetTileXYInCell(w.grid, col, row, dx, dy);
  }
}

/**
 * The board: a table of tile slots addressed by `GridSize::index_of`, the
 * size of one tile in pixels, and the resize algorithm that grows or shrinks
 * the table when the board size changes.
 */
module Grids {
  import opened GridSizes

  /** An opaque reference to a spawned tile entity. */
  type Entity = nat

  datatype Option<T> = None | Some(value: T)

  /** What `resize` did to the slot table. */
  datatype ResizeResult =
    | NoChange                      // `ResizeResult::None`: the capacity was already right
    | Grow(added: nat)              // that many empty slots were appended
    | Shrink(evicted: seq<Entity>)  // these entities lost their slots

  /** The entities of the occupied slots, in slot order (a `filter_map` over the slots). */
  function Occupants(slots: seq<Option<Entity>>): (es: seq<Entity>)
    ensures |es| <= |slots|
    ensures forall e :: e in es <==> Some(e) in slots
  {
    if slots == [] then []
    else
      var init, last := slots[..|slots| - 1], slots[|slots| - 1];
      assert slots == init + [last];
      Occupants(init) + (if last.Some? then [last.value] else [])
  }

  /** Every entity in `slots` is below `n`: with `n` the number of spawned tiles, every slot refers to a spawned tile. */
  ghost predicate Bounded(slots: seq<Option<Entity>>, n: nat) {
    forall i :: 0 <= i < |slots| && slots[i].Some? ==> slots[i].value < n
  }

  /** Appending one slot appends its entity, if any, to the occupants. */
  lemma OccupantsSnoc(slots: seq<Option<Entity>>, x: Option<Entity>)
    ensures Occupants(slots + [x]) == Occupants(slots) + (if x.Some? then [x.value] else [])
  {
    assert (slots + [x])[..|slots|] == slots;
  }

  /** Extending a window of slots by one slot appends that slot's entity, if any. */
  lemma OccupantsStep(slots: seq<Option<Entity>>, lo: nat, i: nat)
    requires lo <= i < |slots|
    ensures Occupants(slots[lo..i + 1]) == Occupants(slots[lo..i]) + (if slots[i].Some? then [slots[i].value] else [])
  {
    var w := slots[lo..i + 1];
    assert w[..|w| - 1] == slots[lo..i];
    assert w[|w| - 1] == slots[i];
  }

  /** Filling one empty slot adds exactly one occupant. */
  lemma {:induction false} OccupantsFill(slots: seq<Option<Entity>>, i: nat, e: Entity)
    requires i < |slots| && slots[i] == None
    ensures |Occupants(slots[i := Some(e)])| == |Occupants(slots)| + 1
    decreases |slots|
  {
    var n := |slots| - 1;
    var filled := slots[i := Some(e)];
    assert filled == filled[..n] + [filled[n]];
    assert slots == slots[..n] + [slots[n]];
    OccupantsSnoc(filled[..n], filled[n]);
    OccupantsSnoc(slots[..n], slots[n]);
    if i < n {
      assert filled[..n] == slots[..n][i := Some(e)];
      OccupantsFill(slots[..n], i, e);
    } else {
      assert filled[..n] == slots[..n];
    }
  }

  /** A table with no empty slot has one occupant per slot. */
  lemma {:induction false} OccupantsFull(slots: seq<Option<Entity>>)
    requires forall i :: 0 <= i < |slots| ==> slots[i].Some?
    ensures |Occupants(slots)| == |slots|
    decreases |slots|
  {
    if slots != [] {
      var n := |slots| - 1;
      assert slots == slots[..n] + [slots[n]];
      OccupantsSnoc(slots[..n], slots[n]);
      OccupantsFull(slots[..n]);
    }
  }

  /** A table of empty slots has no occupant. */
  lemma OccupantsEmpty(slots: seq<Option<Entity>>)
    requires forall i :: 0 <= i < |slots| ==> slots[i] == None
    ensures Occupants(slots) == []
  {
  }

  /**
   * The effect of `Grid::resize` on (size, slots): only the capacities are
   * compared. Equal capacities change nothing, not even the recorded size; a
   * larger capacity appends empty slots; a smaller one truncates the table and
   * reports the entities of the dropped slots.
   */
  function Resized(size: GridSize, slots: seq<Option<Entity>>, newSize: GridSize)
    : (r: (GridSize, seq<Option<Entity>>, ResizeResult))
    ensures r.2.NoChange? <==> size.Capacity() == newSize.Capacity()
    ensures r.0 == if r.2.NoChange? then size else newSize
    ensures r.2.Grow? <==> size.Capacity() < newSize.Capacity()
  {
    var have, want := size.Capacity(), newSize.Capacity();
    if have == want then (size, slots, NoChange)
    else if have < want then (newSize, slots + seq(want - have, _ => None), Grow(want - have))
    else (newSize, slots[..Min(want, |slots|)], Shrink(Occupants(slots[Min(want, |slots|)..])))
  }

  function Min(a: nat, b: nat): nat { if a <= b then a else b }

  /** Resizing keeps the table as long as the capacity of the recorded size. */
  lemma ResizedValid(size: GridSize, slots: seq<Option<Entity>>, newSize: GridSize)
    requires |slots| == size.Capacity()
    ensures |Resized(size, slots, newSize).1| == Resized(size, slots, newSize).0.Capacity()
  {
  }

  /**
   * Equal capacity is a no-op, even when the shape differs: resizing an 8x8
   * board to 4x16 keeps the recorded size 8x8.
   */
  lemma ResizedSameCapacity(size: GridSize, slots: seq<Option<Entity>>, newSize: GridSize)
    requires size.Capacity() == newSize.Capacity()
    ensures Resized(size, slots, newSize) == (size, slots, NoChange)
  {
  }

  /** Resizing an 8x8 board to 4x16 keeps the recorded size 8x8 and the table as it was. */
  lemma ResizedSameCapacityExample(slots: seq<Option<Entity>>)
    ensures Resized(GridSize(8, 8), slots, GridSize(4, 16)) == (GridSize(8, 8), slots, NoChange)
  {
    ResizedSameCapacity(GridSize(8, 8), slots, GridSize(4, 16));
  }

  /** Growing appends empty slots after the untouched old slots and reports how many. */
  lemma ResizedGrow(size: GridSize, slots: seq<Option<Entity>>, newSize: GridSize)
    requires |slots| == size.Capacity() < newSize.Capacity()
    ensures var (s, t, r) := Resized(size, slots, newSize);
      && s == newSize
      && |t| == newSize.Capacity()
      && t[..|slots|] == slots
      && (forall i :: |slots| <= i < |t| ==> t[i] == None)
      && r == Grow(newSize.Capacity() - size.Capacity())
  {
    var t := Resized(size, slots, newSize).1;
    assert t[..|slots|] == slots;
  }

  /**
   * Shrinking keeps the first `newSize.Capacity()` slots and reports, in slot
   * order, the entities of exactly the occupied slots beyond them.
   */
  lemma ResizedShrink(size: GridSize, slots: seq<Option<Entity>>, newSize: GridSize)
    requires |slots| == size.Capacity() > newSize.Capacity()
    ensures var (s, t, r) := Resized(size, slots, newSize);
      && s == newSize
      && t == slots[..newSize.Capacity()]
      && r.Shrink?
      && r.evicted == Occupants(slots[newSize.Capacity()..])
      && (forall e :: e in r.evicted <==> exists i :: newSize.Capacity() <= i < |slots| && slots[i] == Some(e))
  {
    var want := newSize.Capacity();
    var r := Resized(size, slots, newSize).2;
    forall e
      ensures e in r.evicted <==> exists i :: want <= i < |slots| && slots[i] == Some(e)
    {
      if e in r.evicted {
        var j :| 0 <= j < |slots[want..]| && slots[want..][j] == Some(e);
        assert slots[want + j] == Some(e);
      }
      if exists i :: want <= i < |slots| && slots[i] == Some(e) {
        var i :| want <= i < |slots| && slots[i] == Some(e);
        assert slots[want..][i - want] == Some(e);
      }
    }
  }

  /** Resizing brings in no entity: every entity in the new table was in the old one. */
  lemma ResizedBounded(size: GridSize, slots: seq<Option<Entity>>, newSize: GridSize, bound: nat)
    requires Bounded(slots, bound)
    ensures Bounded(Resized(size, slots, newSize).1, bound)
  {
  }

  /** A second resize to the same size reports no change and changes nothing. */
  lemma ResizedIdempotent(size: GridSize, slots: seq<Option<Entity>>, newSize: GridSize)
    requires |slots| == size.Capacity()
    ensures var (s, t, _) := Resized(size, slots, newSize);
      Resized(s, t, newSize) == (s, t, NoChange)
  {
  }

  /**
   * Shrinking and then growing back restores the capacity but not the
   * contents: the slots that were dropped come back empty.
   */
  lemma ShrinkThenGrow(size: GridSize, slots: seq<Option<Entity>>, small: GridSize)
    requires |slots| == size.Capacity() > small.Capacity()
    ensures var (s1, t1, _) := Resized(size, slots, small);
      var (s2, t2, r2) := Resized(s1, t1, size);
      && s2 == size
      && |t2| == |slots|
      && r2 == Grow(size.Capacity() - small.Capacity())
      && t2[..small.Capacity()] == slots[..small.Capacity()]
      && (forall i :: small.Capacity() <= i < |t2| ==> t2[i] == None)
  {
    var t1 := Resized(size, slots, small).1;
    ResizedGrow(small, t1, size);
  }

  class Grid {
    var gridSize: GridSize
    const tileWidth: nat
    const tileHeight: nat
    var tiles: seq<Option<Entity>>

    /** The slot table has one slot per cell, and a tile has a positive pixel size. */
    ghost predicate Valid()
      reads this
    {
      |tiles| == gridSize.Capacity() && tileWidth > 0 && tileHeight > 0
    }

    /** `Grid::spawn`: a grid of the given size whose slots are all empty. */
    constructor (gridSize: GridSize, tileWidth: nat, tileHeight: nat)
      requires tileWidth > 0 && tileHeight > 0
      ensures Valid()
      ensures this.gridSize == gridSize
      ensures this.tileWidth == tileWidth && this.tileHeight == tileHeight
      ensures forall i :: 0 <= i < |tiles| ==> tiles[i] == None
    {
      this.gridSize := gridSize;
      this.tileWidth := tileWidth;
      this.tileHeight := tileHeight;
      tiles := seq(gridSize.Capacity(), _ => None);
    }

    function Capacity(): (n: nat)
      reads this
      ensures Valid() ==> n == |tiles|
    {
      gridSize.Capacity()
    }

    function Size(): (s: GridSize)
      reads this
      ensures Valid() ==> s.Capacity() == |tiles|
    {
      gridSize
    }

    method Resize(newSize: GridSize) returns (r: ResizeResult)
      requires Valid()
      modifies this
      ensures Valid()
      ensures (gridSize, tiles, r) == Resized(old(gridSize), old(tiles), newSize)
    {
      var have := gridSize.Capacity();
      var want := newSize.Capacity();
      if have == want {
        return NoChange;
      }

      gridSize := newSize;
      if have < want {
        tiles := tiles + seq(want - have, _ => None);
        return Grow(want - have);
      }

      var slots := tiles;
      var shrink: seq<Entity> := [];
      var i := want;
      while i < |slots|
        invariant want <= i <= |slots|
        invariant shrink == Occupants(slots[want..i])
        invariant tiles == slots && gridSize == newSize
      {
        OccupantsStep(slots, want, i);
        if slots[i].Some? {
          shrink := shrink + [slots[i].value];
        }
        i := i + 1;
      }
      assert slots[want..i] == slots[want..];

      tiles := tiles[..Capacity()];
      return Shrink(shrink);
    }

    /** Vec indexing panics when the slot number is past the end of the table. */
    method Insert(col: nat, row: nat, entity: Entity)
      requires gridSize.IndexOf(col, row) < |tiles|
      modifies this
      ensures gridSize == old(gridSize)
      ensures tiles == old(tiles)[gridSize.IndexOf(col, row) := Some(entity)]
      ensures col < gridSize.Columns() && row < gridSize.Rows() ==> GetTile(col, row) == Some(entity)
    {
      tiles := tiles[gridSize.IndexOf(col, row) := Some(entity)];
    }

    /** A tile is found only at an in-range cell, and it is the one in that cell's slot. */
    function GetTile(col: nat, row: nat): (r: Option<Entity>)
      reads this
      ensures r.Some? ==>
        && col < gridSize.Columns() && row < gridSize.Rows()
        && gridSize.IndexOf(col, row) < |tiles|
        && tiles[gridSize.IndexOf(col, row)] == r
    {
      if col >= gridSize.Columns() || row >= gridSize.Rows() then None
      else
        var index := gridSize.IndexOf(col, row);
        if index >= |tiles| then None
        else tiles[index]
    }

    /**
     * The tile under pixel (x, y), relative to the grid's bottom-left corner:
     * nothing left of or below the grid, nothing right of its width
     * (columns * tile width) or above its height (rows * tile height).
     */
    function GetTileXY(x: int, y: int): (r: Option<Entity>)
      reads this
      requires Valid()
      ensures x < 0 || y < 0 ==> r == None
      ensures x >= gridSize.Columns() * tileWidth || y >= gridSize.Rows() * tileHeight ==> r == None
      ensures r.Some? ==> r in tiles
    {
      if x < 0 || y < 0 then None
      else
        FloorDivBelow(x, tileWidth, gridSize.Columns());
        FloorDivBelow(y, tileHeight, gridSize.Rows());
        GetTile(x / tileWidth, y / tileHeight)
    }
  }

  /** The cell column of a pixel is below the column count only for pixels below the width. */
  lemma FloorDivBelow(x: nat, w: nat, n: nat)
    requires w > 0
    ensures x / w < n <==> x < n * w
  {
    var q, r := x / w, x % w;
    assert x == r + q * w;
    if q < n {
      MulLeq(q + 1, n, w);
    } else {
      MulLeq(n, q, w);
    }
  }

  /** With the invariant, every in-range cell has a slot, and `get_tile` reads it. */
  lemma GetTileInRange(g: Grid, col: nat, row: nat)
    requires g.Valid()
    requires col < g.gridSize.Columns() && row < g.gridSize.Rows()
    ensures g.gridSize.IndexOf(col, row) < |g.tiles|
    ensures g.GetTile(col, row) == g.tiles[g.gridSize.IndexOf(col, row)]
  {
    IndexOfInRange(g.gridSize, col, row);
  }

  /** Every pixel inside cell (col, row) resolves to that cell's tile. */
  lemma GetTileXYInCell(g: Grid, col: nat, row: nat, dx: nat, dy: nat)
    requires g.Valid()
    requires dx < g.tileWidth && dy < g.tileHeight
    ensures g.GetTileXY(col * g.tileWidth + dx, row * g.tileHeight + dy) == g.GetTile(col, row)
  {
    DivModUnique(col * g.tileWidth + dx, g.tileWidth, col, dx);
    DivModUnique(row * g.tileHeight + dy, g.tileHeight, row, dy);
  }
}

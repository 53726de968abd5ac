/** The tile grid of TextureMapperTiledBackingStore, stated on values.

    `createOrDestroyTilesIfNeeded` rounds the visible rectangle outward to the
    tile grid (the cover rectangle), rounds the overlap of the old and new
    visible rectangles inward (the rigid rectangle), keeps every tile inside the
    rigid rectangle, recycles the other tiles for the cells still to be filled,
    appends new tiles once no tile is left to recycle and erases what is left
    over. This module gives the reference definitions of those steps and proves
    what they promise: alignment, containment, "kept tiles unchanged",
    recycle-before-allocate and "the tiles partition the cover rectangle". */
module TileGrid {

  import opened Wrappers
  import opened Geometry

  /** A GPU texture. A reset keeps the texture object (its id) and gives it a
      new size and alpha mode. */
  datatype BitmapTexture = BitmapTexture(id: nat, size: Size, supportsAlpha: bool)

  /** One tile: its grid cell, the part of the cell that was asked for when the
      tile was last placed, and its texture if it has one. */
  datatype TextureMapperTile = TextureMapperTile(rect: Rect, visibleRect: Rect, texture: Option<BitmapTexture>)

  predicate ValidTileSize(ts: Size)
  {
    ts.width > 0 && ts.height > 0
  }

  /** The preferred tile edge, in pixels. */
  const TileTextureSize: int := 512

  function Min(a: int, b: int): int
  {
    if a < b then a else b
  }

  /** The tile size: the preferred edge, clamped to the largest texture the
      texture mapper supports. */
  function TileSizeFor(maxTextureSize: Size): (ts: Size)
    ensures ts.width <= TileTextureSize && ts.width <= maxTextureSize.width
    ensures ts.height <= TileTextureSize && ts.height <= maxTextureSize.height
    ensures ts.width == TileTextureSize || ts.width == maxTextureSize.width
    ensures ts.height == TileTextureSize || ts.height == maxTextureSize.height
    ensures maxTextureSize.width > 0 && maxTextureSize.height > 0 ==> ValidTileSize(ts)
  {
    Size(Min(TileTextureSize, maxTextureSize.width), Min(TileTextureSize, maxTextureSize.height))
  }

  /** All four edges of r on grid lines. */
  predicate GridAligned(r: Rect, ts: Size)
    requires ValidTileSize(ts)
  {
    Aligned(r.x, ts.width) && Aligned(r.MaxX(), ts.width) && Aligned(r.y, ts.height) && Aligned(r.MaxY(), ts.height)
  }

  // ---------------------------------------------------------------------------
  // The cover and rigid rectangles

  /** `coverRect`: the visible rectangle rounded outward to the grid, the
      smallest grid-aligned rectangle that contains it. */
  function CoverRect(v: Rect, ts: Size): (c: Rect)
    requires ValidTileSize(ts) && NonNegative(v)
    ensures NonNegative(c) && GridAligned(c, ts)
    ensures Contains(c, v)
    ensures v.x < c.x + ts.width && v.y < c.y + ts.height
    ensures c.MaxX() < v.MaxX() + ts.width && c.MaxY() < v.MaxY() + ts.height
  {
    var tw, th := ts.width, ts.height;
    var originX, originY := v.x / tw, v.y / th;
    var endX, endY := (v.MaxX() + tw - 1) / tw, (v.MaxY() + th - 1) / th;
    FloorToGrid(v.x, tw); FloorToGrid(v.y, th);
    CeilToGrid(v.MaxX(), tw); CeilToGrid(v.MaxY(), th);
    MultipleIsAligned(originX, tw); MultipleIsAligned(originY, th);
    MultipleIsAligned(endX, tw); MultipleIsAligned(endY, th);
    Rect(originX * tw, originY * th, endX * tw - originX * tw, endY * th - originY * th)
  }

  /** `rigidCoverRect`: the overlap of the old and new visible rectangles
      rounded inward to the grid. It may come out inverted (negative width or
      height), and then it contains no tile. */
  function RigidCoverRect(oldVisible: Rect, v: Rect, ts: Size): (r: Rect)
    requires ValidTileSize(ts) && NonNegative(oldVisible) && NonNegative(v)
    ensures GridAligned(r, ts)
    ensures forall c :: !IsEmpty(c) && Contains(r, c) ==> Contains(oldVisible, c) && Contains(v, c)
    ensures var i := Intersection(oldVisible, v);
      i.x <= r.x < i.x + ts.width && i.y <= r.y < i.y + ts.height &&
      i.MaxX() - ts.width < r.MaxX() <= i.MaxX() && i.MaxY() - ts.height < r.MaxY() <= i.MaxY()
  {
    var tw, th := ts.width, ts.height;
    var i := Intersection(oldVisible, v);
    var originX, originY := (i.x + tw - 1) / tw, (i.y + th - 1) / th;
    var endX, endY := i.MaxX() / tw, i.MaxY() / th;
    CeilToGrid(i.x, tw); CeilToGrid(i.y, th);
    FloorToGrid(i.MaxX(), tw); FloorToGrid(i.MaxY(), th);
    MultipleIsAligned(originX, tw); MultipleIsAligned(originY, th);
    MultipleIsAligned(endX, tw); MultipleIsAligned(endY, th);
    Rect(originX * tw, originY * th, endX * tw - originX * tw, endY * th - originY * th)
  }

  /** The rigid rectangle lies inside both cover rectangles: a tile it contains
      is a cell of the old grid and of the new one. */
  lemma {:induction false} RigidInsideCovers(oldVisible: Rect, v: Rect, ts: Size, c: Rect)
    requires ValidTileSize(ts) && NonNegative(oldVisible) && NonNegative(v)
    requires !IsEmpty(c) && Contains(RigidCoverRect(oldVisible, v, ts), c)
    ensures Contains(CoverRect(oldVisible, ts), c) && Contains(CoverRect(v, ts), c)
  {
    ContainsTransitive(CoverRect(oldVisible, ts), oldVisible, c);
    ContainsTransitive(CoverRect(v, ts), v, c);
  }

  // ---------------------------------------------------------------------------
  // Cells and the partition invariant

  /** A tile-sized rectangle whose corner is on the grid. */
  predicate IsCell(r: Rect, ts: Size)
    requires ValidTileSize(ts)
  {
    r.width == ts.width && r.height == ts.height && Aligned(r.x, ts.width) && Aligned(r.y, ts.height)
  }

  predicate CellOf(r: Rect, cover: Rect, ts: Size)
    requires ValidTileSize(ts)
  {
    IsCell(r, ts) && Contains(cover, r)
  }

  function TileRects(tiles: seq<TextureMapperTile>): (rs: seq<Rect>)
    ensures |rs| == |tiles|
  {
    if tiles == [] then [] else [tiles[0].rect] + TileRects(tiles[1..])
  }

  lemma {:induction false} TileRectsAt(tiles: seq<TextureMapperTile>)
    ensures forall i :: 0 <= i < |tiles| ==> TileRects(tiles)[i] == tiles[i].rect
  {
    if tiles != [] {
      TileRectsAt(tiles[1..]);
    }
  }

  /** The tiles are the cells of `cover`, each exactly once. */
  ghost predicate CoversExactly(tiles: seq<TextureMapperTile>, cover: Rect, ts: Size)
    requires ValidTileSize(ts)
  {
    forall r :: multiset(TileRects(tiles))[r] == if CellOf(r, cover, ts) then 1 else 0
  }

  predicate Overlap(a: Rect, b: Rect)
  {
    a.x < b.MaxX() && b.x < a.MaxX() && a.y < b.MaxY() && b.y < a.MaxY()
  }

  /** Two different cells never overlap. */
  lemma {:induction false} CellsDisjoint(a: Rect, b: Rect, ts: Size)
    requires ValidTileSize(ts) && IsCell(a, ts) && IsCell(b, ts) && a != b
    ensures !Overlap(a, b)
  {
    if a.x < b.x {
      AlignedGap(a.x, b.x, ts.width);
    } else if b.x < a.x {
      AlignedGap(b.x, a.x, ts.width);
    } else if a.y < b.y {
      AlignedGap(a.y, b.y, ts.height);
    } else {
      AlignedGap(b.y, a.y, ts.height);
    }
  }

  lemma {:induction false} TwiceInSeq<T>(s: seq<T>, i: int, j: int)
    requires 0 <= i < j < |s| && s[i] == s[j]
    ensures multiset(s)[s[i]] >= 2
  {
    assert s == s[..i] + [s[i]] + s[i + 1..j] + [s[j]] + s[j + 1..];
  }

  /** Tiles that cover a rectangle exactly lie inside it and never overlap
      each other. */
  lemma {:induction false} PartitionedTilesDoNotOverlap(tiles: seq<TextureMapperTile>, cover: Rect, ts: Size)
    requires ValidTileSize(ts) && CoversExactly(tiles, cover, ts)
    ensures forall i :: 0 <= i < |tiles| ==> CellOf(tiles[i].rect, cover, ts)
    ensures forall i, j :: 0 <= i < j < |tiles| ==> !Overlap(tiles[i].rect, tiles[j].rect)
  {
    var rs := TileRects(tiles);
    TileRectsAt(tiles);
    forall i | 0 <= i < |tiles|
      ensures CellOf(tiles[i].rect, cover, ts)
    {
      assert rs[i] in multiset(rs);
    }
    forall i, j | 0 <= i < j < |tiles|
      ensures !Overlap(tiles[i].rect, tiles[j].rect)
    {
      assert rs[i] in multiset(rs) && rs[j] in multiset(rs);
      if rs[i] == rs[j] {
        TwiceInSeq(rs, i, j);
      }
      CellsDisjoint(rs[i], rs[j], ts);
    }
  }

  lemma {:induction false} FloorAboveAlignedBound(a: int, x: int, t: int)
    requires t > 0 && Aligned(a, t) && a <= x
    ensures a <= (x / t) * t
  {
    var f := (x / t) * t;
    MultipleIsAligned(x / t, t);
    if f < a {
      AlignedGap(f, a, t);
    }
  }

  /** Tiles that cover a non-negative grid-aligned rectangle exactly leave no
      pixel of it uncovered. */
  lemma {:induction false} PartitionedTilesCoverEveryPixel(tiles: seq<TextureMapperTile>, cover: Rect, ts: Size, px: int, py: int)
    requires ValidTileSize(ts) && NonNegative(cover) && GridAligned(cover, ts)
    requires CoversExactly(tiles, cover, ts)
    requires cover.x <= px < cover.MaxX() && cover.y <= py < cover.MaxY()
    ensures exists i :: 0 <= i < |tiles| && Contains(tiles[i].rect, Rect(px, py, 1, 1))
  {
    var tw, th := ts.width, ts.height;
    FloorToGrid(px, tw);
    FloorToGrid(py, th);
    var cell := Rect((px / tw) * tw, (py / th) * th, tw, th);
    MultipleIsAligned(px / tw, tw);
    MultipleIsAligned(py / th, th);
    FloorAboveAlignedBound(cover.x, px, tw);
    FloorAboveAlignedBound(cover.y, py, th);
    AlignedGap(cell.x, cover.MaxX(), tw);
    AlignedGap(cell.y, cover.MaxY(), th);
    assert CellOf(cell, cover, ts);
    var rs := TileRects(tiles);
    TileRectsAt(tiles);
    assert cell in multiset(rs);
    var i :| 0 <= i < |rs| && rs[i] == cell;
    assert Contains(tiles[i].rect, Rect(px, py, 1, 1));
  }

  // ---------------------------------------------------------------------------
  // The cells to add, row by row from the top, left to right

  /** A tile-sized rectangle that the rigid rectangle does not contain. */
  predicate OutsideRigidCell(r: Rect, rigid: Rect, ts: Size)
  {
    r.width == ts.width && r.height == ts.height && !Contains(rigid, r)
  }

  function RowCellsToAdd(x: int, y: int, maxX: int, rigid: Rect, ts: Size): (row: seq<Rect>)
    requires ValidTileSize(ts)
    ensures forall i :: 0 <= i < |row| ==> OutsideRigidCell(row[i], rigid, ts)
    decreases maxX - x
  {
    if x >= maxX then []
    else
      var cell := Rect(x, y, ts.width, ts.height);
      (if Contains(rigid, cell) then [] else [cell]) + RowCellsToAdd(x + ts.width, y, maxX, rigid, ts)
  }

  function RowsCellsToAdd(y: int, cover: Rect, rigid: Rect, ts: Size): (rows: seq<Rect>)
    requires ValidTileSize(ts)
    ensures forall i :: 0 <= i < |rows| ==> OutsideRigidCell(rows[i], rigid, ts)
    decreases cover.MaxY() - y
  {
    if y >= cover.MaxY() then []
    else RowCellsToAdd(cover.x, y, cover.MaxX(), rigid, ts) + RowsCellsToAdd(y + ts.height, cover, rigid, ts)
  }

  /** `tileRectsToAdd`: every cell of the cover rectangle that the rigid
      rectangle does not contain, in row-major order. */
  function TileRectsToAdd(cover: Rect, rigid: Rect, ts: Size): (adds: seq<Rect>)
    requires ValidTileSize(ts)
    ensures forall i :: 0 <= i < |adds| ==> OutsideRigidCell(adds[i], rigid, ts)
  {
    RowsCellsToAdd(cover.y, cover, rigid, ts)
  }

  lemma {:induction false} RowCellsToAddExactly(x: int, y: int, maxX: int, rigid: Rect, ts: Size)
    requires ValidTileSize(ts) && Aligned(x, ts.width) && Aligned(maxX, ts.width) && Aligned(y, ts.height)
    ensures forall r :: multiset(RowCellsToAdd(x, y, maxX, rigid, ts))[r] == RowCount(r, x, y, maxX, rigid, ts)
    decreases maxX - x
  {
    var row := RowCellsToAdd(x, y, maxX, rigid, ts);
    if x < maxX {
      var cell := Rect(x, y, ts.width, ts.height);
      var head := if Contains(rigid, cell) then [] else [cell];
      var rest := RowCellsToAdd(x + ts.width, y, maxX, rigid, ts);
      assert row == head + rest;
      NextAligned(x, ts.width);
      RowCellsToAddExactly(x + ts.width, y, maxX, rigid, ts);
      forall r
        ensures multiset(row)[r] == RowCount(r, x, y, maxX, rigid, ts)
      {
        RowCountStep(r, x, y, maxX, rigid, ts);
      }
    } else {
      forall r
        ensures multiset(row)[r] == RowCount(r, x, y, maxX, rigid, ts)
      {
      }
    }
  }

  /** How often cell r is to be added by the row starting at x. */
  function RowCount(r: Rect, x: int, y: int, maxX: int, rigid: Rect, ts: Size): nat
    requires ValidTileSize(ts)
  {
    if IsCell(r, ts) && r.y == y && x <= r.x && r.MaxX() <= maxX && !Contains(rigid, r) then 1 else 0
  }

  lemma {:induction false} RowCountStep(r: Rect, x: int, y: int, maxX: int, rigid: Rect, ts: Size)
    requires ValidTileSize(ts) && Aligned(x, ts.width) && Aligned(maxX, ts.width) && Aligned(y, ts.height) && x < maxX
    ensures var cell := Rect(x, y, ts.width, ts.height);
      RowCount(r, x, y, maxX, rigid, ts) ==
      (if r == cell && !Contains(rigid, cell) then 1 else 0) + RowCount(r, x + ts.width, y, maxX, rigid, ts)
  {
    AlignedGap(x, maxX, ts.width);
    if IsCell(r, ts) && x < r.x {
      AlignedGap(x, r.x, ts.width);
    }
  }

  /** How often cell r is to be added by the rows starting at y. */
  function RowsCount(r: Rect, y: int, cover: Rect, rigid: Rect, ts: Size): nat
    requires ValidTileSize(ts)
  {
    if IsCell(r, ts) && cover.x <= r.x && r.MaxX() <= cover.MaxX() && y <= r.y && r.MaxY() <= cover.MaxY()
       && !Contains(rigid, r) then 1 else 0
  }

  lemma {:induction false} RowsCountStep(r: Rect, y: int, cover: Rect, rigid: Rect, ts: Size)
    requires ValidTileSize(ts) && GridAligned(cover, ts) && Aligned(y, ts.height) && y < cover.MaxY()
    ensures RowsCount(r, y, cover, rigid, ts) ==
      RowCount(r, cover.x, y, cover.MaxX(), rigid, ts) + RowsCount(r, y + ts.height, cover, rigid, ts)
  {
    AlignedGap(y, cover.MaxY(), ts.height);
    if IsCell(r, ts) && y < r.y {
      AlignedGap(y, r.y, ts.height);
    }
  }

  lemma {:induction false} RowsCellsToAddExactly(y: int, cover: Rect, rigid: Rect, ts: Size)
    requires ValidTileSize(ts) && GridAligned(cover, ts) && Aligned(y, ts.height)
    ensures forall r :: multiset(RowsCellsToAdd(y, cover, rigid, ts))[r] == RowsCount(r, y, cover, rigid, ts)
    decreases cover.MaxY() - y
  {
    var rows := RowsCellsToAdd(y, cover, rigid, ts);
    if y < cover.MaxY() {
      var row := RowCellsToAdd(cover.x, y, cover.MaxX(), rigid, ts);
      var rest := RowsCellsToAdd(y + ts.height, cover, rigid, ts);
      assert rows == row + rest;
      NextAligned(y, ts.height);
      RowCellsToAddExactly(cover.x, y, cover.MaxX(), rigid, ts);
      RowsCellsToAddExactly(y + ts.height, cover, rigid, ts);
      forall r
        ensures multiset(rows)[r] == RowsCount(r, y, cover, rigid, ts)
      {
        RowsCountStep(r, y, cover, rigid, ts);
      }
    } else {
      forall r
        ensures multiset(rows)[r] == RowsCount(r, y, cover, rigid, ts)
      {
      }
    }
  }

  /** Each cell of the cover rectangle outside the rigid rectangle is to be
      added exactly once, and nothing else is. */
  lemma {:induction false} TileRectsToAddExactly(cover: Rect, rigid: Rect, ts: Size)
    requires ValidTileSize(ts) && GridAligned(cover, ts)
    ensures forall r :: multiset(TileRectsToAdd(cover, rigid, ts))[r] ==
                        (if CellOf(r, cover, ts) && !Contains(rigid, r) then 1 else 0)
    ensures forall i :: 0 <= i < |TileRectsToAdd(cover, rigid, ts)| ==>
      var a := TileRectsToAdd(cover, rigid, ts)[i]; CellOf(a, cover, ts) && !Contains(rigid, a)
  {
    RowsCellsToAddExactly(cover.y, cover, rigid, ts);
    var adds := TileRectsToAdd(cover, rigid, ts);
    forall i | 0 <= i < |adds|
      ensures CellOf(adds[i], cover, ts) && !Contains(rigid, adds[i])
    {
      assert adds[i] in multiset(adds);
    }
  }

  // ---------------------------------------------------------------------------
  // Removal candidates

  /** A tile the rigid rectangle does not contain "may not be needed". */
  predicate Removable(t: TextureMapperTile, rigid: Rect)
  {
    !Contains(rigid, t.rect)
  }

  function NumRemovable(s: seq<TextureMapperTile>, rigid: Rect): (n: nat)
    ensures n <= |s|
  {
    if s == [] then 0 else (if Removable(s[0], rigid) then 1 else 0) + NumRemovable(s[1..], rigid)
  }

  lemma {:induction false} NumRemovableAppend(a: seq<TextureMapperTile>, b: seq<TextureMapperTile>, rigid: Rect)
    ensures NumRemovable(a + b, rigid) == NumRemovable(a, rigid) + NumRemovable(b, rigid)
  {
    if a != [] {
      assert (a + b)[0] == a[0] && (a + b)[1..] == a[1..] + b;
      NumRemovableAppend(a[1..], b, rigid);
    } else {
      assert a + b == b;
    }
  }

  /** `tileIndicesToRemove` as collected over the index range [lo, hi), walking
      down from hi - 1: the indices of the removable tiles, largest first. */
  function CandidatesDesc(s: seq<TextureMapperTile>, rigid: Rect, lo: nat, hi: nat): (d: seq<nat>)
    requires lo <= hi <= |s|
    ensures |d| <= hi - lo
    decreases hi - lo
  {
    if lo == hi then []
    else CandidatesDesc(s, rigid, lo + 1, hi) + (if Removable(s[lo], rigid) then [lo] else [])
  }

  lemma {:induction false} NumRemovableFront(s: seq<TextureMapperTile>, rigid: Rect, lo: nat, x: nat)
    requires lo < x <= |s|
    ensures NumRemovable(s[lo..x], rigid) == (if Removable(s[lo], rigid) then 1 else 0) + NumRemovable(s[lo + 1..x], rigid)
  {
    assert s[lo..x][1..] == s[lo + 1..x];
  }

  /** There is one candidate per removable tile of the range. */
  lemma {:induction false} CandidatesDescCount(s: seq<TextureMapperTile>, rigid: Rect, lo: nat, hi: nat)
    requires lo <= hi <= |s|
    ensures |CandidatesDesc(s, rigid, lo, hi)| == NumRemovable(s[lo..hi], rigid)
    decreases hi - lo
  {
    if lo < hi {
      CandidatesDescCount(s, rigid, lo + 1, hi);
      NumRemovableFront(s, rigid, lo, hi);
    } else {
      assert s[lo..hi] == [];
    }
  }

  /** The candidates are removable indices of the range, and the candidate at
      position i has |d| - 1 - i removable tiles below it in the range: the
      list is strictly descending and its last element is the smallest
      removable index. */
  lemma {:induction false} CandidatesDescFacts(s: seq<TextureMapperTile>, rigid: Rect, lo: nat, hi: nat)
    requires lo <= hi <= |s|
    ensures var d := CandidatesDesc(s, rigid, lo, hi);
      && |d| == NumRemovable(s[lo..hi], rigid)
      && (forall i :: 0 <= i < |d| ==>
            lo <= d[i] < hi && Removable(s[d[i]], rigid) && NumRemovable(s[lo..d[i]], rigid) == |d| - 1 - i)
    decreases hi - lo
  {
    CandidatesDescCount(s, rigid, lo, hi);
    if lo < hi {
      var rest := CandidatesDesc(s, rigid, lo + 1, hi);
      CandidatesDescFacts(s, rigid, lo + 1, hi);
      CandidatesDescCount(s, rigid, lo + 1, hi);
      var d := CandidatesDesc(s, rigid, lo, hi);
      var head: seq<nat> := if Removable(s[lo], rigid) then [lo] else [];
      assert d == rest + head;
      forall i | 0 <= i < |d|
        ensures lo <= d[i] < hi && Removable(s[d[i]], rigid) && NumRemovable(s[lo..d[i]], rigid) == |d| - 1 - i
      {
        if i < |rest| {
          assert d[i] == rest[i];
          NumRemovableFront(s, rigid, lo, rest[i]);
        } else {
          assert d[i] == lo && s[lo..lo] == [];
        }
      }
    }
  }

  /** Skipping tiles that are not removable does not change the candidates. */
  lemma {:induction false} CandidatesDescSkip(s: seq<TextureMapperTile>, rigid: Rect, lo: nat, c: nat, hi: nat)
    requires lo <= c <= hi <= |s| && NumRemovable(s[lo..c], rigid) == 0
    ensures CandidatesDesc(s, rigid, lo, hi) == CandidatesDesc(s, rigid, c, hi)
    decreases c - lo
  {
    if lo < c {
      NumRemovableFront(s, rigid, lo, c);
      CandidatesDescSkip(s, rigid, lo + 1, c, hi);
    }
  }

  // ---------------------------------------------------------------------------
  // Recycling and erasing

  /** What the recycling step needs besides the tiles: the rigid rectangle, the
      tile size and whether a reset texture must support alpha. */
  datatype Recycling = Recycling(rigid: Rect, tileSize: Size, hasAlpha: bool)

  /** A removable tile reused in place for `cell`: new rect and visible rect,
      and its texture, if any, reset to the tile size rather than dropped. */
  function Recycle(t: TextureMapperTile, cell: Rect, p: Recycling): (r: TextureMapperTile)
    ensures r.rect == Rect(cell.x, cell.y, p.tileSize.width, p.tileSize.height) && r.visibleRect == cell
    ensures r.texture.Some? <==> t.texture.Some?
    ensures t.texture.Some? ==>
      r.texture.value.id == t.texture.value.id && r.texture.value.size == p.tileSize
      && r.texture.value.supportsAlpha == p.hasAlpha
  {
    var tile := t.(rect := Rect(cell.x, cell.y, p.tileSize.width, p.tileSize.height), visibleRect := cell);
    match tile.texture
    case None => tile
    case Some(texture) => tile.(texture := Some(BitmapTexture(texture.id, p.tileSize, p.hasAlpha)))
  }

  /** `TextureMapperTile(tileRect, rect)`: a fresh tile, without a texture. */
  function NewTile(cell: Rect, ts: Size): TextureMapperTile
  {
    TextureMapperTile(Rect(cell.x, cell.y, ts.width, ts.height), cell, None)
  }

  function NewTiles(cells: seq<Rect>, ts: Size): (r: seq<TextureMapperTile>)
    ensures |r| == |cells|
  {
    if cells == [] then [] else [NewTile(cells[0], ts)] + NewTiles(cells[1..], ts)
  }

  /** Reference definition of the recycling and erasing steps, walking the
      tiles in index order: a tile inside the rigid rectangle stays; a
      removable tile takes the next cell to add while there is one; of the
      removable tiles left after that, the first `keep` stay untouched and the
      rest are erased; cells still unassigned at the end become new tiles. */
  function Regrid(s: seq<TextureMapperTile>, p: Recycling, adds: seq<Rect>, keep: nat): seq<TextureMapperTile>
  {
    if s == [] then NewTiles(adds, p.tileSize)
    else if !Removable(s[0], p.rigid) then [s[0]] + Regrid(s[1..], p, adds, keep)
    else if adds != [] then [Recycle(s[0], adds[0], p)] + Regrid(s[1..], p, adds[1..], keep)
    else if keep > 0 then [s[0]] + Regrid(s[1..], p, [], keep - 1)
    else Regrid(s[1..], p, [], 0)
  }

  /** How many removable tiles the erase loop leaves in place: it erases the
      leftovers, largest index first, while more than `threshold` tiles remain. */
  function Survivors(n: nat, removable: nat, added: nat, threshold: nat): (r: nat)
    ensures added >= removable ==> r == 0
    ensures added < removable ==> r <= removable - added
    ensures n <= threshold && added < removable ==> r == removable - added
    ensures r > 0 ==> n - (removable - added - r) == Min(n, threshold)
  {
    if added >= removable then 0
    else
      var leftover := removable - added;
      var erasable := if n > threshold then n - threshold else 0;
      leftover - Min(leftover, erasable)
  }

  // Bookkeeping lemmas that let the loops of the store be compared with Regrid.

  lemma {:induction false} RegridNoRemovable(s: seq<TextureMapperTile>, p: Recycling, adds: seq<Rect>, keep: nat)
    requires NumRemovable(s, p.rigid) == 0
    ensures Regrid(s, p, adds, keep) == s + NewTiles(adds, p.tileSize)
  {
    if s != [] {
      assert !Removable(s[0], p.rigid);
      RegridNoRemovable(s[1..], p, adds, keep);
      calc {
        Regrid(s, p, adds, keep);
        [s[0]] + Regrid(s[1..], p, adds, keep);
        [s[0]] + (s[1..] + NewTiles(adds, p.tileSize));
        { assert [s[0]] + s[1..] == s; }
        s + NewTiles(adds, p.tileSize);
      }
    }
  }

  lemma {:induction false} RegridSplit(a: seq<TextureMapperTile>, b: seq<TextureMapperTile>, p: Recycling,
                                       xs: seq<Rect>, ys: seq<Rect>, keep: nat)
    requires NumRemovable(a, p.rigid) == |xs|
    ensures Regrid(a + b, p, xs + ys, keep) == Regrid(a, p, xs, 0) + Regrid(b, p, ys, keep)
  {
    if a == [] {
      assert a + b == b && xs + ys == ys;
    } else {
      assert (a + b)[0] == a[0] && (a + b)[1..] == a[1..] + b;
      if !Removable(a[0], p.rigid) {
        RegridSplit(a[1..], b, p, xs, ys, keep);
      } else {
        assert (xs + ys)[0] == xs[0] && (xs + ys)[1..] == xs[1..] + ys;
        RegridSplit(a[1..], b, p, xs[1..], ys, keep);
      }
    }
  }

  lemma {:induction false} RegridKeepSplit(a: seq<TextureMapperTile>, b: seq<TextureMapperTile>, p: Recycling, keep: nat)
    requires NumRemovable(a, p.rigid) <= keep
    ensures Regrid(a + b, p, [], keep) == a + Regrid(b, p, [], keep - NumRemovable(a, p.rigid))
  {
    if a == [] {
      assert a + b == b;
    } else {
      HeadTail(a, b);
      var k := if Removable(a[0], p.rigid) then keep - 1 else keep;
      assert Regrid(a + b, p, [], keep) == [a[0]] + Regrid(a[1..] + b, p, [], k);
      RegridKeepSplit(a[1..], b, p, k);
      HeadTail(a, Regrid(b, p, [], keep - NumRemovable(a, p.rigid)));
    }
  }

  lemma {:induction false} HeadTail<T>(a: seq<T>, b: seq<T>)
    requires a != []
    ensures (a + b)[0] == a[0] && (a + b)[1..] == a[1..] + b && [a[0]] + (a[1..] + b) == a + b
  {
  }

  lemma {:induction false} NewTilesAppend(xs: seq<Rect>, ys: seq<Rect>, ts: Size)
    ensures NewTiles(xs + ys, ts) == NewTiles(xs, ts) + NewTiles(ys, ts)
  {
    if xs == [] {
      assert xs + ys == ys;
    } else {
      assert (xs + ys)[0] == xs[0] && (xs + ys)[1..] == xs[1..] + ys;
      NewTilesAppend(xs[1..], ys, ts);
    }
  }

  lemma {:induction false} NewTilesAt(cells: seq<Rect>, ts: Size)
    ensures forall i :: 0 <= i < |cells| ==> NewTiles(cells, ts)[i] == NewTile(cells[i], ts)
  {
    if cells != [] {
      NewTilesAt(cells[1..], ts);
    }
  }

  lemma {:induction false} RegridExtraCells(s: seq<TextureMapperTile>, p: Recycling, xs: seq<Rect>, ys: seq<Rect>, keep: nat)
    requires NumRemovable(s, p.rigid) <= |xs|
    ensures Regrid(s, p, xs + ys, keep) == Regrid(s, p, xs, keep) + NewTiles(ys, p.tileSize)
  {
    if s == [] {
      NewTilesAppend(xs, ys, p.tileSize);
    } else if !Removable(s[0], p.rigid) {
      RegridExtraCells(s[1..], p, xs, ys, keep);
    } else {
      assert (xs + ys)[0] == xs[0] && (xs + ys)[1..] == xs[1..] + ys;
      RegridExtraCells(s[1..], p, xs[1..], ys, keep);
    }
  }

  // ---------------------------------------------------------------------------
  // What the reference definition promises

  /** The tiles the rigid rectangle contains come out unchanged, in the same
      order, none erased, and no recycled or new tile joins them. */
  lemma {:induction false} RegridKeepsRigidTiles(s: seq<TextureMapperTile>, p: Recycling, adds: seq<Rect>, keep: nat)
    requires forall i :: 0 <= i < |adds| ==>
      !Contains(p.rigid, Rect(adds[i].x, adds[i].y, p.tileSize.width, p.tileSize.height))
    ensures KeptTiles(Regrid(s, p, adds, keep), p.rigid) == KeptTiles(s, p.rigid)
  {
    if s == [] {
      NewTilesOutsideRigid(adds, p);
    } else if !Removable(s[0], p.rigid) {
      RegridKeepsRigidTiles(s[1..], p, adds, keep);
    } else if adds != [] {
      RegridKeepsRigidTiles(s[1..], p, adds[1..], keep);
    } else if keep > 0 {
      RegridKeepsRigidTiles(s[1..], p, [], keep - 1);
    } else {
      RegridKeepsRigidTiles(s[1..], p, [], 0);
    }
  }

  /** The tiles of s that the rigid rectangle contains, in order. */
  function KeptTiles(s: seq<TextureMapperTile>, rigid: Rect): (k: seq<TextureMapperTile>)
    ensures |k| == |s| - NumRemovable(s, rigid)
    ensures forall i :: 0 <= i < |k| ==> !Removable(k[i], rigid)
  {
    if s == [] then []
    else if Removable(s[0], rigid) then KeptTiles(s[1..], rigid)
    else [s[0]] + KeptTiles(s[1..], rigid)
  }

  lemma {:induction false} NewTilesOutsideRigid(adds: seq<Rect>, p: Recycling)
    requires forall i :: 0 <= i < |adds| ==>
      !Contains(p.rigid, Rect(adds[i].x, adds[i].y, p.tileSize.width, p.tileSize.height))
    ensures KeptTiles(NewTiles(adds, p.tileSize), p.rigid) == []
  {
    if adds != [] {
      NewTilesOutsideRigid(adds[1..], p);
    }
  }

  /** Recycle before allocate: when there are at least as many cells to add as
      removable tiles, every removable tile is reused in place and exactly
      |adds| - k new tiles, without textures, are appended for the last cells. */
  lemma {:induction false} RegridAppendsOnlyWhenPoolIsEmpty(s: seq<TextureMapperTile>, p: Recycling, adds: seq<Rect>, keep: nat)
    requires |adds| >= NumRemovable(s, p.rigid)
    ensures var r := Regrid(s, p, adds, keep); var k := NumRemovable(s, p.rigid);
      |r| == |s| + (|adds| - k) && r[|s|..] == NewTiles(adds[k..], p.tileSize)
  {
    if s == [] {
    } else if !Removable(s[0], p.rigid) {
      RegridAppendsOnlyWhenPoolIsEmpty(s[1..], p, adds, keep);
    } else {
      RegridAppendsOnlyWhenPoolIsEmpty(s[1..], p, adds[1..], keep);
      assert adds[1..][NumRemovable(s[1..], p.rigid)..] == adds[NumRemovable(s, p.rigid)..];
    }
  }

  /** When the cells run out first, nothing is appended: the tile count
      shrinks by the leftover removable tiles beyond the first `keep`. */
  lemma {:induction false} RegridLengthWithLeftovers(s: seq<TextureMapperTile>, p: Recycling, adds: seq<Rect>, keep: nat)
    requires |adds| < NumRemovable(s, p.rigid)
    ensures var k := NumRemovable(s, p.rigid);
      |Regrid(s, p, adds, keep)| == |s| - (k - |adds|) + Min(keep, k - |adds|)
  {
    if !Removable(s[0], p.rigid) {
      RegridLengthWithLeftovers(s[1..], p, adds, keep);
    } else if adds != [] {
      RegridLengthWithLeftovers(s[1..], p, adds[1..], keep);
    } else {
      RegridShrinks(s, p, keep);
    }
  }

  /** With no cells left, the erase keeps every tile inside the rigid
      rectangle and, of the removable tiles, exactly the first `keep` in index
      order; with keep 0 only the tiles inside the rigid rectangle remain. */
  lemma {:induction false} RegridShrinks(s: seq<TextureMapperTile>, p: Recycling, keep: nat)
    ensures var k := NumRemovable(s, p.rigid); var r := Regrid(s, p, [], keep);
      && |r| == |s| - k + Min(keep, k)
      && KeptTiles(r, p.rigid) == KeptTiles(s, p.rigid)
      && RemovableTiles(r, p.rigid) == RemovableTiles(s, p.rigid)[..Min(keep, k)]
    ensures keep == 0 ==> Regrid(s, p, [], 0) == KeptTiles(s, p.rigid)
  {
    if s == [] {
    } else {
      var r := Regrid(s, p, [], keep);
      var t := s[1..];
      if !Removable(s[0], p.rigid) {
        RegridShrinks(t, p, keep);
        UnfoldFilters([s[0]] + Regrid(t, p, [], keep), p.rigid);
      } else if keep > 0 {
        RegridShrinks(t, p, keep - 1);
        UnfoldFilters([s[0]] + Regrid(t, p, [], keep - 1), p.rigid);
        var rt := RemovableTiles(t, p.rigid);
        assert RemovableTiles(s, p.rigid) == [s[0]] + rt;
        assert ([s[0]] + rt)[..Min(keep, NumRemovable(s, p.rigid))] == [s[0]] + rt[..Min(keep - 1, NumRemovable(t, p.rigid))];
      } else {
        RegridShrinks(t, p, 0);
      }
    }
  }

  /** The removable tiles of s, in order. */
  function RemovableTiles(s: seq<TextureMapperTile>, rigid: Rect): (r: seq<TextureMapperTile>)
    ensures |r| == NumRemovable(s, rigid)
    ensures forall i :: 0 <= i < |r| ==> Removable(r[i], rigid)
  {
    if s == [] then []
    else if Removable(s[0], rigid) then [s[0]] + RemovableTiles(s[1..], rigid)
    else RemovableTiles(s[1..], rigid)
  }

  lemma {:induction false} UnfoldFilters(s: seq<TextureMapperTile>, rigid: Rect)
    requires s != []
    ensures KeptTiles(s, rigid) == if Removable(s[0], rigid) then KeptTiles(s[1..], rigid) else [s[0]] + KeptTiles(s[1..], rigid)
    ensures RemovableTiles(s, rigid) == if Removable(s[0], rigid) then [s[0]] + RemovableTiles(s[1..], rigid) else RemovableTiles(s[1..], rigid)
  {
  }

  /** The threshold is a floor: after recycling and erasing, at least as many
      tiles remain as the threshold, or as there were, whichever is fewer. */
  lemma {:induction false} EraseStopsAtThreshold(s: seq<TextureMapperTile>, p: Recycling, adds: seq<Rect>, threshold: nat)
    ensures var k := NumRemovable(s, p.rigid);
      |Regrid(s, p, adds, Survivors(|s|, k, |adds|, threshold))| >= Min(|s|, threshold)
  {
    var k := NumRemovable(s, p.rigid);
    var keep := Survivors(|s|, k, |adds|, threshold);
    if |adds| >= k {
      RegridAppendsOnlyWhenPoolIsEmpty(s, p, adds, keep);
    } else {
      RegridLengthWithLeftovers(s, p, adds, keep);
    }
  }

  /** Removable tiles are recycled from the smallest index: the removable tile
      with j removable tiles before it takes the j-th cell to add, in place,
      and every tile before it keeps its index. */
  lemma {:induction false} RegridRecyclesInIndexOrder(s: seq<TextureMapperTile>, p: Recycling, adds: seq<Rect>, keep: nat, i: nat)
    requires i < |s| && NumRemovable(s[..i], p.rigid) < |adds|
    ensures var r := Regrid(s, p, adds, keep);
      i < |r| && r[i] == if Removable(s[i], p.rigid) then Recycle(s[i], adds[NumRemovable(s[..i], p.rigid)], p) else s[i]
  {
    if i > 0 {
      assert s[..i] == [s[0]] + s[1..][..i - 1];
      if !Removable(s[0], p.rigid) {
        RegridRecyclesInIndexOrder(s[1..], p, adds, keep, i - 1);
      } else {
        assert adds[1..][NumRemovable(s[1..][..i - 1], p.rigid)] == adds[NumRemovable(s[..i], p.rigid)];
        RegridRecyclesInIndexOrder(s[1..], p, adds[1..], keep, i - 1);
      }
    }
  }

  lemma {:induction false} NewTileRects(cells: seq<Rect>, ts: Size)
    requires forall i :: 0 <= i < |cells| ==> cells[i].width == ts.width && cells[i].height == ts.height
    ensures TileRects(NewTiles(cells, ts)) == cells
  {
    if cells != [] {
      NewTileRects(cells[1..], ts);
    }
  }

  /** One step of the walk when the first tile is removable and a cell is
      left: that tile is recycled for the first cell and the walk goes on with
      the rest; the tile is not among the kept tiles. */
  lemma {:induction false} RegridUnfoldRecycle(s: seq<TextureMapperTile>, p: Recycling, adds: seq<Rect>)
    requires s != [] && Removable(s[0], p.rigid) && adds != []
    ensures Regrid(s, p, adds, 0) == [Recycle(s[0], adds[0], p)] + Regrid(s[1..], p, adds[1..], 0)
    ensures KeptTiles(s, p.rigid) == KeptTiles(s[1..], p.rigid)
  {
  }

  lemma {:induction false} MultisetCons<X>(x: X, xs: seq<X>)
    ensures multiset([x] + xs) == multiset{x} + multiset(xs)
  {
  }

  lemma {:induction false} TileRectsCons(t: TextureMapperTile, rest: seq<TextureMapperTile>)
    ensures TileRects([t] + rest) == [t.rect] + TileRects(rest)
  {
    assert ([t] + rest)[1..] == rest;
  }

  /** With no threshold, the rectangles after recycling are the kept tiles'
      rectangles plus the cells to add, each once. */
  lemma {:induction false} RegridRects(s: seq<TextureMapperTile>, p: Recycling, adds: seq<Rect>)
    requires forall i :: 0 <= i < |adds| ==> adds[i].width == p.tileSize.width && adds[i].height == p.tileSize.height
    ensures multiset(TileRects(Regrid(s, p, adds, 0))) == multiset(TileRects(KeptTiles(s, p.rigid))) + multiset(adds)
  {
    if s == [] {
      NewTileRects(adds, p.tileSize);
    } else if !Removable(s[0], p.rigid) {
      RegridRects(s[1..], p, adds);
      RegridRectsKeptStep(s, p, adds);
    } else if adds != [] {
      RegridRects(s[1..], p, adds[1..]);
      RegridRectsRecycleStep(s, p, adds);
    } else {
      assert Regrid(s, p, adds, 0) == Regrid(s[1..], p, [], 0);
      assert KeptTiles(s, p.rigid) == KeptTiles(s[1..], p.rigid);
      RegridRects(s[1..], p, []);
    }
  }

  lemma {:induction false} RegridRectsKeptStep(s: seq<TextureMapperTile>, p: Recycling, adds: seq<Rect>)
    requires s != [] && !Removable(s[0], p.rigid)
    requires multiset(TileRects(Regrid(s[1..], p, adds, 0))) == multiset(TileRects(KeptTiles(s[1..], p.rigid))) + multiset(adds)
    ensures multiset(TileRects(Regrid(s, p, adds, 0))) == multiset(TileRects(KeptTiles(s, p.rigid))) + multiset(adds)
  {
    TileRectsCons(s[0], Regrid(s[1..], p, adds, 0));
    TileRectsCons(s[0], KeptTiles(s[1..], p.rigid));
  }

  lemma {:induction false} RegridRectsRecycleStep(s: seq<TextureMapperTile>, p: Recycling, adds: seq<Rect>)
    requires s != [] && Removable(s[0], p.rigid) && adds != []
    requires adds[0].width == p.tileSize.width && adds[0].height == p.tileSize.height
    requires multiset(TileRects(Regrid(s[1..], p, adds[1..], 0))) ==
             multiset(TileRects(KeptTiles(s[1..], p.rigid))) + multiset(adds[1..])
    ensures multiset(TileRects(Regrid(s, p, adds, 0))) == multiset(TileRects(KeptTiles(s, p.rigid))) + multiset(adds)
  {
    var t := Recycle(s[0], adds[0], p);
    RegridUnfoldRecycle(s, p, adds);
    ConsRects(Regrid(s, p, adds, 0), t, Regrid(s[1..], p, adds[1..], 0), KeptTiles(s, p.rigid), adds[1..], adds);
  }

  lemma {:induction false} ConsRects(whole: seq<TextureMapperTile>, t: TextureMapperTile, rest: seq<TextureMapperTile>,
                  kept: seq<TextureMapperTile>, restCells: seq<Rect>, cells: seq<Rect>)
    requires whole == [t] + rest && cells != [] && cells[0] == t.rect && restCells == cells[1..]
    requires multiset(TileRects(rest)) == multiset(TileRects(kept)) + multiset(restCells)
    ensures multiset(TileRects(whole)) == multiset(TileRects(kept)) + multiset(cells)
  {
    TileRectsCons(t, rest);
    MultisetCons(t.rect, TileRects(rest));
    MultisetHead(cells);
  }

  lemma {:induction false} MultisetHead<X>(xs: seq<X>)
    requires xs != []
    ensures multiset(xs) == multiset{xs[0]} + multiset(xs[1..])
  {
    assert xs == [xs[0]] + xs[1..];
  }

  lemma {:induction false} KeptTileRects(s: seq<TextureMapperTile>, rigid: Rect)
    ensures forall r :: multiset(TileRects(KeptTiles(s, rigid)))[r] ==
                        (if Contains(rigid, r) then multiset(TileRects(s))[r] else 0)
  {
    if s != [] {
      KeptTileRects(s[1..], rigid);
      var k := KeptTiles(s[1..], rigid);
      assert TileRects(s) == [s[0].rect] + TileRects(s[1..]);
      if !Removable(s[0], rigid) {
        assert TileRects([s[0]] + k) == [s[0].rect] + TileRects(k) by {
          assert ([s[0]] + k)[1..] == k;
        }
      }
    }
  }

  /** The tiles partition the cover rectangle: if before the step the tiles
      were exactly the cells of the old cover rectangle, then after recycling
      with no threshold they are exactly the cells of the new one. */
  lemma {:induction false} RegridPartitionsCover(s: seq<TextureMapperTile>, oldVisible: Rect, v: Rect, ts: Size, hasAlpha: bool)
    requires ValidTileSize(ts) && NonNegative(oldVisible) && NonNegative(v)
    requires CoversExactly(s, CoverRect(oldVisible, ts), ts)
    ensures var rigid := RigidCoverRect(oldVisible, v, ts);
      var cover := CoverRect(v, ts);
      CoversExactly(Regrid(s, Recycling(rigid, ts, hasAlpha), TileRectsToAdd(cover, rigid, ts), 0), cover, ts)
  {
    var rigid := RigidCoverRect(oldVisible, v, ts);
    var cover := CoverRect(v, ts);
    var oldCover := CoverRect(oldVisible, ts);
    var p := Recycling(rigid, ts, hasAlpha);
    var adds := TileRectsToAdd(cover, rigid, ts);
    TileRectsToAddExactly(cover, rigid, ts);
    RegridRects(s, p, adds);
    KeptTileRects(s, rigid);
    var result := Regrid(s, p, adds, 0);
    forall r
      ensures multiset(TileRects(result))[r] == if CellOf(r, cover, ts) then 1 else 0
    {
      if Contains(rigid, r) && IsCell(r, ts) {
        RigidInsideCovers(oldVisible, v, ts, r);
      }
    }
  }

  /** With no threshold every tile not inside the rigid rectangle comes out
      holding a cell to add: its visible rectangle is its rectangle, and its
      texture, if any, has the tile size and the requested alpha mode. */
  lemma {:induction false} RegridPlacesEveryOtherTile(s: seq<TextureMapperTile>, p: Recycling, adds: seq<Rect>)
    requires forall i :: 0 <= i < |adds| ==> adds[i].width == p.tileSize.width && adds[i].height == p.tileSize.height
    ensures forall t :: t in Regrid(s, p, adds, 0) && Removable(t, p.rigid) ==>
      t.rect in adds && t.visibleRect == t.rect &&
      (t.texture.Some? ==> t.texture.value.size == p.tileSize && t.texture.value.supportsAlpha == p.hasAlpha)
  {
    if s == [] {
      NewTilesAt(adds, p.tileSize);
    } else if !Removable(s[0], p.rigid) {
      RegridPlacesEveryOtherTile(s[1..], p, adds);
    } else if adds != [] {
      RegridPlacesEveryOtherTile(s[1..], p, adds[1..]);
    } else {
      RegridPlacesEveryOtherTile(s[1..], p, []);
    }
  }

  // ---------------------------------------------------------------------------
  // Single steps of the recycling and erasing loops, stated on values

  /** Recycling the first removable tile x after the prefix a (whose removable
      tiles took the cells xs) for `cell`, in place. */
  lemma {:induction false} RecycleInPlace(a: seq<TextureMapperTile>, mid: seq<TextureMapperTile>, x: TextureMapperTile,
                       rest: seq<TextureMapperTile>, p: Recycling, xs: seq<Rect>, cell: Rect)
    requires NumRemovable(a, p.rigid) == |xs| && NumRemovable(mid, p.rigid) == 0 && Removable(x, p.rigid)
    ensures NumRemovable(a + (mid + [x]), p.rigid) == |xs| + 1
    ensures |Regrid(a, p, xs, 0)| == |a|
    ensures (Regrid(a, p, xs, 0) + (mid + [x] + rest))[|a| + |mid| := Recycle(x, cell, p)] ==
            Regrid(a + (mid + [x]), p, xs + [cell], 0) + rest
  {
    NumRemovableAppend(mid, [x], p.rigid);
    NumRemovableAppend(a, mid + [x], p.rigid);
    RegridAppendsOnlyWhenPoolIsEmpty(a, p, xs, 0);
    var r := Regrid(a, p, xs, 0);
    var y := Recycle(x, cell, p);
    assert Regrid(mid + [x], p, [cell], 0) == mid + [y] by {
      assert [] + [cell] == [cell];
      RegridSplit(mid, [x], p, [], [cell], 0);
      RegridNoRemovable(mid, p, [], 0);
      assert Regrid(mid, p, [], 0) == mid;
      assert Regrid([x], p, [cell], 0) == [y] + Regrid([], p, [], 0);
    }
    RegridSplit(a, mid + [x], p, xs, [cell], 0);
    assert (r + (mid + [x] + rest))[|a| + |mid| := y] == r + (mid + [y]) + rest;
  }

  /** A recycling step while removable tiles remain: the smallest remaining
      candidate c is the next removable tile in index order, and recycling it in
      place for the j-th cell extends the reference result by one cell. */
  lemma {:induction false} RecycleStep(s: seq<TextureMapperTile>, p: Recycling, adds: seq<Rect>, j: nat, lo: nat)
    requires lo <= |s| && j < |adds|
    requires NumRemovable(s[..lo], p.rigid) == j
    requires CandidatesDesc(s, p.rigid, lo, |s|) != []
    ensures var d := CandidatesDesc(s, p.rigid, lo, |s|); var c := d[|d| - 1];
      var tiles := Regrid(s[..lo], p, adds[..j], 0) + s[lo..];
      && lo <= c < |s| && c < |tiles| && tiles[c] == s[c]
      && d[..|d| - 1] == CandidatesDesc(s, p.rigid, c + 1, |s|)
      && NumRemovable(s[..c + 1], p.rigid) == j + 1
      && tiles[c := Recycle(s[c], adds[j], p)] == Regrid(s[..c + 1], p, adds[..j + 1], 0) + s[c + 1..]
  {
    var d := CandidatesDesc(s, p.rigid, lo, |s|);
    SmallestCandidate(s, p.rigid, lo);
    var c := d[|d| - 1];
    var a, mid, x, rest := s[..lo], s[lo..c], s[c], s[c + 1..];
    var xs, cell := adds[..j], adds[j];
    Slices(s, lo, c);
    assert adds[..j + 1] == xs + [cell];
    RecycleInPlace(a, mid, x, rest, p, xs, cell);
    var tiles := Regrid(a, p, xs, 0) + s[lo..];
    assert tiles == Regrid(a, p, xs, 0) + (mid + [x] + rest);
    assert |a| + |mid| == c;
    assert a + (mid + [x]) == s[..c + 1];
  }

  /** The last candidate is the smallest removable index from lo on. */
  lemma {:induction false} SmallestCandidate(s: seq<TextureMapperTile>, rigid: Rect, lo: nat)
    requires lo <= |s| && CandidatesDesc(s, rigid, lo, |s|) != []
    ensures var d := CandidatesDesc(s, rigid, lo, |s|); var c := d[|d| - 1];
      && lo <= c < |s| && Removable(s[c], rigid) && NumRemovable(s[lo..c], rigid) == 0
      && d[..|d| - 1] == CandidatesDesc(s, rigid, c + 1, |s|)
  {
    var d := CandidatesDesc(s, rigid, lo, |s|);
    CandidatesDescFacts(s, rigid, lo, |s|);
    var c := d[|d| - 1];
    CandidatesDescSkip(s, rigid, lo, c, |s|);
    assert d == CandidatesDesc(s, rigid, c + 1, |s|) + [c];
  }

  lemma {:induction false} Slices<T>(s: seq<T>, lo: nat, c: nat)
    requires lo <= c < |s|
    ensures s[lo..] == s[lo..c] + [s[c]] + s[c + 1..]
    ensures s[..c + 1] == s[..lo] + (s[lo..c] + [s[c]])
  {
  }

  /** An appending step once no removable tile is left: a new tile for the
      j-th cell extends the reference result by one cell. */
  lemma {:induction false} AppendStep(s: seq<TextureMapperTile>, p: Recycling, adds: seq<Rect>, j: nat)
    requires j < |adds| && NumRemovable(s, p.rigid) <= j
    ensures Regrid(s, p, adds[..j], 0) + [NewTile(adds[j], p.tileSize)] == Regrid(s, p, adds[..j + 1], 0)
  {
    assert adds[..j + 1] == adds[..j] + [adds[j]];
    RegridExtraCells(s, p, adds[..j], [adds[j]], 0);
  }

  lemma {:induction false} RegridWithoutRemovableTail(a: seq<TextureMapperTile>, b: seq<TextureMapperTile>, p: Recycling, xs: seq<Rect>)
    requires NumRemovable(a, p.rigid) == |xs| && NumRemovable(b, p.rigid) == 0
    ensures NumRemovable(a + b, p.rigid) == |xs|
    ensures Regrid(a, p, xs, 0) + b == Regrid(a + b, p, xs, 0)
  {
    NumRemovableAppend(a, b, p.rigid);
    RegridSplit(a, b, p, xs, [], 0);
    RegridNoRemovable(b, p, [], 0);
    assert xs + [] == xs;
  }

  /** Once the candidates from lo on are used up, the partly recycled tiles are
      the reference result for the cells handed out so far. */
  lemma {:induction false} PoolEmptied(s: seq<TextureMapperTile>, p: Recycling, adds: seq<Rect>, lo: nat)
    requires lo <= |s| && NumRemovable(s[..lo], p.rigid) == |adds| && CandidatesDesc(s, p.rigid, lo, |s|) == []
    ensures NumRemovable(s, p.rigid) == |adds|
    ensures Regrid(s[..lo], p, adds, 0) + s[lo..] == Regrid(s, p, adds, 0)
  {
    CandidatesDescCount(s, p.rigid, lo, |s|);
    assert s[lo..|s|] == s[lo..];
    RegridWithoutRemovableTail(s[..lo], s[lo..], p, adds);
    assert s[..lo] + s[lo..] == s;
  }

  /** Keeping k leftovers of t keeps those up to the one at index m (which has
      k - 1 removable tiles before it); keeping k - 1 drops that one too. */
  lemma {:induction false} KeepOneFewer(t: seq<TextureMapperTile>, p: Recycling, m: nat, k: nat)
    requires m < |t| && k >= 1 && NumRemovable(t[..m], p.rigid) == k - 1 && Removable(t[m], p.rigid)
    ensures Regrid(t, p, [], k) == t[..m] + [t[m]] + Regrid(t[m + 1..], p, [], 0)
    ensures Regrid(t, p, [], k - 1) == t[..m] + Regrid(t[m + 1..], p, [], 0)
  {
    var a, b := t[..m] + [t[m]], t[m + 1..];
    NumRemovableAppend(t[..m], [t[m]], p.rigid);
    assert t == a + b;
    RegridKeepSplit(a, b, p, k);
    assert t == t[..m] + t[m..];
    RegridKeepSplit(t[..m], t[m..], p, k - 1);
    assert t[m..][0] == t[m] && t[m..][1..] == b;
  }

  /** An erasing step: removing the leftover candidate at position ri (the
      largest leftover still present) keeps one leftover fewer. */
  lemma {:induction false} EraseStep(s: seq<TextureMapperTile>, p: Recycling, adds: seq<Rect>, lo: nat, ri: nat)
    requires lo <= |s| && NumRemovable(s[..lo], p.rigid) == |adds|
    requires ri < |CandidatesDesc(s, p.rigid, lo, |s|)|
    ensures var d := CandidatesDesc(s, p.rigid, lo, |s|);
      var before := Regrid(s[..lo], p, adds, 0) + Regrid(s[lo..], p, [], |d| - ri);
      d[ri] < |before| &&
      before[..d[ri]] + before[d[ri] + 1..] == Regrid(s[..lo], p, adds, 0) + Regrid(s[lo..], p, [], |d| - ri - 1)
  {
    var d := CandidatesDesc(s, p.rigid, lo, |s|);
    CandidateAt(s, p.rigid, lo, ri);
    var t := s[lo..];
    var m := d[ri] - lo;
    RegridAppendsOnlyWhenPoolIsEmpty(s[..lo], p, adds, 0);
    EraseAt(Regrid(s[..lo], p, adds, 0), t, p, m, |d| - ri);
  }

  /** The candidate at position i, relative to the tiles from lo on. */
  lemma {:induction false} CandidateAt(s: seq<TextureMapperTile>, rigid: Rect, lo: nat, i: nat)
    requires lo <= |s| && i < |CandidatesDesc(s, rigid, lo, |s|)|
    ensures var d := CandidatesDesc(s, rigid, lo, |s|); var m := d[i] - lo;
      && lo <= d[i] < |s| && m < |s[lo..]|
      && NumRemovable(s[lo..][..m], rigid) == |d| - 1 - i && Removable(s[lo..][m], rigid)
  {
    var d := CandidatesDesc(s, rigid, lo, |s|);
    CandidatesDescFacts(s, rigid, lo, |s|);
    var m := d[i] - lo;
    assert s[lo..][..m] == s[lo..d[i]];
  }

  /** Removing the leftover at t[m] from behind a prefix R of the result. */
  lemma {:induction false} EraseAt(R: seq<TextureMapperTile>, t: seq<TextureMapperTile>, p: Recycling, m: nat, k: nat)
    requires m < |t| && k >= 1 && NumRemovable(t[..m], p.rigid) == k - 1 && Removable(t[m], p.rigid)
    ensures var before := R + Regrid(t, p, [], k);
      |R| + m < |before| && before[..|R| + m] + before[|R| + m + 1..] == R + Regrid(t, p, [], k - 1)
  {
    KeepOneFewer(t, p, m, k);
    SpliceOut(R, t[..m], t[m], Regrid(t[m + 1..], p, [], 0));
  }

  lemma {:induction false} SpliceOut<T>(r: seq<T>, a: seq<T>, x: T, b: seq<T>)
    ensures var before := r + (a + [x] + b);
      |r| + |a| < |before| && before[..|r| + |a|] + before[|r| + |a| + 1..] == r + (a + b)
  {
    var before := r + (a + [x] + b);
    assert before[..|r| + |a|] == r + a;
    assert before[|r| + |a| + 1..] == b;
  }

  /** The erase loop's state: its length, and the reference result it equals
      when the loop stops with `keep` leftovers in place. */
  lemma {:induction false} EraseState(s: seq<TextureMapperTile>, p: Recycling, adds: seq<Rect>, lo: nat, keep: nat)
    requires lo <= |s| && NumRemovable(s[..lo], p.rigid) == |adds|
    requires keep <= |CandidatesDesc(s, p.rigid, lo, |s|)|
    ensures var d := CandidatesDesc(s, p.rigid, lo, |s|);
      && NumRemovable(s, p.rigid) == |adds| + |d|
      && |Regrid(s[..lo], p, adds, 0) + Regrid(s[lo..], p, [], keep)| == |s| - (|d| - keep)
      && Regrid(s[..lo], p, adds, 0) + Regrid(s[lo..], p, [], keep) == Regrid(s, p, adds, keep)
  {
    CandidatesDescCount(s, p.rigid, lo, |s|);
    assert s[lo..|s|] == s[lo..];
    EraseStateSplit(s[..lo], s[lo..], p, adds, keep);
    assert s[..lo] + s[lo..] == s;
  }

  lemma {:induction false} EraseStateSplit(a: seq<TextureMapperTile>, b: seq<TextureMapperTile>, p: Recycling, xs: seq<Rect>, keep: nat)
    requires NumRemovable(a, p.rigid) == |xs| && keep <= NumRemovable(b, p.rigid)
    ensures NumRemovable(a + b, p.rigid) == |xs| + NumRemovable(b, p.rigid)
    ensures |Regrid(a, p, xs, 0) + Regrid(b, p, [], keep)| == |a| + |b| - (NumRemovable(b, p.rigid) - keep)
    ensures Regrid(a, p, xs, 0) + Regrid(b, p, [], keep) == Regrid(a + b, p, xs, keep)
  {
    NumRemovableAppend(a, b, p.rigid);
    RegridAppendsOnlyWhenPoolIsEmpty(a, p, xs, 0);
    RegridShrinks(b, p, keep);
    RegridSplit(a, b, p, xs, [], keep);
    assert xs + [] == xs;
  }

  /** Where the recycling loop starts: nothing handed out, the tiles as they are. */
  lemma {:induction false} RecycleStart(s: seq<TextureMapperTile>, p: Recycling, adds: seq<Rect>)
    ensures CandidatesDesc(s, p.rigid, 0, |s|) != [] ==>
      NumRemovable(s[..0], p.rigid) == 0 && Regrid(s[..0], p, adds[..0], 0) + s[0..] == s
    ensures CandidatesDesc(s, p.rigid, 0, |s|) == [] ==>
      NumRemovable(s, p.rigid) == 0 && Regrid(s, p, adds[..0], 0) == s
  {
    assert adds[..0] == [] && s[..0] == [] && s[0..] == s && s[0..|s|] == s;
    CandidatesDescCount(s, p.rigid, 0, |s|);
    if CandidatesDesc(s, p.rigid, 0, |s|) == [] {
      RegridNoRemovable(s, p, [], 0);
    }
  }

  /** Once the last candidate is recycled, the recycling loop's state takes
      the form it has while appending. */
  lemma {:induction false} RecycleLast(s: seq<TextureMapperTile>, p: Recycling, adds: seq<Rect>, lo: nat)
    requires lo <= |s| && NumRemovable(s[..lo], p.rigid) == |adds|
    ensures CandidatesDesc(s, p.rigid, lo, |s|) == [] ==>
      NumRemovable(s, p.rigid) <= |adds| && Regrid(s[..lo], p, adds, 0) + s[lo..] == Regrid(s, p, adds, 0)
  {
    if CandidatesDesc(s, p.rigid, lo, |s|) == [] {
      PoolEmptied(s, p, adds, lo);
    }
  }

  lemma {:induction false} RegridKeepAll(t: seq<TextureMapperTile>, p: Recycling, keep: nat)
    requires NumRemovable(t, p.rigid) <= keep
    ensures Regrid(t, p, [], keep) == t
  {
    RegridKeepSplit(t, [], p, keep);
    assert t + [] == t;
  }

  /** The state of the recycling loop after the first j cells: the unused
      candidates are those from lo on; while some remain, the tiles before lo
      are the reference result for those j cells and the rest are untouched;
      once none remain, the tiles are the reference result outright. */
  ghost predicate RecyclingState(s: seq<TextureMapperTile>, p: Recycling, adds: seq<Rect>, j: nat, lo: nat,
                                 candidates: seq<nat>, tiles: seq<TextureMapperTile>)
    requires j <= |adds|
  {
    && lo <= |s| && candidates == CandidatesDesc(s, p.rigid, lo, |s|)
    && (candidates != [] ==>
          NumRemovable(s[..lo], p.rigid) == j && tiles == Regrid(s[..lo], p, adds[..j], 0) + s[lo..])
    && (candidates == [] ==> NumRemovable(s, p.rigid) <= j && tiles == Regrid(s, p, adds[..j], 0))
  }

  lemma {:induction false} RecyclingStateStart(s: seq<TextureMapperTile>, p: Recycling, adds: seq<Rect>)
    ensures RecyclingState(s, p, adds, 0, 0, CandidatesDesc(s, p.rigid, 0, |s|), s)
  {
    RecycleStart(s, p, adds);
  }

  /** Recycling the tile at the last candidate for the j-th cell. */
  lemma {:induction false} RecyclingStateRecycle(s: seq<TextureMapperTile>, p: Recycling, adds: seq<Rect>, j: nat, lo: nat,
                                                 candidates: seq<nat>, tiles: seq<TextureMapperTile>)
    requires j < |adds| && RecyclingState(s, p, adds, j, lo, candidates, tiles) && candidates != []
    ensures var index := candidates[|candidates| - 1];
      && index < |tiles|
      && RecyclingState(s, p, adds, j + 1, index + 1, candidates[..|candidates| - 1],
                        tiles[index := Recycle(tiles[index], adds[j], p)])
  {
    RecycleStep(s, p, adds, j, lo);
    var index := candidates[|candidates| - 1];
    RecycleLast(s, p, adds[..j + 1], index + 1);
  }

  /** Appending a new tile for the j-th cell once no candidate is left. */
  lemma {:induction false} RecyclingStateAppend(s: seq<TextureMapperTile>, p: Recycling, adds: seq<Rect>, j: nat, lo: nat,
                                                tiles: seq<TextureMapperTile>)
    requires j < |adds| && RecyclingState(s, p, adds, j, lo, [], tiles)
    ensures RecyclingState(s, p, adds, j + 1, lo, [], tiles + [NewTile(adds[j], p.tileSize)])
  {
    AppendStep(s, p, adds, j);
  }

  /** The state of the erase loop after erasing `erased` leftovers, largest
      index first. */
  ghost predicate ErasingState(s: seq<TextureMapperTile>, p: Recycling, adds: seq<Rect>, lo: nat, erased: nat,
                               tiles: seq<TextureMapperTile>)
  {
    && lo <= |s|
    && var d := CandidatesDesc(s, p.rigid, lo, |s|);
    && erased <= |d|
    && (d != [] ==>
          && NumRemovable(s[..lo], p.rigid) == |adds|
          && tiles == Regrid(s[..lo], p, adds, 0) + Regrid(s[lo..], p, [], |d| - erased)
          && |tiles| == |s| - erased)
    && (d == [] ==> erased == 0 && NumRemovable(s, p.rigid) <= |adds| && tiles == Regrid(s, p, adds, 0))
  }

  /** Where the erase loop starts: every leftover still in place. */
  lemma {:induction false} ErasingStateStart(s: seq<TextureMapperTile>, p: Recycling, adds: seq<Rect>, lo: nat,
                                             candidates: seq<nat>, tiles: seq<TextureMapperTile>)
    requires RecyclingState(s, p, adds, |adds|, lo, candidates, tiles)
    ensures ErasingState(s, p, adds, lo, 0, tiles)
  {
    assert adds[..|adds|] == adds;
    var d := CandidatesDesc(s, p.rigid, lo, |s|);
    if d != [] {
      CandidatesDescCount(s, p.rigid, lo, |s|);
      assert s[lo..|s|] == s[lo..];
      RegridKeepAll(s[lo..], p, |d|);
      EraseState(s, p, adds, lo, |d|);
    }
  }

  /** Erasing the leftover at the next position of the candidate list. */
  lemma {:induction false} ErasingStateStep(s: seq<TextureMapperTile>, p: Recycling, adds: seq<Rect>, lo: nat, erased: nat,
                                            tiles: seq<TextureMapperTile>)
    requires ErasingState(s, p, adds, lo, erased, tiles)
    requires erased < |CandidatesDesc(s, p.rigid, lo, |s|)|
    ensures var index := CandidatesDesc(s, p.rigid, lo, |s|)[erased];
      && index < |tiles|
      && ErasingState(s, p, adds, lo, erased + 1, tiles[..index] + tiles[index + 1..])
  {
    var d := CandidatesDesc(s, p.rigid, lo, |s|);
    EraseStep(s, p, adds, lo, erased);
    EraseState(s, p, adds, lo, |d| - erased - 1);
  }

  /** Where the erase loop ends: having erased `erased` leftovers, the most
      the threshold allows, the tiles are the reference result. */
  lemma {:induction false} ErasingStateFinish(s: seq<TextureMapperTile>, p: Recycling, adds: seq<Rect>, lo: nat, threshold: nat,
                                              erased: nat, tiles: seq<TextureMapperTile>)
    requires ErasingState(s, p, adds, lo, erased, tiles)
    requires var d := CandidatesDesc(s, p.rigid, lo, |s|);
      erased == Min(|d|, if |s| > threshold then |s| - threshold else 0)
    ensures tiles == Regrid(s, p, adds, Survivors(|s|, NumRemovable(s, p.rigid), |adds|, threshold))
  {
    var d := CandidatesDesc(s, p.rigid, lo, |s|);
    if d != [] {
      EraseState(s, p, adds, lo, |d| - erased);
    }
  }

  // ---------------------------------------------------------------------------
  // The dirty rectangle

  /** `m_dirtyRect` after uniting in each rectangle of `rects`, in order. */
  function UniteAll(d: Rect, rects: seq<Rect>): (r: Rect)
    ensures !IsEmpty(d) ==> Contains(r, d)
  {
    if rects == [] then d else Unite(UniteAll(d, rects[..|rects| - 1]), rects[|rects| - 1])
  }

  /** The united rectangle covers what was dirty before and every non-empty
      rectangle united in. */
  lemma {:induction false} UniteAllCovers(d: Rect, rects: seq<Rect>)
    ensures !IsEmpty(d) ==> Contains(UniteAll(d, rects), d)
    ensures forall i :: 0 <= i < |rects| && !IsEmpty(rects[i]) ==> Contains(UniteAll(d, rects), rects[i])
  {
    if rects != [] {
      var n := |rects| - 1;
      var prev := UniteAll(d, rects[..n]);
      UniteAllCovers(d, rects[..n]);
      forall i | 0 <= i < |rects| && !IsEmpty(rects[i])
        ensures Contains(UniteAll(d, rects), rects[i])
      {
        if i < n {
          assert rects[..n][i] == rects[i];
          UniteGrows(prev, rects[n], rects[i]);
        }
      }
      if !IsEmpty(d) {
        UniteGrows(prev, rects[n], d);
      }
    }
  }

  // ---------------------------------------------------------------------------
  // The whole update, as a function of the state it reads and writes

  /** What createOrDestroyTilesIfNeeded reads and writes besides its arguments. */
  datatype Grid = Grid(tiles: seq<TextureMapperTile>, visibleRect: Rect, coverRect: Rect, dirtyRect: Rect,
                       isSizeDirty: bool, isScaleDirty: bool)

  /** The partition invariant of a grid. */
  ghost predicate Tiled(g: Grid, ts: Size)
    requires ValidTileSize(ts)
  {
    NonNegative(g.visibleRect) && g.coverRect == CoverRect(g.visibleRect, ts) && CoversExactly(g.tiles, g.coverRect, ts)
  }

  /** Reference definition of createOrDestroyTilesIfNeeded. `contentsRect` is
      rect(), the content rectangle; `view` is the visible rectangle the
      transform and clip produce, None when that rectangle is empty. */
  function CreateOrDestroyTiles(g: Grid, contentsRect: FloatRect, view: Option<Rect>, ts: Size, hasAlpha: bool, threshold: nat): (r: Grid)
    requires ValidTileSize(ts) && NonNegative(g.visibleRect) && (view.Some? ==> NonNegative(view.value))
    ensures !g.isSizeDirty && !g.isScaleDirty && AsFloatRect(g.visibleRect) == contentsRect ==> r == g
    ensures !r.isSizeDirty && !r.isScaleDirty
    ensures NonNegative(r.visibleRect)
    ensures r.tiles != g.tiles || r.visibleRect != g.visibleRect ==> view == Some(r.visibleRect)
  {
    if !g.isSizeDirty && !g.isScaleDirty && AsFloatRect(g.visibleRect) == contentsRect then g
    else
      var cleared := g.(isSizeDirty := false, isScaleDirty := false);
      if view.None? || view.value == g.visibleRect then cleared
      else
        var v := view.value;
        var rigid := RigidCoverRect(g.visibleRect, v, ts);
        var cover := CoverRect(v, ts);
        var adds := TileRectsToAdd(cover, rigid, ts);
        var keep := Survivors(|g.tiles|, NumRemovable(g.tiles, rigid), |adds|, threshold);
        cleared.(tiles := Regrid(g.tiles, Recycling(rigid, ts, hasAlpha), adds, keep),
                 visibleRect := v, coverRect := cover, dirtyRect := UniteAll(g.dirtyRect, adds))
  }

  /** Without a visible rectangle, or with the one already cached, the update
      only clears the two dirty flags: tiles, cover and dirty rectangle stay. */
  lemma CreateOrDestroyTilesIdleView(g: Grid, contentsRect: FloatRect, view: Option<Rect>, ts: Size, hasAlpha: bool, threshold: nat)
    requires ValidTileSize(ts) && NonNegative(g.visibleRect) && (view.Some? ==> NonNegative(view.value))
    ensures view.None? || view == Some(g.visibleRect) ==>
      CreateOrDestroyTiles(g, contentsRect, view, ts, hasAlpha, threshold) == g.(isSizeDirty := false, isScaleDirty := false)
  {
  }

  /** With the source's erase threshold of zero, the update keeps the tiles a
      partition of the cover rectangle. */
  lemma {:induction false} CreateOrDestroyTilesKeepsPartition(g: Grid, contentsRect: FloatRect, view: Option<Rect>, ts: Size, hasAlpha: bool)
    requires ValidTileSize(ts) && NonNegative(g.visibleRect) && (view.Some? ==> NonNegative(view.value))
    ensures Tiled(g, ts) ==> Tiled(CreateOrDestroyTiles(g, contentsRect, view, ts, hasAlpha, 0), ts)
  {
    var r := CreateOrDestroyTiles(g, contentsRect, view, ts, hasAlpha, 0);
    if Tiled(g, ts) && (r.tiles != g.tiles || r.visibleRect != g.visibleRect) {
      var v := view.value;
      var rigid := RigidCoverRect(g.visibleRect, v, ts);
      var adds := TileRectsToAdd(CoverRect(v, ts), rigid, ts);
      assert Survivors(|g.tiles|, NumRemovable(g.tiles, rigid), |adds|, 0) == 0;
      RegridPartitionsCover(g.tiles, g.visibleRect, v, ts, hasAlpha);
    }
  }

  /** Every tile the update recycles or creates lies inside the dirty
      rectangle, which still covers what was dirty before; the tiles inside the
      rigid rectangle come through unchanged. */
  lemma {:induction false} CreateOrDestroyTilesMarksDirty(g: Grid, contentsRect: FloatRect, v: Rect, ts: Size, hasAlpha: bool)
    requires ValidTileSize(ts) && NonNegative(g.visibleRect) && NonNegative(v)
    requires !(!g.isSizeDirty && !g.isScaleDirty && AsFloatRect(g.visibleRect) == contentsRect) && v != g.visibleRect
    ensures var r := CreateOrDestroyTiles(g, contentsRect, Some(v), ts, hasAlpha, 0);
      var rigid := RigidCoverRect(g.visibleRect, v, ts);
      && (!IsEmpty(g.dirtyRect) ==> Contains(r.dirtyRect, g.dirtyRect))
      && (forall t :: t in r.tiles && Removable(t, rigid) ==> Contains(r.dirtyRect, t.rect) && t.visibleRect == t.rect)
      && KeptTiles(r.tiles, rigid) == KeptTiles(g.tiles, rigid)
  {
    var r := CreateOrDestroyTiles(g, contentsRect, Some(v), ts, hasAlpha, 0);
    var rigid := RigidCoverRect(g.visibleRect, v, ts);
    var cover := CoverRect(v, ts);
    var adds := TileRectsToAdd(cover, rigid, ts);
    var p := Recycling(rigid, ts, hasAlpha);
    assert Survivors(|g.tiles|, NumRemovable(g.tiles, rigid), |adds|, 0) == 0;
    assert r.tiles == Regrid(g.tiles, p, adds, 0) && r.dirtyRect == UniteAll(g.dirtyRect, adds);
    TileRectsToAddExactly(cover, rigid, ts);
    UniteAllCovers(g.dirtyRect, adds);
    RegridPlacesEveryOtherTile(g.tiles, p, adds);
    forall t | t in r.tiles && Removable(t, rigid)
      ensures Contains(r.dirtyRect, t.rect)
    {
      var i :| 0 <= i < |adds| && adds[i] == t.rect;
    }
    RegridKeepsRigidTiles(g.tiles, p, adds, 0);
  }


  /** The texture the backend hands tile `i` on an upload, if any. */
  function TextureFor(textures: seq<Option<BitmapTexture>>, i: nat): Option<BitmapTexture>
  {
    if i < |textures| then textures[i] else None
  }

  /** One tile's `updateContents`: the tile keeps its rectangles and takes the
      texture the backend hands it, or keeps its own when handed none. A
      texture is never dropped. */
  function Uploaded(tile: TextureMapperTile, texture: Option<BitmapTexture>): (r: TextureMapperTile)
    ensures r.rect == tile.rect && r.visibleRect == tile.visibleRect
    ensures r.texture.Some? <==> tile.texture.Some? || texture.Some?
    ensures texture.Some? ==> r.texture == texture
  {
    if texture.Some? then tile.(texture := texture) else tile
  }

  /** Reference definition of the upload loop of both content paths: tile `i`
      is uploaded with `TextureFor(textures, i)`. The tiles' rectangles, and so
      the grid, are left as they are. */
  function Upload(tiles: seq<TextureMapperTile>, textures: seq<Option<BitmapTexture>>): (r: seq<TextureMapperTile>)
    ensures |r| == |tiles|
    ensures TileRects(r) == TileRects(tiles)
  {
    if tiles == [] then []
    else [Uploaded(tiles[0], TextureFor(textures, 0))] + Upload(tiles[1..], if textures == [] then [] else textures[1..])
  }

  /** The upload changes the tiles one by one, each on its own. */
  lemma {:induction false} UploadAt(tiles: seq<TextureMapperTile>, textures: seq<Option<BitmapTexture>>)
    ensures forall i :: 0 <= i < |tiles| ==> Upload(tiles, textures)[i] == Uploaded(tiles[i], TextureFor(textures, i))
  {
    if tiles != [] {
      var rest := if textures == [] then [] else textures[1..];
      UploadAt(tiles[1..], rest);
      forall i | 0 < i < |tiles|
        ensures TextureFor(rest, i - 1) == TextureFor(textures, i)
      {
      }
    }
  }

  /** An upload that hands no tile a texture changes nothing. */
  lemma {:induction false} UploadNothing(tiles: seq<TextureMapperTile>, textures: seq<Option<BitmapTexture>>)
    requires forall i :: 0 <= i < |textures| ==> textures[i].None?
    ensures Upload(tiles, textures) == tiles
  {
    if tiles != [] {
      UploadNothing(tiles[1..], if textures == [] then [] else textures[1..]);
    }
  }

  /** A grid after the upload loop: only the tiles' textures change. */
  function UploadGrid(g: Grid, textures: seq<Option<BitmapTexture>>): (r: Grid)
    ensures |r.tiles| == |g.tiles| && TileRects(r.tiles) == TileRects(g.tiles)
    ensures r.visibleRect == g.visibleRect && r.coverRect == g.coverRect && r.dirtyRect == g.dirtyRect
    ensures r.isSizeDirty == g.isSizeDirty && r.isScaleDirty == g.isScaleDirty
  {
    g.(tiles := Upload(g.tiles, textures))
  }

  /** The upload leaves the tiles a partition of the cover rectangle. */
  lemma {:induction false} UploadKeepsPartition(g: Grid, ts: Size, textures: seq<Option<BitmapTexture>>)
    requires ValidTileSize(ts)
    ensures Tiled(g, ts) ==> Tiled(UploadGrid(g, textures), ts)
  {
  }

}

/** TextureMapperTiledBackingStore: a backing store that keeps its contents in
    a grid of tiles and updates that grid in place as the visible part of the
    contents moves.

    The store is a class whose fields are those of the source; every method
    that changes them is proved against the reference definitions of module
    TileGrid, whose lemmas carry the properties of the grid. What the texture
    mapper computes (the visible rectangle after transform and clip, the
    largest texture size) and the textures the tiles' uploads leave them with
    arrive as parameters. */
module TiledBackingStore {

  import opened Wrappers
  import opened Geometry
  import opened TileGrid

  /** An image set as the contents: its identity, size and whether its current
      frame is known to be opaque. */
  datatype Image = Image(id: nat, size: FloatSize, knownOpaque: bool)

  /** The layer that paints the contents, identified by its address. */
  datatype GraphicsLayer = GraphicsLayer(id: nat)

  datatype UpdateContentsFlag = UpdateCanModifyOriginalImageData | UpdateCannotModifyOriginalImageData

  datatype ContentsState = ContentsState(size: FloatSize, image: Option<Image>, sourceLayer: Option<GraphicsLayer>,
                                         updateContentsFlag: UpdateContentsFlag, contentsScale: real)

  /** The erase loop stops once no more than this many tiles remain. */
  const TileEraseThreshold: nat := 0

  class TextureMapperTiledBackingStore {
    var tiles: seq<TextureMapperTile>
    var size: FloatSize
    var image: Option<Image>
    var sourceLayer: Option<GraphicsLayer>
    var dirtyRect: Rect
    var updateContentsFlag: UpdateContentsFlag
    var contentsScale: real
    var isScaleDirty: bool
    var isSizeDirty: bool
    var visibleRect: Rect
    var coverRect: Rect

    /** The cached visible rectangle has non-negative coordinates. */
    predicate Valid()
      reads this
    {
      NonNegative(visibleRect)
    }

    /** `rect()`: the content rectangle at the origin, scaled by the contents
        scale. */
    function ContentsRect(): (r: FloatRect)
      reads this
      ensures r.x == 0.0 && r.y == 0.0
      ensures contentsScale == 1.0 ==> r.width == size.width && r.height == size.height
      ensures 0.0 <= size.width && 0.0 <= size.height && 0.0 <= contentsScale ==> 0.0 <= r.width && 0.0 <= r.height
    {
      FloatRect(0.0, 0.0, size.width * contentsScale, size.height * contentsScale)
    }

    /** The fields that describe the contents, which the tile grid does not
        write. */
    function Contents(): ContentsState
      reads this
    {
      ContentsState(size, image, sourceLayer, updateContentsFlag, contentsScale)
    }

    /** The part of the state createOrDestroyTilesIfNeeded reads and writes. */
    function TileState(): Grid
      reads this
    {
      Grid(tiles, visibleRect, coverRect, dirtyRect, isSizeDirty, isScaleDirty)
    }

    /** `create()`: a store without tiles, contents or scale. */
    constructor ()
      ensures Valid()
      ensures tiles == [] && size == FloatSize(0.0, 0.0) && image == None && sourceLayer == None
      ensures dirtyRect == EmptyRect && updateContentsFlag == UpdateCannotModifyOriginalImageData
      ensures contentsScale == 1.0 && !isScaleDirty && !isSizeDirty
      ensures visibleRect == EmptyRect && coverRect == EmptyRect
    {
      tiles := [];
      size := FloatSize(0.0, 0.0);
      image := None;
      sourceLayer := None;
      dirtyRect := EmptyRect;
      updateContentsFlag := UpdateCannotModifyOriginalImageData;
      contentsScale := 1.0;
      isScaleDirty := false;
      isSizeDirty := false;
      visibleRect := EmptyRect;
      coverRect := EmptyRect;
    }

    /** A new scale marks the tiles stale; the same scale changes nothing. */
    method UpdateContentsScale(scale: real)
      modifies this
      ensures old(contentsScale) == scale ==> unchanged(this)
      ensures old(contentsScale) != scale ==>
        contentsScale == scale && isScaleDirty && TileState() == old(TileState()).(isScaleDirty := true)
      ensures size == old(size) && image == old(image) && sourceLayer == old(sourceLayer)
      ensures updateContentsFlag == old(updateContentsFlag)
    {
      if contentsScale == scale {
        return;
      }
      isScaleDirty := true;
      contentsScale := scale;
    }

    /** New contents from a layer: the size is stale exactly when it changed,
        and the dirty rectangle and flag are replaced. */
    method UpdateContents(layer: Option<GraphicsLayer>, totalSize: FloatSize, dirty: Rect, flag: UpdateContentsFlag)
      modifies this
      ensures sourceLayer == layer && size == totalSize && dirtyRect == dirty && updateContentsFlag == flag
      ensures isSizeDirty <==> old(size) != totalSize
      ensures tiles == old(tiles) && image == old(image) && contentsScale == old(contentsScale)
      ensures isScaleDirty == old(isScaleDirty) && visibleRect == old(visibleRect) && coverRect == old(coverRect)
    {
      sourceLayer := layer;
      isSizeDirty := size != totalSize;
      size := totalSize;
      dirtyRect := dirty;
      updateContentsFlag := flag;
    }

    /** New contents from an image: the size becomes the image's, or zero for
        no image. */
    method SetContentsToImage(img: Option<Image>)
      modifies this
      ensures image == img
      ensures size == if img.Some? then img.value.size else FloatSize(0.0, 0.0)
      ensures TileState() == old(TileState()) && sourceLayer == old(sourceLayer)
      ensures contentsScale == old(contentsScale) && updateContentsFlag == old(updateContentsFlag)
    {
      image := img;
      size := if img.Some? then img.value.size else FloatSize(0.0, 0.0);
    }

    /** `createOrDestroyTilesIfNeeded`. `view` is the visible rectangle the
        transform and the clip produce (None when it is empty), `ts` the tile
        size. The new state is the reference definition's; with the erase
        threshold of zero the tiles stay a partition of the cover rectangle. */
    method CreateOrDestroyTilesIfNeeded(view: Option<Rect>, ts: Size, hasAlpha: bool)
      requires ValidTileSize(ts) && Valid() && (view.Some? ==> NonNegative(view.value))
      modifies this
      ensures Valid()
      ensures TileState() == CreateOrDestroyTiles(old(TileState()), old(ContentsRect()), view, ts, hasAlpha, TileEraseThreshold)
      ensures Contents() == old(Contents())
    {
      if !isSizeDirty && !isScaleDirty && AsFloatRect(visibleRect) == ContentsRect() {
        return;
      }
      isSizeDirty := false;
      isScaleDirty := false;
      if view.None? {
        return;
      }
      var v := view.value;
      if visibleRect == v {
        return;
      }
      var cover := CoverRect(v, ts);
      var rigid := RigidCoverRect(visibleRect, v, ts);
      visibleRect := v;
      coverRect := cover;
      RecycleOrCreateTiles(cover, rigid, ts, hasAlpha);
    }

    /** The second half of createOrDestroyTilesIfNeeded: list the cells to add
        and the removable tiles, recycle, append and erase. */
    method RecycleOrCreateTiles(cover: Rect, rigid: Rect, ts: Size, hasAlpha: bool)
      requires ValidTileSize(ts)
      modifies this
      ensures var adds := TileRectsToAdd(cover, rigid, ts);
        && tiles == Regrid(old(tiles), Recycling(rigid, ts, hasAlpha), adds,
                           Survivors(|old(tiles)|, NumRemovable(old(tiles), rigid), |adds|, TileEraseThreshold))
        && dirtyRect == UniteAll(old(dirtyRect), adds)
      ensures TileState() == old(TileState()).(tiles := tiles, dirtyRect := dirtyRect) && Contents() == old(Contents())
    {
      var tileRectsToAdd := CollectTileRectsToAdd(cover, rigid, ts);
      var tileIndicesToRemove := CollectTileIndicesToRemove(tiles, rigid);
      var p := Recycling(rigid, ts, hasAlpha);
      ghost var s := tiles;
      var leftovers, lo := RecycleTiles(tileRectsToAdd, tileIndicesToRemove, p);
      EraseTiles(leftovers, TileEraseThreshold, s, p, tileRectsToAdd, lo);
    }

    /** The nested loops that list the cells to add, row by row. */
    static method CollectTileRectsToAdd(cover: Rect, rigid: Rect, ts: Size) returns (tileRectsToAdd: seq<Rect>)
      requires ValidTileSize(ts)
      ensures tileRectsToAdd == TileRectsToAdd(cover, rigid, ts)
    {
      tileRectsToAdd := [];
      var y := cover.y;
      while y < cover.MaxY()
        invariant tileRectsToAdd + RowsCellsToAdd(y, cover, rigid, ts) == TileRectsToAdd(cover, rigid, ts)
        decreases cover.MaxY() - y
      {
        ghost var row, rest := RowCellsToAdd(cover.x, y, cover.MaxX(), rigid, ts), RowsCellsToAdd(y + ts.height, cover, rigid, ts);
        assert RowsCellsToAdd(y, cover, rigid, ts) == row + rest;
        assert (tileRectsToAdd + row) + rest == tileRectsToAdd + (row + rest);
        tileRectsToAdd := AppendRowCells(tileRectsToAdd, y, cover, rigid, ts);
        y := y + ts.height;
      }
      assert RowsCellsToAdd(y, cover, rigid, ts) == [];
    }

    /** The inner loop: the cells of row y, left to right. */
    static method AppendRowCells(before: seq<Rect>, y: int, cover: Rect, rigid: Rect, ts: Size)
      returns (tileRectsToAdd: seq<Rect>)
      requires ValidTileSize(ts)
      ensures tileRectsToAdd == before + RowCellsToAdd(cover.x, y, cover.MaxX(), rigid, ts)
    {
      tileRectsToAdd := before;
      var x := cover.x;
      while x < cover.MaxX()
        invariant tileRectsToAdd + RowCellsToAdd(x, y, cover.MaxX(), rigid, ts) ==
                  before + RowCellsToAdd(cover.x, y, cover.MaxX(), rigid, ts)
        decreases cover.MaxX() - x
      {
        var tileRect := Rect(x, y, ts.width, ts.height);
        assert RowCellsToAdd(x, y, cover.MaxX(), rigid, ts) ==
               (if Contains(rigid, tileRect) then [] else [tileRect]) + RowCellsToAdd(x + ts.width, y, cover.MaxX(), rigid, ts);
        if !Contains(rigid, tileRect) {
          tileRectsToAdd := tileRectsToAdd + [tileRect];
        }
        x := x + ts.width;
      }
    }

    /** The loop that lists the indices of the tiles the rigid rectangle does
        not contain, walking down from the last tile. */
    static method CollectTileIndicesToRemove(s: seq<TextureMapperTile>, rigid: Rect) returns (indices: seq<nat>)
      ensures indices == CandidatesDesc(s, rigid, 0, |s|)
    {
      indices := [];
      var i := |s| - 1;
      while i >= 0
        invariant -1 <= i < |s|
        invariant indices == CandidatesDesc(s, rigid, i + 1, |s|)
      {
        if !Contains(rigid, s[i].rect) {
          indices := indices + [i];
        }
        i := i - 1;
      }
    }

    /** The recycling loop: for each cell to add, in order, one round of
        PlaceTile. Returns the indices left unused and, as a ghost, how far
        the used ones reach. */
    method RecycleTiles(tileRectsToAdd: seq<Rect>, tileIndicesToRemove: seq<nat>, p: Recycling)
      returns (leftovers: seq<nat>, ghost lo: nat)
      requires tileIndicesToRemove == CandidatesDesc(tiles, p.rigid, 0, |tiles|)
      modifies this
      ensures RecyclingState(old(tiles), p, tileRectsToAdd, |tileRectsToAdd|, lo, leftovers, tiles)
      ensures dirtyRect == UniteAll(old(dirtyRect), tileRectsToAdd)
      ensures TileState() == old(TileState()).(tiles := tiles, dirtyRect := dirtyRect) && Contents() == old(Contents())
    {
      ghost var s := tiles;
      ghost var dirty := dirtyRect;
      leftovers := tileIndicesToRemove;
      lo := 0;
      RecyclingStateStart(s, p, tileRectsToAdd);
      for j := 0 to |tileRectsToAdd|
        invariant RecyclingState(s, p, tileRectsToAdd, j, lo, leftovers, tiles)
        invariant dirtyRect == UniteAll(dirty, tileRectsToAdd[..j])
        invariant TileState() == old(TileState()).(tiles := tiles, dirtyRect := dirtyRect) && Contents() == old(Contents())
      {
        assert tileRectsToAdd[..j + 1][..j] == tileRectsToAdd[..j];
        leftovers, lo := PlaceTile(j, tileRectsToAdd, leftovers, p, s, lo);
      }
      assert tileRectsToAdd[..|tileRectsToAdd|] == tileRectsToAdd;
    }

    /** One round of the recycling loop, for the j-th cell: the dirty
        rectangle grows by the cell; the tile at the last index still listed
        takes the cell in place, or, once the list is empty, a new tile for the
        cell is appended. */
    method PlaceTile(j: nat, tileRectsToAdd: seq<Rect>, candidates: seq<nat>, p: Recycling,
                     ghost s: seq<TextureMapperTile>, ghost lo: nat)
      returns (leftovers: seq<nat>, ghost nextLo: nat)
      requires j < |tileRectsToAdd| && RecyclingState(s, p, tileRectsToAdd, j, lo, candidates, tiles)
      modifies this
      ensures RecyclingState(s, p, tileRectsToAdd, j + 1, nextLo, leftovers, tiles)
      ensures dirtyRect == Unite(old(dirtyRect), tileRectsToAdd[j])
      ensures TileState() == old(TileState()).(tiles := tiles, dirtyRect := dirtyRect) && Contents() == old(Contents())
    {
      var rect := tileRectsToAdd[j];
      var tileRect := Rect(rect.x, rect.y, p.tileSize.width, p.tileSize.height);
      dirtyRect := Unite(dirtyRect, rect);
      leftovers, nextLo := candidates, lo;

      if leftovers != [] {
        RecyclingStateRecycle(s, p, tileRectsToAdd, j, lo, leftovers, tiles);
        var index := leftovers[|leftovers| - 1];
        leftovers := leftovers[..|leftovers| - 1];
        RecycleTileAt(index, rect, p);
        nextLo := index + 1;
        return;
      }

      RecyclingStateAppend(s, p, tileRectsToAdd, j, lo, tiles);
      tiles := tiles + [TextureMapperTile(tileRect, rect, None)];
    }

    /** The recycled tile takes the new rectangle and visible rectangle, and
        its texture, if it has one, is reset to the tile size and alpha mode. */
    method RecycleTileAt(index: nat, rect: Rect, p: Recycling)
      requires index < |tiles|
      modifies this
      ensures tiles == old(tiles)[index := Recycle(old(tiles)[index], rect, p)]
      ensures TileState() == old(TileState()).(tiles := tiles) && Contents() == old(Contents())
    {
      var tile := tiles[index];
      tile := tile.(rect := Rect(rect.x, rect.y, p.tileSize.width, p.tileSize.height));
      tile := tile.(visibleRect := rect);
      if tile.texture.Some? {
        tile := tile.(texture := Some(tile.texture.value.(size := Size(tile.rect.width, tile.rect.height),
                                                          supportsAlpha := p.hasAlpha)));
      }
      tiles := tiles[index := tile];
    }

    /** The erase loop: the unused indices, largest first, are removed while
        more than `threshold` tiles remain. */
    method EraseTiles(leftovers: seq<nat>, threshold: nat, ghost s: seq<TextureMapperTile>, ghost p: Recycling,
                      ghost tileRectsToAdd: seq<Rect>, ghost lo: nat)
      requires RecyclingState(s, p, tileRectsToAdd, |tileRectsToAdd|, lo, leftovers, tiles)
      modifies this
      ensures tiles == Regrid(s, p, tileRectsToAdd, Survivors(|s|, NumRemovable(s, p.rigid), |tileRectsToAdd|, threshold))
      ensures TileState() == old(TileState()).(tiles := tiles) && Contents() == old(Contents())
    {
      ghost var erasable := if |s| > threshold then |s| - threshold else 0;
      ErasingStateStart(s, p, tileRectsToAdd, lo, leftovers, tiles);
      var ri := 0;
      while ri < |leftovers|
        invariant ri <= erasable && ErasingState(s, p, tileRectsToAdd, lo, ri, tiles)
        invariant TileState() == old(TileState()).(tiles := tiles) && Contents() == old(Contents())
      {
        if |tiles| <= threshold {
          break;
        }
        var index := leftovers[ri];
        ErasingStateStep(s, p, tileRectsToAdd, lo, ri, tiles);
        tiles := tiles[..index] + tiles[index + 1..];
        ri := ri + 1;
      }
      ErasingStateFinish(s, p, tileRectsToAdd, lo, threshold, ri, tiles);
    }

    /** `updateContentsFromImageIfNeeded`: with an image set, the grid is
        updated (tiles need alpha unless the frame is known to be opaque), the
        whole image is uploaded into every tile and the image is released;
        without one nothing changes. `textures` are the textures the tiles'
        uploads leave them with. */
    method UpdateContentsFromImageIfNeeded(view: Option<Rect>, ts: Size, textures: seq<Option<BitmapTexture>>)
      requires ValidTileSize(ts) && Valid() && (view.Some? ==> NonNegative(view.value))
      modifies this
      ensures Valid()
      ensures old(image).None? ==> unchanged(this)
      ensures old(image).Some? ==>
        && TileState() == UploadGrid(CreateOrDestroyTiles(old(TileState()), old(ContentsRect()), view, ts,
                                                          !old(image).value.knownOpaque, TileEraseThreshold), textures)
        && image == None
        && Contents() == old(Contents()).(image := None)
    {
      if image.None? {
        return;
      }
      CreateOrDestroyTilesIfNeeded(view, ts, !image.value.knownOpaque);
      UploadTiles(textures);
      image := None;
    }

    /** `updateContentsFromLayerIfNeeded`: with a source layer set, the grid is
        updated (tiles always support alpha), the dirty part of the layer is
        uploaded into every tile and the dirty rectangle is cleared; without
        one nothing changes. `textures` are the textures the tiles' uploads
        leave them with. */
    method UpdateContentsFromLayerIfNeeded(view: Option<Rect>, ts: Size, textures: seq<Option<BitmapTexture>>)
      requires ValidTileSize(ts) && Valid() && (view.Some? ==> NonNegative(view.value))
      modifies this
      ensures Valid()
      ensures old(sourceLayer).None? ==> unchanged(this)
      ensures old(sourceLayer).Some? ==>
        && TileState() == UploadGrid(CreateOrDestroyTiles(old(TileState()), old(ContentsRect()), view, ts, true, TileEraseThreshold), textures)
                            .(dirtyRect := EmptyRect)
        && Contents() == old(Contents())
    {
      if sourceLayer.None? {
        return;
      }
      CreateOrDestroyTilesIfNeeded(view, ts, true);
      UploadTiles(textures);
      dirtyRect := EmptyRect;
    }

    /** The loop `for (auto& tile : m_tiles) tile.updateContents(...)` of both
        content paths: tile `i` takes `TextureFor(textures, i)`, if any. */
    method UploadTiles(textures: seq<Option<BitmapTexture>>)
      modifies this
      ensures tiles == Upload(old(tiles), textures)
      ensures TileState() == old(TileState()).(tiles := tiles) && Contents() == old(Contents())
    {
      UploadAt(tiles, textures);
      for i := 0 to |tiles|
        invariant |tiles| == |old(tiles)|
        invariant forall k :: 0 <= k < i ==> tiles[k] == Uploaded(old(tiles)[k], TextureFor(textures, k))
        invariant forall k :: i <= k < |tiles| ==> tiles[k] == old(tiles)[k]
        invariant TileState() == old(TileState()).(tiles := tiles) && Contents() == old(Contents())
      {
        tiles := tiles[i := Uploaded(tiles[i], TextureFor(textures, i))];
      }
    }

    /** `paintToTextureMapper`: the image path, then the layer path, then one
        paint per tile. `imageView` and `layerView` are the visible rectangles
        the two paths compute, `imageTextures` and `layerTextures` the textures
        their uploads leave the tiles with; the result lists the painted tile
        rectangles in order. */
    method PaintToTextureMapper(imageView: Option<Rect>, layerView: Option<Rect>, ts: Size,
                                imageTextures: seq<Option<BitmapTexture>>, layerTextures: seq<Option<BitmapTexture>>)
      returns (painted: seq<Rect>)
      requires ValidTileSize(ts) && Valid()
      requires imageView.Some? ==> NonNegative(imageView.value)
      requires layerView.Some? ==> NonNegative(layerView.value)
      modifies this
      ensures Valid() && image == None && sourceLayer == old(sourceLayer)
      ensures old(sourceLayer).Some? ==> dirtyRect == EmptyRect
      ensures Contents() == old(Contents()).(image := None)
      ensures var afterImage :=
          if old(image).None? then old(TileState())
          else UploadGrid(CreateOrDestroyTiles(old(TileState()), old(ContentsRect()), imageView, ts,
                                               !old(image).value.knownOpaque, TileEraseThreshold), imageTextures);
        TileState() ==
          if old(sourceLayer).None? then afterImage
          else UploadGrid(CreateOrDestroyTiles(afterImage, old(ContentsRect()), layerView, ts, true, TileEraseThreshold),
                          layerTextures).(dirtyRect := EmptyRect)
      ensures |painted| == |tiles| && forall i :: 0 <= i < |tiles| ==> painted[i] == tiles[i].rect
    {
      ghost var contentsRect, g, img, layer := ContentsRect(), TileState(), image, sourceLayer;
      ghost var afterImage := if img.None? then g
        else UploadGrid(CreateOrDestroyTiles(g, contentsRect, imageView, ts, !img.value.knownOpaque, TileEraseThreshold),
                        imageTextures);
      UpdateContentsFromImageIfNeeded(imageView, ts, imageTextures);
      assert TileState() == afterImage && sourceLayer == layer && ContentsRect() == contentsRect;
      UpdateContentsFromLayerIfNeeded(layerView, ts, layerTextures);
      painted := TileRectsInOrder();
    }

    /** `drawBorder`: one border per tile, around its rectangle. */
    method DrawBorder() returns (borders: seq<Rect>)
      ensures |borders| == |tiles| && forall i :: 0 <= i < |tiles| ==> borders[i] == tiles[i].rect
    {
      borders := TileRectsInOrder();
    }

    /** The loop over the tiles that paint and drawBorder share. */
    method TileRectsInOrder() returns (rects: seq<Rect>)
      ensures |rects| == |tiles| && forall i :: 0 <= i < |tiles| ==> rects[i] == tiles[i].rect
    {
      rects := [];
      for i := 0 to |tiles|
        invariant |rects| == i && forall k :: 0 <= k < i ==> rects[k] == tiles[k].rect
      {
        rects := rects + [tiles[i].rect];
      }
    }

    /** `drawRepaintCounter`: one number per tile, at its top-left corner. */
    method DrawRepaintCounter() returns (locations: seq<Point>)
      ensures |locations| == |tiles|
      ensures forall i :: 0 <= i < |tiles| ==> locations[i] == Point(tiles[i].rect.x, tiles[i].rect.y)
    {
      locations := [];
      for i := 0 to |tiles|
        invariant |locations| == i
        invariant forall k :: 0 <= k < i ==> locations[k] == Point(tiles[k].rect.x, tiles[k].rect.y)
      {
        locations := locations + [Point(tiles[i].rect.x, tiles[i].rect.y)];
      }
    }

    /** `texture()`: the texture of the first tile that has one, or none. */
    method Texture() returns (texture: Option<BitmapTexture>)
      ensures texture.None? <==> forall i :: 0 <= i < |tiles| ==> tiles[i].texture.None?
      ensures texture.Some? ==>
        exists i :: 0 <= i < |tiles| && tiles[i].texture == texture &&
                    forall k :: 0 <= k < i ==> tiles[k].texture.None?
    {
      for i := 0 to |tiles|
        invariant forall k :: 0 <= k < i ==> tiles[k].texture.None?
      {
        if tiles[i].texture.Some? {
          return tiles[i].texture;
        }
      }
      return None;
    }
  }

}

/** `TileStitchService.StitchAsync` (PS2MapTool/Tiles/Services/TileStitchService.cs)
    without pixels: which tiles go where on how large a canvas, and which
    exception ends the stitch instead. A tile's bytes
    (`GetTileDataAsync`) are the parameter `data`; a loader's acceptance
    test on them is `accepts`. */
module TileStitchService {
  import opened Magic
  import opened Layout
  import opened TileDataSource
  import TileLoaderRepository

  /** `OrderByDescending(t => t.Y).ThenBy(t => t.X)`. */
  function YThenX<D>(t: Source<D>): Key {
    Key(t.y, t.x)
  }

  function Ordered<D>(tiles: seq<Source<D>>): seq<Source<D>> {
    SortBy(tiles, YThenX)
  }

  /** Some registered loader accepts the tile's data. */
  predicate Loadable<D, L(==)>(t: Source<D>, loaders: TileLoaderRepository.Repository<L>,
                               accepts: (L, seq<byte>) -> bool, data: Source<D> -> seq<byte>) {
    TileLoaderRepository.TryGet(loaders, l => accepts(l, data(t))).Some?
  }

  /** The stitch: refuse a tile count that is not a perfect square before
      reading any tile, fail to allocate the canvas when there are no tiles
      (0 passes the square check), then draw the ordered tiles with the shared cursor,
      failing on the first tile no loader accepts and stopping when
      cancellation is seen after a tile. */
  method StitchAsync<D, L(==)>(tiles: seq<Source<D>>, loaders: TileLoaderRepository.Repository<L>,
                               accepts: (L, seq<byte>) -> bool, data: Source<D> -> seq<byte>,
                               canceled: nat -> bool) returns (r: Stitch<Source<D>>)
    ensures r.NotSquare? <==> !IsSquare(|tiles|)
    ensures r.EmptyCanvas? <==> |tiles| == 0
    ensures !r.OffCanvas?
    ensures r.Stitched? <==> |tiles| > 0 && IsSquare(|tiles|) && forall i :: 0 <= i < |tiles| ==>
                             (Loadable(Ordered(tiles)[i], loaders, accepts, data) && !canceled(i))
    ensures r.Stitched? ==> var k := FloorSqrt(|tiles|);
      r.side == k * TileSize && k * k == |tiles| && |r.placements| == |tiles| &&
      forall i :: 0 <= i < |tiles| ==>
        r.placements[i] == Placement(Ordered(tiles)[i], CellPosition(i, k).0, CellPosition(i, k).1)
    ensures r.UnknownFormat? ==> r.at < |tiles| && !Loadable(Ordered(tiles)[r.at], loaders, accepts, data)
    ensures r.Canceled? ==> r.at < |tiles| && canceled(r.at)
    ensures r.UnknownFormat? || r.Canceled? ==> forall j :: 0 <= j < r.at ==>
      Loadable(Ordered(tiles)[j], loaders, accepts, data) && !canceled(j)
  {
    if !IsSquare(|tiles|) {
      return NotSquare;
    }
    if |tiles| == 0 {
      return EmptyCanvas;
    }
    var k := FloorSqrt(|tiles|);
    FloorSqrtPositive(|tiles|);
    var pass := Draw(Ordered(tiles), k, t => Loadable(t, loaders, accepts, data), canceled);
    r := Finish(pass, k);
  }

  /** A stitch that succeeds draws every tile once, each wholly on the
      canvas, and fills every cell of the grid. */
  lemma StitchedFillsCanvas<D>(tiles: seq<Source<D>>, side: nat, ps: seq<Placement<Source<D>>>)
    requires IsSquare(|tiles|) && |tiles| > 0 && |ps| == |tiles|
    requires side == FloorSqrt(|tiles|) * TileSize
    requires forall i :: 0 <= i < |tiles| ==>
      ps[i] == Placement(Ordered(tiles)[i], CellPosition(i, FloorSqrt(|tiles|)).0, CellPosition(i, FloorSqrt(|tiles|)).1)
    ensures forall i :: 0 <= i < |ps| ==> OnCanvas(ps[i], side)
    ensures forall i, j :: 0 <= i < j < |ps| ==> (ps[i].x, ps[i].y) != (ps[j].x, ps[j].y)
    ensures forall cx, cy :: 0 <= cx < FloorSqrt(|tiles|) && 0 <= cy < FloorSqrt(|tiles|) ==>
      exists i :: 0 <= i < |ps| && (ps[i].x, ps[i].y) == (cx * TileSize, cy * TileSize)
  {
    var k := FloorSqrt(|tiles|);
    FloorSqrtPositive(|tiles|);
    SquareOnCanvas(Ordered(tiles), ps, k);
    GridCovered(k);
    forall cx, cy | 0 <= cx < k && 0 <= cy < k
      ensures exists i :: 0 <= i < |ps| && (ps[i].x, ps[i].y) == (cx * TileSize, cy * TileSize)
    {
      var i := CellIndex(cx, cy, k);
      assert (ps[i].x, ps[i].y) == CellPosition(i, k);
    }
  }

  /** Tiles are drawn row by row from the top: in the drawing order Y never
      increases, X increases within a row of equal Y, and tiles with equal
      coordinates keep their input order. */
  lemma OrderedRows<D>(tiles: seq<Source<D>>)
    ensures multiset(Ordered(tiles)) == multiset(tiles)
    ensures forall i, j :: 0 <= i < j < |tiles| ==>
      Ordered(tiles)[i].y > Ordered(tiles)[j].y ||
      (Ordered(tiles)[i].y == Ordered(tiles)[j].y && Ordered(tiles)[i].x <= Ordered(tiles)[j].x)
    ensures forall key :: WithKey(Ordered(tiles), key, YThenX) == WithKey(tiles, key, YThenX)
  {
    SortByIsStableSort(tiles, YThenX);
  }
}

/** `ImageStitchService.StitchTilesAsync` (PS2MapTool/Services/ImageStitchService.cs)
    without pixels. The tile type this service takes (an older `TileInfo`
    with an `ImageFormatType`) is not part of this model, so tiles are a
    type parameter `T` with accessors for X, Y and the format tag. */
module ImageStitchService {
  import opened Layout
  import TileProcessorRepository

  /** `OrderByDescending(b => b.X).ThenBy(b => b.Y)`. */
  function XThenY<T>(xOf: T -> int, yOf: T -> int): T -> Key {
    t => Key(xOf(t), yOf(t))
  }

  /** A registered processor exists for the tile's format tag. */
  predicate Registered<T, P>(formatOf: T -> TileProcessorRepository.Format,
                             processors: TileProcessorRepository.Repository<P>, t: T) {
    TileProcessorRepository.Get(processors, formatOf(t)).Some?
  }

  /** The first `n` tiles of the drawing order all have a processor and see
      no cancellation. */
  predicate ClearBefore<T, P>(ordered: seq<T>, n: nat, formatOf: T -> TileProcessorRepository.Format,
                              processors: TileProcessorRepository.Repository<P>, canceled: nat -> bool) {
    forall j :: 0 <= j < n && j < |ordered| ==> Registered(formatOf, processors, ordered[j]) && !canceled(j)
  }

  /** The stitch as written: no square check, `floor(sqrt(n))` tiles per
      side (no tiles: a 0 x 0 canvas, whose allocation throws), the
      processor chosen by the tile's format tag (an unregistered tag
      throws), the draw refused for a tile that misses the canvas,
      cancellation checked after each drawn tile. With `k = floor(sqrt(n))`
      and `n` not a perfect square, tile `k * k` is drawn at (0, k * 256),
      below a `k * 256` canvas, so the stitch never completes: it ends at
      that tile unless an earlier tile ended it first. */
  method StitchTilesAsync<T, P>(tiles: seq<T>, xOf: T -> int, yOf: T -> int,
                                formatOf: T -> TileProcessorRepository.Format,
                                processors: TileProcessorRepository.Repository<P>,
                                canceled: nat -> bool) returns (r: Stitch<T>)
    ensures !r.NotSquare?
    ensures r.EmptyCanvas? <==> |tiles| == 0
    ensures r.Stitched? <==> (|tiles| > 0 && IsSquare(|tiles|) &&
      ClearBefore(SortBy(tiles, XThenY(xOf, yOf)), |tiles|, formatOf, processors, canceled))
    ensures r.Stitched? ==> var k := FloorSqrt(|tiles|);
      r.side == k * TileSize && |r.placements| == |tiles| &&
      forall i :: 0 <= i < |tiles| ==>
        r.placements[i] == Placement(SortBy(tiles, XThenY(xOf, yOf))[i], CellPosition(i, k).0, CellPosition(i, k).1)
    ensures r.OffCanvas? <==> (|tiles| > 0 && !IsSquare(|tiles|) &&
      Registered(formatOf, processors, SortBy(tiles, XThenY(xOf, yOf))[FloorSqrt(|tiles|) * FloorSqrt(|tiles|)]) &&
      ClearBefore(SortBy(tiles, XThenY(xOf, yOf)), FloorSqrt(|tiles|) * FloorSqrt(|tiles|), formatOf, processors, canceled))
    ensures r.OffCanvas? ==> r.at == FloorSqrt(|tiles|) * FloorSqrt(|tiles|)
    ensures r.UnknownFormat? ==> (r.at < |tiles| && r.at <= FloorSqrt(|tiles|) * FloorSqrt(|tiles|) &&
      TileProcessorRepository.Get(processors, formatOf(SortBy(tiles, XThenY(xOf, yOf))[r.at])).None?)
    ensures r.Canceled? ==> r.at < FloorSqrt(|tiles|) * FloorSqrt(|tiles|) && r.at < |tiles| && canceled(r.at)
    ensures r.UnknownFormat? || r.OffCanvas? || r.Canceled? ==>
      ClearBefore(SortBy(tiles, XThenY(xOf, yOf)), r.at, formatOf, processors, canceled)
  {
    if |tiles| == 0 {
      return EmptyCanvas;
    }
    var ordered := SortBy(tiles, XThenY(xOf, yOf));
    var k := FloorSqrt(|tiles|);
    FloorSqrtPositive(|tiles|);
    assert IsSquare(|tiles|) <==> |tiles| <= k * k;
    var loads := t => Registered(formatOf, processors, t);
    assert forall t :: loads(t) == Registered(formatOf, processors, t);
    var pass := Draw(ordered, k, loads, canceled);
    r := Finish(pass, k);
    assert forall n: nat :: ClearBefore(ordered, n, formatOf, processors, canceled) <==>
      forall j :: 0 <= j < n && j < |ordered| ==> loads(ordered[j]) && !canceled(j);
  }

  /** Two tiles whose formats both have a processor, with no cancellation:
      the canvas is one tile wide, the first tile is drawn, and the draw of
      the second, at (0, 256), throws. */
  method TwoTilesFault<T, P>(a: T, b: T, xOf: T -> int, yOf: T -> int,
                             formatOf: T -> TileProcessorRepository.Format,
                             processors: TileProcessorRepository.Repository<P>,
                             canceled: nat -> bool) returns (r: Stitch<T>)
    requires formatOf(a) in processors.processors && formatOf(b) in processors.processors
    requires forall i :: !canceled(i)
    ensures r == OffCanvas(1)
  {
    r := StitchTilesAsync([a, b], xOf, yOf, formatOf, processors, canceled);
    FloorSqrtUnique(2, 1);
    var o := SortBy([a, b], XThenY(xOf, yOf));
    SortByIsStableSort([a, b], XThenY(xOf, yOf));
    assert multiset(o) == multiset([a, b]);
    assert o[0] in multiset(o) && o[1] in multiset(o);
    assert Registered(formatOf, processors, o[0]) && Registered(formatOf, processors, o[1]);
  }

  /** The stitch with the square check `TileStitchService` has: a count that
      is not a perfect square is refused, and then every drawn tile lies on
      the canvas. */
  method StitchTilesChecked<T, P>(tiles: seq<T>, xOf: T -> int, yOf: T -> int,
                                  formatOf: T -> TileProcessorRepository.Format,
                                  processors: TileProcessorRepository.Repository<P>,
                                  canceled: nat -> bool) returns (r: Stitch<T>)
    ensures r.NotSquare? <==> !IsSquare(|tiles|)
    ensures r.EmptyCanvas? <==> |tiles| == 0
    ensures !r.OffCanvas?
    ensures r.Stitched? <==> (|tiles| > 0 && IsSquare(|tiles|) &&
      ClearBefore(SortBy(tiles, XThenY(xOf, yOf)), |tiles|, formatOf, processors, canceled))
    ensures r.Stitched? ==> (|r.placements| == |tiles| &&
      forall i :: 0 <= i < |r.placements| ==> OnCanvas(r.placements[i], r.side))
    ensures r.Stitched? ==> forall i :: 0 <= i < |tiles| ==>
      r.placements[i].tile == SortBy(tiles, XThenY(xOf, yOf))[i]
  {
    if !IsSquare(|tiles|) {
      return NotSquare;
    }
    r := StitchTilesAsync(tiles, xOf, yOf, formatOf, processors, canceled);
    if r.Stitched? {
      var k := FloorSqrt(|tiles|);
      FloorSqrtPositive(|tiles|);
      SquareOnCanvas(SortBy(tiles, XThenY(xOf, yOf)), r.placements, k);
    }
  }

  /** Tiles are drawn by descending X, then ascending Y, and tiles with equal
      coordinates keep their input order. */
  lemma OrderedColumns<T>(tiles: seq<T>, xOf: T -> int, yOf: T -> int)
    ensures multiset(SortBy(tiles, XThenY(xOf, yOf))) == multiset(tiles)
    ensures var o := SortBy(tiles, XThenY(xOf, yOf));
      forall i, j :: 0 <= i < j < |o| ==> xOf(o[i]) > xOf(o[j]) || (xOf(o[i]) == xOf(o[j]) && yOf(o[i]) <= yOf(o[j]))
    ensures forall key :: WithKey(SortBy(tiles, XThenY(xOf, yOf)), key, XThenY(xOf, yOf)) == WithKey(tiles, key, XThenY(xOf, yOf))
  {
    SortByIsStableSort(tiles, XThenY(xOf, yOf));
  }
}

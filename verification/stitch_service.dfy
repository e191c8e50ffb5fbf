/** `StitchService` (PS2MapTool/Services/StitchService.cs): bucket the tile
    files of a directory, then stitch each world/LOD group into one map.
    The directory listing is a sequence of paths, `Path.Combine` is the
    parameter `combine`, and whether `LoadDDSImage` succeeds on a tile is
    `loads` (its stride compaction is `Stride.Compact`). */
module StitchService {
  import opened Wrappers
  import opened Text
  import opened Layout
  import opened Grouping
  import MapToolTile
  import WorldLodBucket

  type Tile = MapToolTile.Tile

  /** `lods?.Select(l => "LOD" + l.ToString())`. */
  function NormaliseLods(lods: seq<int>): (r: seq<string>)
    ensures |r| == |lods|
    ensures forall i :: 0 <= i < |lods| ==> r[i] == "LOD" + IntToString(lods[i])
  {
    if |lods| == 0 then [] else NormaliseLods(lods[..|lods| - 1]) + ["LOD" + IntToString(lods[|lods| - 1])]
  }

  /** The files that parse, as tiles, in listing order. */
  function ParsedTiles(files: seq<string>): (r: seq<Tile>)
    ensures |r| <= |files|
  {
    ParsedBy(files, MapToolTile.TryParse)
  }

  /** A parsed tile carries the path it was parsed from, so that path parses
      to it again. */
  lemma ParsedPaths(files: seq<string>)
    ensures var r := ParsedTiles(files);
      forall i :: 0 <= i < |r| ==> MapToolTile.TryParse(r[i].path) == Some(r[i])
  {
    var r := ParsedTiles(files);
    forall i | 0 <= i < |r|
      ensures MapToolTile.TryParse(r[i].path) == Some(r[i])
    {
      ParsedMembers(files, MapToolTile.TryParse, r[i]);
      var j :| 0 <= j < |files| && MapToolTile.TryParse(files[j]) == Some(r[i]);
    }
  }

  /** `GenerateTileBuckets`: a bucket whose LOD filter holds the normalised
      names, filled with every file that parses. */
  function GenerateTileBuckets(files: seq<string>, worlds: Option<seq<string>>, lods: Option<seq<int>>): (b: WorldLodBucket.Bucket)
    ensures b.worlds == worlds
    ensures b.lods == (if lods.Some? then Some(NormaliseLods(lods.value)) else None)
    ensures b.tiles == Group(WorldLodBucket.Admitted(ParsedTiles(files), b.worlds, b.lods),
                             WorldLodBucket.WorldOf, WorldLodBucket.LodOf)
  {
    var normalised := if lods.Some? then Some(NormaliseLods(lods.value)) else None;
    WorldLodBucket.AddAllGroupsAdmitted(worlds, normalised, ParsedTiles(files));
    WorldLodBucket.AddAll(WorldLodBucket.Create(worlds, normalised), ParsedTiles(files))
  }

  /** With a LOD filter, a tile is kept exactly when its LOD string is
      "LOD" followed by one of the filter's numbers as `ToString` prints it;
      so "lod0" or "LOD00" is never kept. */
  lemma LodFilterSpelling(lods: seq<int>, lod: string)
    ensures WorldLodBucket.Admits(Some(NormaliseLods(lods)), lod) <==>
      exists i :: 0 <= i < |lods| && lod == "LOD" + IntToString(lods[i])
  {
    var r := NormaliseLods(lods);
    if lod in r {
      var i :| 0 <= i < |r| && r[i] == lod;
      assert lod == "LOD" + IntToString(lods[i]);
    }
  }

  /** What the stitch task ends in. `Faulted` is any exception other than
      cancellation (an empty list, a tile that fails to load, a tile drawn
      off the canvas). */
  datatype StitchTask = Completed(outputFile: string, side: nat, placements: seq<Placement<Tile>>)
                      | Faulted
                      | TaskCanceled

  function XThenY(t: Tile): Key {
    Key(t.x, t.y)
  }

  /** `"{World}_{Lod}.png"`. */
  function OutputName(t: Tile): string {
    t.world + "_" + t.lod + ".png"
  }

  /** The first `n` tiles of the drawing order all load and see no
      cancellation. */
  predicate ClearBefore(ordered: seq<Tile>, n: nat, loads: Tile -> bool, canceled: nat -> bool) {
    forall j :: 0 <= j < n && j < |ordered| ==> loads(ordered[j]) && !canceled(j)
  }

  /** The token check after tile `i`, one of the first `bound` tiles, fires:
      every earlier tile passed and tile `i` loaded and was drawn. */
  predicate CanceledAt(ordered: seq<Tile>, i: nat, bound: nat, loads: Tile -> bool, canceled: nat -> bool) {
    i < |ordered| && i < bound && ClearBefore(ordered, i, loads, canceled) && loads(ordered[i]) && canceled(i)
  }

  /** A pass that stopped at `at` because of a fault, with every tile
      before it clear and tile `at` not both loaded and clear-checked below
      `bound`, saw no cancellation at any earlier point. */
  lemma NoEarlierCancel(ordered: seq<Tile>, at: nat, bound: nat, loads: Tile -> bool, canceled: nat -> bool)
    requires at < |ordered| && ClearBefore(ordered, at, loads, canceled)
    requires !loads(ordered[at]) || at >= bound
    ensures forall i: nat :: !CanceledAt(ordered, i, bound, loads, canceled)
  {
  }

  /** `StitchTiles(tiles, ...)` run to its end: the first tile names the
      output file, tiles are drawn by descending X then ascending Y on a
      `floor(sqrt(n))`-tile canvas, and the completion callback, if there is
      one, receives the output path only when the task completed. There is
      no square check: with `k = floor(sqrt(n))` and `n` not a perfect
      square, tile `k * k` misses the canvas and its draw throws, so such a
      task faults unless a load fault or cancellation comes first. */
  method StitchTiles(tiles: seq<Tile>, outputPath: string, combine: (string, string) -> string,
                     loads: Tile -> bool, canceled: nat -> bool, hasCallback: bool)
    returns (r: StitchTask, callback: Option<string>)
    ensures |tiles| == 0 ==> r == Faulted
    ensures r.Completed? <==> (|tiles| > 0 && IsSquare(|tiles|) &&
      ClearBefore(SortBy(tiles, XThenY), |tiles|, loads, canceled))
    ensures (|tiles| > 0 && !IsSquare(|tiles|) &&
      ClearBefore(SortBy(tiles, XThenY), FloorSqrt(|tiles|) * FloorSqrt(|tiles|), loads, canceled)) ==> r == Faulted
    ensures r.TaskCanceled? ==>
      exists i: nat :: CanceledAt(SortBy(tiles, XThenY), i, FloorSqrt(|tiles|) * FloorSqrt(|tiles|), loads, canceled)
    ensures forall i: nat :: CanceledAt(SortBy(tiles, XThenY), i, FloorSqrt(|tiles|) * FloorSqrt(|tiles|), loads, canceled) ==>
      r.TaskCanceled?
    ensures r.Completed? ==> var k := FloorSqrt(|tiles|);
      r.outputFile == combine(outputPath, OutputName(tiles[0])) && r.side == k * TileSize &&
      |r.placements| == |tiles| &&
      forall i :: 0 <= i < |tiles| ==>
        r.placements[i] == Placement(SortBy(tiles, XThenY)[i], CellPosition(i, k).0, CellPosition(i, k).1)
    ensures callback.Some? <==> r.Completed? && hasCallback
    ensures callback.Some? ==> callback.value == r.outputFile
  {
    if |tiles| == 0 {
      return Faulted, None;
    }
    var ordered := SortBy(tiles, XThenY);
    var k := FloorSqrt(|tiles|);
    FloorSqrtPositive(|tiles|);
    assert IsSquare(|tiles|) <==> |tiles| <= k * k;
    var pass := Draw(ordered, k, loads, canceled);
    match pass {
      case Drawn(ps) =>
        r := Completed(combine(outputPath, OutputName(tiles[0])), k * TileSize, ps);
        assert forall i: nat :: !CanceledAt(ordered, i, k * k, loads, canceled);
      case NotLoaded(at) =>
        r := Faulted;
        NoEarlierCancel(ordered, at, k * k, loads, canceled);
      case NoOverlap(at) =>
        r := Faulted;
        NoEarlierCancel(ordered, at, k * k, loads, canceled);
      case Interrupted(at) =>
        r := TaskCanceled;
        assert CanceledAt(ordered, at, k * k, loads, canceled);
    }
    callback := if r.Completed? && hasCallback then Some(r.outputFile) else None;
  }

  /** The world/LOD groups `StitchTiles(bucket, ...)` stitches, one task
      each. */
  function Jobs(b: WorldLodBucket.Bucket): (jobs: set<(string, string)>)
    ensures forall w, l :: (w, l) in jobs <==> GetTiles(b.tiles, w, l).Found?
  {
    set w, l | w in b.tiles && l in b.tiles[w] :: (w, l)
  }

  /** Every group of a generated bucket is non-empty and holds tiles of its
      own world and LOD, so no task starts from an empty list and each names
      its output after its own group. */
  lemma JobsNonEmpty(files: seq<string>, worlds: Option<seq<string>>, lods: Option<seq<int>>, w: string, l: string)
    requires (w, l) in Jobs(GenerateTileBuckets(files, worlds, lods))
    ensures var ts := Tiles(GenerateTileBuckets(files, worlds, lods).tiles, w, l);
      |ts| > 0 && ts[0].world == w && ts[0].lod == l && OutputName(ts[0]) == w + "_" + l + ".png"
  {
    var b := GenerateTileBuckets(files, worlds, lods);
    GroupWellFormed(WorldLodBucket.Admitted(ParsedTiles(files), b.worlds, b.lods),
                    WorldLodBucket.WorldOf, WorldLodBucket.LodOf);
    assert w in b.tiles && l in b.tiles[w];
  }
}

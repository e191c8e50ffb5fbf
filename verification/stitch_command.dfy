/** `PS2MapTools.Commands.StitchCommand` (PS2MapTools/Commands/StitchCommand.cs):
    the bucketing of a tile directory and what each stitch task orders and
    writes. The directory listing is a sequence of paths;
    `Path.GetDirectoryName` and `Path.Combine` are the parameters
    `directoryName` and `combine`. */
module StitchCommand {
  import opened Wrappers
  import opened Text
  import opened Layout
  import opened Grouping
  import MapToolsTile
  import WorldLodBucket
  import StitchService

  type Tile = MapToolsTile.Tile

  function WorldOf(t: Tile): string { t.world }
  function LodOf(t: Tile): string { t.lodName }

  /** The files that `Tile.TryParse` accepts, in listing order. */
  function Parsed(files: seq<string>): (r: seq<Tile>)
    ensures |r| <= |files|
  {
    ParsedBy(files, MapToolsTile.TryParse)
  }

  /** Whether a world and a LOD string pass the world filter and the
      normalised LOD filter; a null filter passes everything. */
  predicate Passes(worlds: Option<seq<string>>, lods: Option<seq<int>>, w: string, l: string) {
    && WorldLodBucket.Admits(worlds, w)
    && WorldLodBucket.Admits(if lods.Some? then Some(StitchService.NormaliseLods(lods.value)) else None, l)
  }

  predicate Kept(t: Tile, worlds: Option<seq<string>>, lods: Option<seq<int>>) {
    Passes(worlds, lods, t.world, t.lodName)
  }

  /** The tiles that pass both filters, in order. */
  function KeptTiles(ts: seq<Tile>, worlds: Option<seq<string>>, lods: Option<seq<int>>): (r: seq<Tile>)
    ensures forall i :: 0 <= i < |r| ==> Kept(r[i], worlds, lods)
    ensures |r| <= |ts|
  {
    if |ts| == 0 then []
    else
      var t := ts[|ts| - 1];
      KeptTiles(ts[..|ts| - 1], worlds, lods) + (if Kept(t, worlds, lods) then [t] else [])
  }

  datatype Buckets = SourceMissing | Buckets(tiles: Grouping.Bucket<string, string, Tile>)

  /** The `Directory.Exists(TilesSource)` check of `ExecuteAsync`, then
      `GenerateWorldLodBuckets`: every kept tile is appended under its world
      and LOD, in listing order. */
  method GenerateWorldLodBuckets(sourceExists: bool, files: seq<string>, worlds: Option<seq<string>>, lods: Option<seq<int>>)
    returns (r: Buckets)
    ensures r.SourceMissing? <==> !sourceExists
    ensures r.Buckets? ==> r.tiles == Group(KeptTiles(Parsed(files), worlds, lods), WorldOf, LodOf)
  {
    if !sourceExists {
      return SourceMissing;
    }
    var buckets: Grouping.Bucket<string, string, Tile> := map[];
    ghost var kept: seq<Tile> := [];
    var i := 0;
    while i < |files|
      invariant 0 <= i <= |files|
      invariant kept == KeptTiles(Parsed(files[..i]), worlds, lods)
      invariant buckets == Group(kept, WorldOf, LodOf)
    {
      var p := MapToolsTile.TryParse(files[i]);
      GroupStep(files, i, worlds, lods);
      if p.Some? && Kept(p.value, worlds, lods) {
        buckets := Append(buckets, p.value.world, p.value.lodName, p.value);
        kept := kept + [p.value];
      }
      i := i + 1;
    }
    assert files[..i] == files;
    return Buckets(buckets);
  }

  /** One more listed file adds its tile, if it parses and is kept. */
  lemma KeptStep(files: seq<string>, i: nat, worlds: Option<seq<string>>, lods: Option<seq<int>>)
    requires i < |files|
    ensures var p := MapToolsTile.TryParse(files[i]);
      KeptTiles(Parsed(files[..i + 1]), worlds, lods)
        == KeptTiles(Parsed(files[..i]), worlds, lods) + (if p.Some? && Kept(p.value, worlds, lods) then [p.value] else [])
  {
    assert files[..i + 1][..i] == files[..i];
    var p := MapToolsTile.TryParse(files[i]);
    var before := Parsed(files[..i]);
    assert Parsed(files[..i + 1]) == before + (if p.Some? then [p.value] else []);
    if p.None? {
      assert Parsed(files[..i + 1]) == before;
    } else {
      assert (before + [p.value])[..|before|] == before;
      assert KeptTiles(before + [p.value], worlds, lods)
          == KeptTiles(before, worlds, lods) + (if Kept(p.value, worlds, lods) then [p.value] else []);
    }
  }

  /** The bucket after one more listed file. */
  lemma GroupStep(files: seq<string>, i: nat, worlds: Option<seq<string>>, lods: Option<seq<int>>)
    requires i < |files|
    ensures var p := MapToolsTile.TryParse(files[i]);
      var kept := KeptTiles(Parsed(files[..i]), worlds, lods);
      && (p.Some? && Kept(p.value, worlds, lods) ==>
            && KeptTiles(Parsed(files[..i + 1]), worlds, lods) == kept + [p.value]
            && Group(kept + [p.value], WorldOf, LodOf) == Append(Group(kept, WorldOf, LodOf), p.value.world, p.value.lodName, p.value))
      && (!(p.Some? && Kept(p.value, worlds, lods)) ==> KeptTiles(Parsed(files[..i + 1]), worlds, lods) == kept)
  {
    KeptStep(files, i, worlds, lods);
    var p := MapToolsTile.TryParse(files[i]);
    if p.Some? {
      GroupSnoc(KeptTiles(Parsed(files[..i]), worlds, lods), p.value);
    }
  }

  lemma GroupSnoc(ts: seq<Tile>, t: Tile)
    ensures Group(ts + [t], WorldOf, LodOf) == Append(Group(ts, WorldOf, LodOf), t.world, t.lodName, t)
  {
    assert (ts + [t])[..|ts|] == ts;
  }

  /** Under a world and LOD that both filters pass, the bucket lists every
      parsed tile with those keys in listing order; under any other pair it
      lists nothing. */
  lemma {:induction false} BucketContents(files: seq<string>, worlds: Option<seq<string>>, lods: Option<seq<int>>, w: string, l: string)
    ensures var kept := KeptTiles(Parsed(files), worlds, lods);
      Tiles(Group(kept, WorldOf, LodOf), w, l)
        == if Passes(worlds, lods, w, l) then Select(Parsed(files), w, l, WorldOf, LodOf) else []
  {
    GroupSelects(KeptTiles(Parsed(files), worlds, lods), w, l, WorldOf, LodOf);
    KeptSelect(Parsed(files), worlds, lods, w, l);
  }

  lemma {:induction false} KeptSelect(ts: seq<Tile>, worlds: Option<seq<string>>, lods: Option<seq<int>>, w: string, l: string)
    ensures Select(KeptTiles(ts, worlds, lods), w, l, WorldOf, LodOf)
         == if Passes(worlds, lods, w, l) then Select(ts, w, l, WorldOf, LodOf) else []
  {
    if |ts| > 0 {
      var init := ts[..|ts| - 1];
      var t := ts[|ts| - 1];
      KeptSelect(init, worlds, lods, w, l);
      var a := KeptTiles(init, worlds, lods);
      var a' := KeptTiles(ts, worlds, lods);
      var hit := WorldOf(t) == w && LodOf(t) == l;
      assert Select(ts, w, l, WorldOf, LodOf) == Select(init, w, l, WorldOf, LodOf) + (if hit then [t] else []);
      if Kept(t, worlds, lods) {
        assert a' == a + [t];
        assert (a + [t])[..|a|] == a;
        assert Select(a', w, l, WorldOf, LodOf) == Select(a, w, l, WorldOf, LodOf) + (if hit then [t] else []);
      } else {
        assert a' == a;
      }
    }
  }

  function XThenY(t: Tile): Key {
    Key(t.x, t.y)
  }

  /** What one stitch task does with its group, short of pixels: the order
      the tiles enter the montage and the file it writes. */
  datatype Job = Job(ordered: seq<Tile>, outputFile: string)

  /** The task queued for `lodBucket`: `lodBucket[0]` is the reference tile,
      the tiles go by descending X then ascending Y, and the output is
      `"{World}_{LOD}.png"` in `OutputPath`, else beside the reference
      tile. */
  function StitchJob(lodBucket: seq<Tile>, outputPath: Option<string>,
                     directoryName: string -> string, combine: (string, string) -> string): (r: Job)
    requires |lodBucket| > 0
    ensures Sorted(r.ordered, XThenY) && multiset(r.ordered) == multiset(lodBucket)
    ensures forall k :: WithKey(r.ordered, k, XThenY) == WithKey(lodBucket, k, XThenY)
    ensures outputPath.Some? ==> r.outputFile == combine(outputPath.value, lodBucket[0].world + "_" + lodBucket[0].lodName + ".png")
    ensures outputPath.None? ==> r.outputFile == combine(directoryName(lodBucket[0].path), lodBucket[0].world + "_" + lodBucket[0].lodName + ".png")
  {
    var reference := lodBucket[0];
    SortByIsStableSort(lodBucket, XThenY);
    var outputDirectory := if outputPath.Some? then outputPath.value else directoryName(reference.path);
    Job(SortBy(lodBucket, XThenY), combine(outputDirectory, reference.world + "_" + reference.lodName + ".png"))
  }

  /** Every group of a generated bucket has a reference tile of its own
      world and LOD, so each task can start and names its file after its
      group. */
  lemma GroupsNamedAfterKeys(files: seq<string>, worlds: Option<seq<string>>, lods: Option<seq<int>>, w: string, l: string,
                             outputPath: Option<string>, directoryName: string -> string, combine: (string, string) -> string)
    requires var b := Group(KeptTiles(Parsed(files), worlds, lods), WorldOf, LodOf); w in b && l in b[w]
    ensures var b := Group(KeptTiles(Parsed(files), worlds, lods), WorldOf, LodOf);
      |b[w][l]| > 0 &&
      var j := StitchJob(b[w][l], outputPath, directoryName, combine);
      outputPath.Some? ==> j.outputFile == combine(outputPath.value, w + "_" + l + ".png")
  {
    var b := Group(KeptTiles(Parsed(files), worlds, lods), WorldOf, LodOf);
    GroupWellFormed(KeptTiles(Parsed(files), worlds, lods), WorldOf, LodOf);
    assert WorldOf(b[w][l][0]) == w && LodOf(b[w][l][0]) == l;
  }
}

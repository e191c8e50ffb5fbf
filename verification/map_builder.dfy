/** `PS2MapBuilder.Program` (PS2MapBuilder/Program.cs), the first command
    line map builder: argument handling, the world/LOD grouping of a tile
    directory, and what each group's montage orders, writes and compresses.
    The builder's own `Tile` type is not part of this model: its parser is
    the parameter `parse`, yielding the record shape of the later
    `PS2MapTools.Tile` (path, world, X, Y and LOD string). The directory
    test, the listing, `Path.GetDirectoryName`, `Path.Combine`, the
    presence of `optipng.exe` and whether `Process.Start` returns a process
    are parameters. */
module MapBuilder {
  import opened Wrappers
  import opened Layout
  import opened Grouping
  import MapToolsTile
  import StitchCommand

  type Tile = MapToolsTile.Tile

  function WorldOf(t: Tile): string { t.world }
  function LodOf(t: Tile): string { t.lodName }

  /** `args.Contains(flag)`. */
  function Contains(args: seq<string>, flag: string): (r: bool)
    ensures r <==> exists i :: 0 <= i < |args| && args[i] == flag
  {
    if |args| == 0 then false
    else if args[0] == flag then true
    else
      assert forall i :: 1 <= i < |args| ==> args[i] == args[1..][i - 1];
      Contains(args[1..], flag)
  }

  datatype Options = Options(noCompression: bool, parallelCompression: bool)

  /** Where `Main` goes with its arguments: `WriteUsage` ends the process
      with an exit code, or the build runs on a directory. */
  datatype Start = Usage(exitCode: int) | Run(directory: string, options: Options)

  /** The checks at the top of `Main`. `WriteUsage` calls `Environment.Exit`,
      so `args[0]` is never read when there are no arguments. */
  function ParseArgs(args: seq<string>, isDirectory: string -> bool): (r: Start)
    ensures r.Usage? <==> |args| == 0 || !isDirectory(args[0])
    ensures r.Usage? ==> r.exitCode == 0
    ensures r.Run? ==> r.directory == args[0] && isDirectory(r.directory)
    ensures r.Run? ==> (r.options.noCompression <==> "-nc" in args)
    ensures r.Run? ==> (r.options.parallelCompression <==> "-npc" !in args)
  {
    if |args| < 1 then Usage(0)
    else if !isDirectory(args[0]) then Usage(0)
    else
      var noCompression := Contains(args, "-nc");
      var parallelCompression := !Contains(args, "-npc");
      Run(args[0], Options(noCompression, parallelCompression))
  }

  /** The `foreach` over the listing: every file that parses is appended
      under its world and LOD, with no filtering. */
  method GroupTiles(files: seq<string>, parse: string -> Option<Tile>) returns (buckets: Grouping.Bucket<string, string, Tile>)
    ensures buckets == Group(ParsedBy(files, parse), WorldOf, LodOf)
  {
    buckets := map[];
    var i := 0;
    while i < |files|
      invariant 0 <= i <= |files|
      invariant buckets == Group(ParsedBy(files[..i], parse), WorldOf, LodOf)
    {
      var p := parse(files[i]);
      if p.Some? {
        var tile := p.value;
        assert Append(buckets, tile.world, tile.lodName, tile) == Group(ParsedBy(files[..i + 1], parse), WorldOf, LodOf) by {
          GroupStep(files, i, parse, buckets);
        }
        buckets := Append(buckets, tile.world, tile.lodName, tile);
      } else {
        assert buckets == Group(ParsedBy(files[..i + 1], parse), WorldOf, LodOf) by {
          GroupStep(files, i, parse, buckets);
        }
      }
      i := i + 1;
    }
    assert files[..i] == files;
  }

  /** The groups after one more listed file: a file that parses is appended
      under its keys, any other leaves the groups as they were. */
  lemma GroupStep(files: seq<string>, i: nat, parse: string -> Option<Tile>, buckets: Grouping.Bucket<string, string, Tile>)
    requires i < |files| && buckets == Group(ParsedBy(files[..i], parse), WorldOf, LodOf)
    ensures var p := parse(files[i]);
      Group(ParsedBy(files[..i + 1], parse), WorldOf, LodOf)
        == if p.Some? then Append(buckets, p.value.world, p.value.lodName, p.value) else buckets
  {
    var p := parse(files[i]);
    var before := ParsedBy(files[..i], parse);
    ParsedSnoc(files, i, parse);
    if p.Some? {
      assert ParsedBy(files[..i + 1], parse) == before + [p.value];
      GroupSnoc(before, p.value, WorldOf, LodOf);
    } else {
      assert ParsedBy(files[..i + 1], parse) == before;
    }
  }

  /** Each group holds exactly the parsed tiles of its world and LOD, in
      listing order, and is never empty. */
  lemma GroupContents(files: seq<string>, parse: string -> Option<Tile>, w: string, l: string)
    ensures var b := Group(ParsedBy(files, parse), WorldOf, LodOf);
      && Tiles(b, w, l) == Select(ParsedBy(files, parse), w, l, WorldOf, LodOf)
      && (w in b && l in b[w] ==> |b[w][l]| > 0 && b[w][l][0].world == w && b[w][l][0].lodName == l)
  {
    var ts := ParsedBy(files, parse);
    GroupSelects(ts, w, l, WorldOf, LodOf);
    var b := Group(ts, WorldOf, LodOf);
    GroupWellFormed(ts, WorldOf, LodOf);
    if w in b && l in b[w] {
      assert WorldOf(b[w][l][0]) == w && LodOf(b[w][l][0]) == l;
    }
  }

  function XThenY(t: Tile): Key {
    Key(t.x, t.y)
  }

  /** What `TryCompress` does. It returns `true` only for `Started`. */
  datatype Compression = NotRequested | OptiPngMissing | StartFailed | Started(waitsForExit: bool)

  /** `if (!noCompression) TryCompress(outputFilePath, parallelCompression)`. */
  function Compress(options: Options, optiPngPresent: bool, processStarts: bool): (r: Compression)
    ensures r.NotRequested? <==> options.noCompression
    ensures r.Started? <==> !options.noCompression && optiPngPresent && processStarts
    ensures r.OptiPngMissing? ==> !optiPngPresent
    ensures r.Started? ==> (r.waitsForExit <==> !options.parallelCompression)
  {
    if options.noCompression then NotRequested
    else if !optiPngPresent then OptiPngMissing
    else if !processStarts then StartFailed
    else Started(!options.parallelCompression)
  }

  /** What one group becomes: the montage order, the file written and the
      compression outcome. */
  datatype Job = Job(ordered: seq<Tile>, outputFile: string, compression: Compression)

  /** The body of the inner `foreach`: `lodBucket[0]` is the reference tile,
      the tiles go by descending X then ascending Y, and the output is
      `"{World}_{LOD}.png"` beside the reference tile. */
  function BuildJob(lodBucket: seq<Tile>, options: Options, directoryName: string -> string,
                    combine: (string, string) -> string, optiPngPresent: bool, processStarts: bool): (r: Job)
    requires |lodBucket| > 0
    ensures Sorted(r.ordered, XThenY) && multiset(r.ordered) == multiset(lodBucket)
    ensures forall k :: WithKey(r.ordered, k, XThenY) == WithKey(lodBucket, k, XThenY)
    ensures r.outputFile == combine(directoryName(lodBucket[0].path), lodBucket[0].world + "_" + lodBucket[0].lodName + ".png")
    ensures r.compression.Started? ==> !options.noCompression && optiPngPresent
  {
    var reference := lodBucket[0];
    SortByIsStableSort(lodBucket, XThenY);
    Job(SortBy(lodBucket, XThenY),
        combine(directoryName(reference.path), reference.world + "_" + reference.lodName + ".png"),
        Compress(options, optiPngPresent, processStarts))
  }
}

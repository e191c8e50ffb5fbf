/** `PS2MapTool.Tile` (PS2MapTool/Tile.cs): the five-piece tile-name parser
    with raw world and LOD strings. */
module MapToolTile {
  import opened Wrappers
  import opened Text
  import opened FilePaths
  import opened TileNames

  datatype Tile = Tile(path: string, world: string, x: int, y: int, lod: string)

  /** `Tile.TryParse(filePath, out tile)`. `None` stands for `false` with the
      out-parameter left at `default(Tile)`: fields are only set once every
      check has passed. */
  function TryParse(filePath: string): (r: Option<Tile>)
    ensures r.Some? ==> r.value.path == filePath && IsInt32(r.value.x) && IsInt32(r.value.y)
    ensures r.Some? ==> '_' !in r.value.world && '_' !in r.value.lod
  {
    var tokens := Split(FileNameWithoutExtension(filePath), '_');
    if |tokens| != 5 || tokens[1] != "Tile" then None
    else
      var py := ParseInt32(tokens[3]);
      var px := ParseInt32(tokens[2]);
      if py.None? || px.None? then None
      else Some(Tile(filePath, tokens[0], px.value, py.value, tokens[4]))
  }

  /** `ToString()`: Y is printed before X. */
  function ToString(t: Tile): string {
    FormatStem(t.world, IntToString(t.y), IntToString(t.x), t.lod)
  }

  /** The path of a printed tile file in some directory parses to the world
      and LOD pieces as they are, with the first integer as X. */
  lemma ParsePath(dir: string, world: string, a: string, b: string, l: string, ext: string, x: int, y: int)
    requires |dir| == 0 || IsSeparator(dir[|dir| - 1])
    requires NoSeparator(world) && NoSeparator(a) && NoSeparator(b) && NoSeparator(l)
    requires '_' !in world && '_' !in a && '_' !in b && '_' !in l
    requires NoSeparator(ext) && '.' !in ext
    requires ParseInt32(a) == Some(x) && ParseInt32(b) == Some(y)
    ensures var path := dir + FormatStem(world, a, b, l) + "." + ext;
      TryParse(path) == Some(Tile(path, world, x, y, l))
  {
    PathFivePieces(dir, world, a, b, l, ext);
  }

  /** A world name containing `_` makes six or more pieces and is refused. */
  lemma WorldWithUnderscoreRejected(dir: string, world: string, a: string, b: string, l: string, ext: string)
    requires |dir| == 0 || IsSeparator(dir[|dir| - 1])
    requires NoSeparator(world) && NoSeparator(a) && NoSeparator(b) && NoSeparator(l)
    requires '_' in world && '_' !in a && '_' !in b && '_' !in l
    requires NoSeparator(ext) && '.' !in ext
    ensures TryParse(dir + FormatStem(world, a, b, l) + "." + ext) == None
  {
    PathStemPieces(dir, world, a, b, l, ext);
    SplitHasMore(world, '_');
  }

  /** Every accepted path names a printed stem of the parsed fields. */
  lemma ParsedIsPrintedStem(filePath: string)
    requires TryParse(filePath).Some?
    ensures var t := TryParse(filePath).value;
      exists a, b :: '_' !in a && '_' !in b && ParseInt32(a) == Some(t.x) && ParseInt32(b) == Some(t.y)
        && FileNameWithoutExtension(filePath) == FormatStem(t.world, a, b, t.lod)
  {
    var stem := FileNameWithoutExtension(filePath);
    var tokens := Split(stem, '_');
    JoinSplit(stem, '_');
    JoinFive(tokens);
  }

  /** Printing a tile into a file name and parsing that name back swaps X and Y. */
  lemma ReparseSwapsAxes(t: Tile, dir: string, ext: string)
    requires |dir| == 0 || IsSeparator(dir[|dir| - 1])
    requires NoSeparator(t.world) && NoSeparator(t.lod) && '_' !in t.world && '_' !in t.lod
    requires IsInt32(t.x) && IsInt32(t.y)
    requires NoSeparator(ext) && '.' !in ext
    ensures var path := dir + ToString(t) + "." + ext;
      TryParse(path) == Some(Tile(path, t.world, t.y, t.x, t.lod))
  {
    IntToStringChars(t.x);
    IntToStringChars(t.y);
    ParseIntToString(t.x);
    ParseIntToString(t.y);
    ParsePath(dir, t.world, IntToString(t.y), IntToString(t.x), t.lod, ext, t.y, t.x);
  }
}

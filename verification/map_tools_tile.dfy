/** `PS2MapTools.Tile` (PS2MapTools/Tile.cs): the same five-piece parser as
    `PS2MapTool.Tile`, with the LOD field spelled `LOD` and no `ToString`. */
module MapToolsTile {
  import opened Wrappers
  import opened Text
  import opened FilePaths
  import opened TileNames
  import MapToolTile

  datatype Tile = Tile(path: string, world: string, x: int, y: int, lodName: string)

  /** `Tile.TryParse(filePath, out tile)`; `None` stands for `false` with a
      default `Tile`. */
  function TryParse(filePath: string): (r: Option<Tile>)
    ensures r.Some? ==> r.value.path == filePath && IsInt32(r.value.x) && IsInt32(r.value.y)
    ensures r.Some? ==> '_' !in r.value.world && '_' !in r.value.lodName
  {
    var tokens := Split(FileNameWithoutExtension(filePath), '_');
    if |tokens| != 5 || tokens[1] != "Tile" then None
    else
      var py := ParseInt32(tokens[3]);
      var px := ParseInt32(tokens[2]);
      if py.None? || px.None? then None
      else Some(Tile(filePath, tokens[0], px.value, py.value, tokens[4]))
  }

  /** The path of a printed tile file parses to its pieces, X first. */
  lemma ParsePath(dir: string, world: string, a: string, b: string, l: string, ext: string, x: int, y: int)
    requires |dir| == 0 || IsSeparator(dir[|dir| - 1])
    requires NoSeparator(world) && NoSeparator(a) && NoSeparator(b) && NoSeparator(l)
    requires '_' !in world && '_' !in a && '_' !in b && '_' !in l
    requires NoSeparator(ext) && '.' !in ext
    requires ParseInt32(a) == Some(x) && ParseInt32(b) == Some(y)
    ensures var path := dir + FormatStem(world, a, b, l) + "." + ext;
      TryParse(path) == Some(Tile(path, world, x, y, l))
  {
    PathFivePieces(dir, world, a, b, l, ext);
  }

  /** Both generations accept the same paths and read the same fields. */
  lemma AgreesWithMapTool(filePath: string)
    ensures TryParse(filePath).Some? <==> MapToolTile.TryParse(filePath).Some?
    ensures TryParse(filePath).Some? ==>
      var t := TryParse(filePath).value;
      MapToolTile.TryParse(filePath).value == MapToolTile.Tile(t.path, t.world, t.x, t.y, t.lodName)
  {
  }
}

/** `PS2MapTool.Cli.Tile` (PS2MapTool.Cli/Tile.cs): the five-piece parser
    whose world and LOD pieces must name enum members exactly (case-sensitive). */
module CliTile {
  import opened Wrappers
  import opened Text
  import opened Enums
  import opened FilePaths
  import opened TileNames

  datatype Tile = Tile(path: string, world: nat, x: int, y: int, lod: nat)

  /** `Tile.TryParse(filePath, out tile)`; `None` stands for `false` with a
      default `Tile`. The world is checked before the marker, which does not
      change the outcome. */
  function TryParse(filePath: string, worlds: EnumType, lods: EnumType): (r: Option<Tile>)
    ensures r.Some? ==> r.value.path == filePath && IsValue(worlds, r.value.world) && IsValue(lods, r.value.lod)
    ensures r.Some? ==> IsInt32(r.value.x) && IsInt32(r.value.y)
  {
    var tokens := Split(FileNameWithoutExtension(filePath), '_');
    if |tokens| != 5 then None
    else
      var pw := Enums.TryParse(worlds, tokens[0], false);
      if pw.None? || tokens[1] != "Tile" then None
      else
        var px := ParseInt32(tokens[2]);
        var py := ParseInt32(tokens[3]);
        var pl := Enums.TryParse(lods, tokens[4], false);
        if px.None? || py.None? || pl.None? then None
        else Some(Tile(filePath, pw.value, px.value, py.value, pl.value))
  }

  /** `ToString()`: the member names, with Y printed before X. */
  function ToString(t: Tile, worlds: EnumType, lods: EnumType): string {
    FormatStem(ValueName(worlds, t.world), IntToString(t.y), IntToString(t.x), ValueName(lods, t.lod))
  }

  /** The path of a printed tile file parses when its world and LOD pieces
      are member names as spelled; the first integer is X. */
  lemma ParsePath(worlds: EnumType, lods: EnumType, dir: string, w: string, a: string, b: string, l: string, ext: string,
                  world: nat, x: int, y: int, lod: nat)
    requires |dir| == 0 || IsSeparator(dir[|dir| - 1])
    requires NoSeparator(w) && NoSeparator(a) && NoSeparator(b) && NoSeparator(l)
    requires '_' !in w && '_' !in a && '_' !in b && '_' !in l
    requires NoSeparator(ext) && '.' !in ext
    requires Enums.TryParse(worlds, w, false) == Some(world) && Enums.TryParse(lods, l, false) == Some(lod)
    requires ParseInt32(a) == Some(x) && ParseInt32(b) == Some(y)
    ensures var path := dir + FormatStem(w, a, b, l) + "." + ext;
      TryParse(path, worlds, lods) == Some(Tile(path, world, x, y, lod))
  {
    PathFivePieces(dir, w, a, b, l, ext);
  }

  /** Every accepted path is a printed stem whose world and LOD pieces are
      exactly the member names. */
  lemma ParsedIsPrintedStem(filePath: string, worlds: EnumType, lods: EnumType)
    requires TryParse(filePath, worlds, lods).Some?
    ensures var t := TryParse(filePath, worlds, lods).value;
      exists a, b :: '_' !in a && '_' !in b && ParseInt32(a) == Some(t.x) && ParseInt32(b) == Some(t.y)
        && FileNameWithoutExtension(filePath) == FormatStem(Name(worlds, t.world), a, b, Name(lods, t.lod))
  {
    var stem := FileNameWithoutExtension(filePath);
    var tokens := Split(stem, '_');
    var t := TryParse(filePath, worlds, lods).value;
    assert Name(worlds, t.world) == tokens[0] && Name(lods, t.lod) == tokens[4];
    assert ParseInt32(tokens[2]) == Some(t.x) && ParseInt32(tokens[3]) == Some(t.y);
    assert stem == FormatStem(tokens[0], tokens[2], tokens[3], tokens[4]) by {
      JoinSplit(stem, '_');
      JoinFive(tokens);
    }
  }

  /** Printing a tile into a file name and parsing it back swaps X and Y. */
  lemma ReparseSwapsAxes(t: Tile, worlds: EnumType, lods: EnumType, dir: string, ext: string)
    requires |dir| == 0 || IsSeparator(dir[|dir| - 1])
    requires Distinct(worlds) && IsValue(worlds, t.world) && Distinct(lods) && IsValue(lods, t.lod)
    requires NoSeparator(Name(worlds, t.world)) && '_' !in Name(worlds, t.world)
    requires NoSeparator(Name(lods, t.lod)) && '_' !in Name(lods, t.lod)
    requires IsInt32(t.x) && IsInt32(t.y)
    requires NoSeparator(ext) && '.' !in ext
    ensures var path := dir + ToString(t, worlds, lods) + "." + ext;
      TryParse(path, worlds, lods) == Some(Tile(path, t.world, t.y, t.x, t.lod))
  {
    IntToStringChars(t.x);
    IntToStringChars(t.y);
    ParseIntToString(t.x);
    ParseIntToString(t.y);
    ParseName(worlds, t.world, false);
    ParseName(lods, t.lod, false);
    ParsePath(worlds, lods, dir, Name(worlds, t.world), IntToString(t.y), IntToString(t.x), Name(lods, t.lod), ext,
              t.world, t.y, t.x, t.lod);
  }
}

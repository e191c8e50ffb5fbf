/** `TileHelpers.TryParseName` (PS2MapTool/Tiles/TileHelpers.cs): the tile-name
    parser that admits world names containing `_`. */
module TileHelpers {
  import opened Wrappers
  import opened Text
  import opened Enums
  import opened TileNames

  /** The return value of `TryParseName` with all of its out-parameters, as
      they stand when the method returns. `lod` is a `Lod` enum value. */
  datatype NameParse = NameParse(ok: bool, worldName: Option<string>, x: int, y: int, lod: nat, fileExtension: Option<string>)

  /** `int.TryParse` leaves 0 in its out-parameter on failure. */
  function ParsedOrZero(p: Option<int>): int {
    p.GetOr(0)
  }

  /** The out-parameters of an early `return false`. */
  function Rejected(ext: Option<string>): NameParse {
    NameParse(false, None, 0, 0, 0, ext)
  }

  function TryParseName(tileName: string, lods: EnumType): (r: NameParse)
    ensures !r.ok ==> r.worldName.None?
    ensures |Split(tileName, '.')| != 2 ==> r == NameParse(false, None, 0, 0, 0, None)
    ensures |Split(tileName, '.')| == 2 ==> r.fileExtension == Some(Split(tileName, '.')[1])
    ensures r.ok ==> IsValue(lods, r.lod) && IsInt32(r.x) && IsInt32(r.y)
    ensures r.ok ==> "Tile" in Split(Split(tileName, '.')[0], '_')
  {
    var parts := Split(tileName, '.');
    var tokens := Split(parts[0], '_');
    if |parts| != 2 then NameParse(false, None, 0, 0, 0, None)
    else
      var ext := Some(parts[1]);
      var t := IndexOf(tokens, "Tile");
      if t == -1 || |tokens| != 4 + t then NameParse(false, None, 0, 0, 0, ext)
      else if tokens[t] != "Tile" then
        // the re-check after IndexOf can never fail
        assert false; Rejected(ext)
      else
        var px := ParseInt32(tokens[t + 1]);
        var py := ParseInt32(tokens[t + 2]);
        var pl := TryParse(lods, tokens[t + 3], true);
        if px.None? then NameParse(false, None, 0, 0, 0, ext)
        else if py.None? then NameParse(false, None, px.value, 0, 0, ext)
        else if pl.None? then NameParse(false, None, px.value, py.value, 0, ext)
        else NameParse(true, Some(Join(tokens[..t], '_')), px.value, py.value, pl.value, ext)
  }

  /** Every composed name is accepted: the tokens before the first marker
      rejoin to the world, the first integer is X, the second is Y, and the
      LOD token is read ignoring case. */
  lemma ParseFullName(lods: EnumType, prefix: seq<string>, a: string, b: string, l: string, ext: string,
                      x: int, y: int, lod: nat)
    requires Tokens(prefix) && "Tile" !in prefix && Token(a) && Token(b) && Token(l) && '.' !in ext
    requires ParseInt32(a) == Some(x) && ParseInt32(b) == Some(y) && TryParse(lods, l, true) == Some(lod)
    ensures TryParseName(FullName(prefix, a, b, l, ext), lods)
         == NameParse(true, Some(Join(prefix, '_')), x, y, lod, Some(ext))
  {
    FullNameParts(prefix, a, b, l, ext);
    StemTokens(prefix, a, b, l);
    var ts := prefix + ["Tile", a, b, l];
    assert ts[..|prefix|] == prefix;
  }

  /** Every accepted name is a composed name with the parsed parts. */
  lemma ParsedNameIsFullName(tileName: string, lods: EnumType)
    requires TryParseName(tileName, lods).ok
    ensures var r := TryParseName(tileName, lods);
      exists prefix, a, b, l ::
        && Tokens(prefix) && "Tile" !in prefix && Token(a) && Token(b) && Token(l)
        && tileName == FullName(prefix, a, b, l, r.fileExtension.value)
        && r.worldName == Some(Join(prefix, '_'))
        && ParseInt32(a) == Some(r.x) && ParseInt32(b) == Some(r.y) && TryParse(lods, l, true) == Some(r.lod)
  {
    var parts := Split(tileName, '.');
    var ts := Split(parts[0], '_');
    var t := IndexOf(ts, "Tile");
    DecomposeName(tileName);
    assert Token(ts[t + 1]) && Token(ts[t + 2]) && Token(ts[t + 3]);
    assert Tokens(ts[..t]);
  }

  /** What a printer writes reads back: a world without '.' whose pieces do
      not include the marker, printed coordinates, and a LOD name in any case. */
  lemma ParseFormatted(lods: EnumType, world: string, x: int, y: int, lod: nat, l: string, ext: string)
    requires '.' !in world && "Tile" !in Split(world, '_')
    requires IsInt32(x) && IsInt32(y)
    requires Distinct(lods) && IsValue(lods, lod) && EqualsIgnoreCase(Name(lods, lod), l) && Token(l)
    requires '.' !in ext
    ensures TryParseName(Format(world, IntToString(x), IntToString(y), l, ext), lods)
         == NameParse(true, Some(world), x, y, lod, Some(ext))
  {
    FormatIsFullName(world, IntToString(x), IntToString(y), l, ext);
    IntToStringChars(x);
    IntToStringChars(y);
    ParseIntToString(x);
    ParseIntToString(y);
    ParseIgnoringCase(lods, lod, l);
    ParseFullName(lods, Split(world, '_'), IntToString(x), IntToString(y), l, ext, x, y, lod);
  }
}

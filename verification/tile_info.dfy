/** `TileInfo` (PS2MapTool/Tiles/TileInfo.cs): a tile parsed from its name,
    with the `World` enum validated and a seekable data stream `S`. */
module TileInfo {
  import opened Wrappers
  import opened Text
  import opened Enums
  import opened TileNames

  datatype Info<S> = Info(dataSource: S, world: nat, x: int, y: int, lod: nat,
                          fileExtension: Option<string>, isDisposed: bool)

  /** `TryParse` either throws `ArgumentException` or returns its out-parameter. */
  datatype ParseOutcome<S> = ArgumentError | Returned(tile: Option<Info<S>>)

  /** The constructor as written: it never stores its `fileExtension` argument. */
  function Construct<S>(world: nat, x: int, y: int, lod: nat, dataSource: S, fileExtension: Option<string>): (t: Info<S>)
    ensures t.fileExtension.None?
    ensures t.(fileExtension := fileExtension) == ConstructCorrected(world, x, y, lod, dataSource, fileExtension)
  {
    Info(dataSource, world, x, y, lod, None, false)
  }

  /** The constructor storing every argument. */
  function ConstructCorrected<S>(world: nat, x: int, y: int, lod: nat, dataSource: S, fileExtension: Option<string>): (t: Info<S>)
    ensures t.fileExtension == fileExtension && t.dataSource == dataSource && !t.isDisposed
  {
    Info(dataSource, world, x, y, lod, fileExtension, false)
  }

  /** The extension `TryParse` extracts: the part after the only '.', if the
      name has exactly one. */
  function Extension(tileName: string): (e: Option<string>)
    ensures e.Some? <==> |Split(tileName, '.')| == 2
    ensures e.Some? ==> '.' !in e.value
  {
    var parts := Split(tileName, '.');
    if |parts| == 2 then Some(parts[1]) else None
  }

  /** `TryParse` with the constructor chosen by `keepExtension`: the source
      uses `Construct`, and `TryParseCorrected` uses `ConstructCorrected`. */
  function ParseWith<S>(tileName: string, dataSource: S, canSeek: bool, worlds: EnumType, lods: EnumType,
                        keepExtension: bool): (r: ParseOutcome<S>)
    ensures r.ArgumentError? <==> !canSeek
    ensures r.Returned? && r.tile.Some? ==>
      var t := r.tile.value;
      && t.dataSource == dataSource && !t.isDisposed && IsValue(worlds, t.world) && IsValue(lods, t.lod)
      && IsInt32(t.x) && IsInt32(t.y)
      && t.fileExtension == (if keepExtension then Extension(tileName) else None)
  {
    if !canSeek then ArgumentError
    else
      var ext := Extension(tileName);
      var parts := Split(tileName, '.');
      var tokens := Split(parts[0], '_');
      var t := IndexOf(tokens, "Tile");
      if t == -1 || |tokens| != 4 + t then Returned(None)
      else
        var pw := Enums.TryParse(worlds, Join(tokens[..t], '_'), true);
        var px := ParseInt32(tokens[t + 1]);
        var py := ParseInt32(tokens[t + 2]);
        var pl := Enums.TryParse(lods, tokens[t + 3], true);
        if pw.None? || px.None? || py.None? || pl.None? then Returned(None)
        else if keepExtension then
          Returned(Some(ConstructCorrected(pw.value, px.value, py.value, pl.value, dataSource, ext)))
        else
          Returned(Some(Construct(pw.value, px.value, py.value, pl.value, dataSource, ext)))
  }

  function TryParse<S>(tileName: string, dataSource: S, canSeek: bool, worlds: EnumType, lods: EnumType): (r: ParseOutcome<S>)
    ensures r.ArgumentError? <==> !canSeek
    ensures r.Returned? && r.tile.Some? ==> r.tile.value.fileExtension.None?
  {
    ParseWith(tileName, dataSource, canSeek, worlds, lods, false)
  }

  function TryParseCorrected<S>(tileName: string, dataSource: S, canSeek: bool, worlds: EnumType, lods: EnumType): (r: ParseOutcome<S>)
    ensures r.ArgumentError? <==> !canSeek
    ensures r.Returned? && r.tile.Some? ==> r.tile.value.fileExtension == Extension(tileName)
  {
    ParseWith(tileName, dataSource, canSeek, worlds, lods, true)
  }

  /** A stem followed by nothing or by a '.'-led suffix is accepted whenever
      its world prefix names a `World` ignoring case; the first integer is X,
      the second Y. The source drops the extension that the corrected
      constructor keeps. */
  lemma ParseStem<S>(worlds: EnumType, lods: EnumType, dataSource: S,
                     prefix: seq<string>, a: string, b: string, l: string, suffix: string,
                     world: nat, x: int, y: int, lod: nat)
    requires Tokens(prefix) && "Tile" !in prefix && Token(a) && Token(b) && Token(l)
    requires suffix == "" || suffix[0] == '.'
    requires Enums.TryParse(worlds, Join(prefix, '_'), true) == Some(world)
    requires ParseInt32(a) == Some(x) && ParseInt32(b) == Some(y) && Enums.TryParse(lods, l, true) == Some(lod)
    ensures TryParse(Stem(prefix, a, b, l) + suffix, dataSource, true, worlds, lods)
         == Returned(Some(Info(dataSource, world, x, y, lod, None, false)))
    ensures var ext := if suffix != "" && '.' !in suffix[1..] then Some(suffix[1..]) else None;
      TryParseCorrected(Stem(prefix, a, b, l) + suffix, dataSource, true, worlds, lods)
         == Returned(Some(Info(dataSource, world, x, y, lod, ext, false)))
  {
    StemTokens(prefix, a, b, l);
    FirstDotPart(Stem(prefix, a, b, l), suffix);
    var ts := prefix + ["Tile", a, b, l];
    assert ts[..|prefix|] == prefix;
  }

  /** `name` is the stem of the given tokens followed by nothing or by a
      '.'-led suffix. */
  predicate StemName(name: string, prefix: seq<string>, a: string, b: string, l: string, suffix: string) {
    && Tokens(prefix) && "Tile" !in prefix && Token(a) && Token(b) && Token(l)
    && (suffix == "" || suffix[0] == '.')
    && name == Stem(prefix, a, b, l) + suffix
  }

  /** Every accepted name is a stem followed by nothing or a '.'-led suffix. */
  lemma ParsedIsStem<S>(tileName: string, dataSource: S, worlds: EnumType, lods: EnumType)
    requires TryParse(tileName, dataSource, true, worlds, lods).tile.Some?
    ensures var t := TryParse(tileName, dataSource, true, worlds, lods).tile.value;
      exists prefix, a, b, l, suffix ::
        && StemName(tileName, prefix, a, b, l, suffix)
        && Enums.TryParse(worlds, Join(prefix, '_'), true) == Some(t.world)
        && ParseInt32(a) == Some(t.x) && ParseInt32(b) == Some(t.y) && Enums.TryParse(lods, l, true) == Some(t.lod)
  {
    var parts := Split(tileName, '.');
    var ts := Split(parts[0], '_');
    var t := IndexOf(ts, "Tile");
    var suffix := if |parts| == 1 then "" else "." + Join(parts[1..], '.');
    var r := ParseWith(tileName, dataSource, true, worlds, lods, false).tile.value;
    ParsedFields(tileName, dataSource, worlds, lods, false);
    assert StemName(tileName, ts[..t], ts[t + 1], ts[t + 2], ts[t + 3], suffix) by {
      SplitHead(tileName, '.');
      DecomposeStem(parts[0]);
      assert Token(ts[t + 1]) && Token(ts[t + 2]) && Token(ts[t + 3]);
    }
    StemWitness(tileName, worlds, lods, ts[..t], ts[t + 1], ts[t + 2], ts[t + 3], suffix, r.world, r.x, r.y, r.lod);
    assert r == TryParse(tileName, dataSource, true, worlds, lods).tile.value;
  }

  lemma StemWitness(tileName: string, worlds: EnumType, lods: EnumType,
                    prefix: seq<string>, a: string, b: string, l: string, suffix: string,
                    world: nat, x: int, y: int, lod: nat)
    requires StemName(tileName, prefix, a, b, l, suffix)
    requires Enums.TryParse(worlds, Join(prefix, '_'), true) == Some(world)
    requires ParseInt32(a) == Some(x) && ParseInt32(b) == Some(y) && Enums.TryParse(lods, l, true) == Some(lod)
    ensures exists prefix, a, b, l, suffix ::
        && StemName(tileName, prefix, a, b, l, suffix)
        && Enums.TryParse(worlds, Join(prefix, '_'), true) == Some(world)
        && ParseInt32(a) == Some(x) && ParseInt32(b) == Some(y) && Enums.TryParse(lods, l, true) == Some(lod)
  {
  }

  /** An accepted name has the marker four tokens from the end of its stem,
      and the tile's fields are the parses of the tokens around it. */
  lemma ParsedFields<S>(tileName: string, dataSource: S, worlds: EnumType, lods: EnumType, keepExtension: bool)
    requires ParseWith(tileName, dataSource, true, worlds, lods, keepExtension).tile.Some?
    ensures var ts := Split(Split(tileName, '.')[0], '_');
      var t := IndexOf(ts, "Tile");
      var r := ParseWith(tileName, dataSource, true, worlds, lods, keepExtension).tile.value;
      && t >= 0 && |ts| == t + 4
      && Enums.TryParse(worlds, Join(ts[..t], '_'), true) == Some(r.world)
      && ParseInt32(ts[t + 1]) == Some(r.x) && ParseInt32(ts[t + 2]) == Some(r.y)
      && Enums.TryParse(lods, ts[t + 3], true) == Some(r.lod)
  {
  }

  /** `ToString()`: the world name, then Y before X, then the LOD name. */
  function ToString<S>(t: Info<S>, worlds: EnumType, lods: EnumType): string {
    FormatStem(ValueName(worlds, t.world), IntToString(t.y), IntToString(t.x), ValueName(lods, t.lod))
  }

  /** Parsing the printed form of a tile gives it back with X and Y swapped. */
  lemma ReparseSwapsAxes<S>(t: Info<S>, worlds: EnumType, lods: EnumType)
    requires Distinct(worlds) && IsValue(worlds, t.world) && '.' !in Name(worlds, t.world)
    requires "Tile" !in Split(Name(worlds, t.world), '_')
    requires Distinct(lods) && IsValue(lods, t.lod) && Token(Name(lods, t.lod))
    requires IsInt32(t.x) && IsInt32(t.y)
    ensures TryParse(ToString(t, worlds, lods), t.dataSource, true, worlds, lods)
         == Returned(Some(Info(t.dataSource, t.world, t.y, t.x, t.lod, None, false)))
  {
    var w := Name(worlds, t.world);
    var l := Name(lods, t.lod);
    FormatIsFullName(w, IntToString(t.y), IntToString(t.x), l, "");
    IntToStringChars(t.x);
    IntToStringChars(t.y);
    ParseIntToString(t.x);
    ParseIntToString(t.y);
    ParseName(worlds, t.world, true);
    ParseName(lods, t.lod, true);
    var s := Stem(Split(w, '_'), IntToString(t.y), IntToString(t.x), l);
    assert s + "" == s;
    ParseStem(worlds, lods, t.dataSource, Split(w, '_'), IntToString(t.y), IntToString(t.x), l, "",
              t.world, t.y, t.x, t.lod);
  }

  /** `Dispose()`: the stream is released on the first call only. */
  function Dispose<S>(t: Info<S>): (r: (Info<S>, seq<S>))
    ensures r.0 == t.(isDisposed := true)
    ensures r.1 == (if t.isDisposed then [] else [t.dataSource])
  {
    if t.isDisposed then (t, []) else (t.(isDisposed := true), [t.dataSource])
  }

  /** Over two calls the stream is released exactly once. */
  lemma DisposeIdempotent<S>(t: Info<S>)
    ensures Dispose(Dispose(t).0) == (Dispose(t).0, [])
    ensures |Dispose(t).1 + Dispose(Dispose(t).0).1| <= 1
  {
  }
}

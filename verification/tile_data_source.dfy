/** `TileDataSource` (PS2MapTool/Tiles/TileDataSource.cs): a parsed tile name
    with the tile's bytes. The bytes are an opaque handle `D`. */
module TileDataSource {
  import opened Wrappers
  import opened Text
  import opened Enums
  import opened TileNames

  /** The record; `data` is `None` while the bytes have not been attached. */
  datatype Source<D> = Source(worldName: string, x: int, y: int, lod: nat, fileExtension: string,
                              data: Option<D>, isDisposed: bool)

  /** `TryParseName` as written: the world-name slice ends after the index
      has moved past all four marker tokens, so `WorldName` is the whole stem. */
  function TryParseName<D>(tileName: string, lods: EnumType): (r: Option<Source<D>>)
    ensures r.Some? ==> r.value.data.None? && !r.value.isDisposed
    ensures r.Some? ==> r.value.worldName == Split(tileName, '.')[0]
    ensures r.Some? ==> |Split(tileName, '.')| == 2 && r.value.fileExtension == Split(tileName, '.')[1]
  {
    var parts := Split(tileName, '.');
    var tokens := Split(parts[0], '_');
    if |parts| != 2 then None
    else
      var t := IndexOf(tokens, "Tile");
      if t == -1 || |tokens| != 4 + t then None
      else
        var px := ParseInt32(tokens[t + 1]);
        var py := ParseInt32(tokens[t + 2]);
        var pl := TryParse(lods, tokens[t + 3], true);
        if px.None? || py.None? || pl.None? then None
        else
          JoinSplit(parts[0], '_');
          assert tokens[..t + 4] == tokens;
          Some(Source(Join(tokens[..t + 4], '_'), px.value, py.value, pl.value, parts[1], None, false))
  }

  /** `TryParseName` with the world-name slice taken before the marker, as the
      rest of the parsers do. */
  function TryParseNameCorrected<D>(tileName: string, lods: EnumType): (r: Option<Source<D>>)
    ensures r.Some? ==> r.value.data.None? && !r.value.isDisposed
    ensures r.Some? ==> |Split(tileName, '.')| == 2 && r.value.fileExtension == Split(tileName, '.')[1]
  {
    var parts := Split(tileName, '.');
    var tokens := Split(parts[0], '_');
    if |parts| != 2 then None
    else
      var t := IndexOf(tokens, "Tile");
      if t == -1 || |tokens| != 4 + t then None
      else
        var px := ParseInt32(tokens[t + 1]);
        var py := ParseInt32(tokens[t + 2]);
        var pl := TryParse(lods, tokens[t + 3], true);
        if px.None? || py.None? || pl.None? then None
        else Some(Source(Join(tokens[..t], '_'), px.value, py.value, pl.value, parts[1], None, false))
  }

  /** `ToString()`: the world, then Y before X, then the LOD name. */
  function ToString<D>(s: Source<D>, lods: EnumType): string {
    FormatStem(s.worldName, IntToString(s.y), IntToString(s.x), ValueName(lods, s.lod))
  }

  /** A composed name is accepted by both parsers with the same coordinates,
      LOD and extension; as written the world is the whole stem, which is
      never the world prefix. */
  lemma WorldNameIsWholeStem<D>(lods: EnumType, prefix: seq<string>, a: string, b: string, l: string, ext: string,
                               x: int, y: int, lod: nat)
    requires Tokens(prefix) && "Tile" !in prefix && Token(a) && Token(b) && Token(l) && '.' !in ext
    requires ParseInt32(a) == Some(x) && ParseInt32(b) == Some(y) && TryParse(lods, l, true) == Some(lod)
    ensures TryParseName<D>(FullName(prefix, a, b, l, ext), lods)
         == Some(Source(Stem(prefix, a, b, l), x, y, lod, ext, None, false))
    ensures TryParseNameCorrected<D>(FullName(prefix, a, b, l, ext), lods)
         == Some(Source(Join(prefix, '_'), x, y, lod, ext, None, false))
    ensures Stem(prefix, a, b, l) != Join(prefix, '_')
  {
    FullNameParts(prefix, a, b, l, ext);
    StemTokens(prefix, a, b, l);
    var tail := ["Tile", a, b, l];
    var ts := prefix + tail;
    assert ts[..|prefix|] == prefix;
    if |prefix| == 0 {
      assert ts == tail;
      assert |Join(tail, '_')| >= 4;
    } else {
      JoinAppend(prefix, tail, '_');
    }
  }

  /** Every name the corrected parser accepts is a composed name whose world
      prefix it returns. */
  lemma CorrectedParseIsFullName<D>(tileName: string, lods: EnumType)
    requires TryParseNameCorrected<D>(tileName, lods).Some?
    ensures var s := TryParseNameCorrected<D>(tileName, lods).value;
      exists prefix, a, b, l ::
        && Tokens(prefix) && "Tile" !in prefix && Token(a) && Token(b) && Token(l)
        && tileName == FullName(prefix, a, b, l, s.fileExtension)
        && s.worldName == Join(prefix, '_')
        && ParseInt32(a) == Some(s.x) && ParseInt32(b) == Some(s.y) && TryParse(lods, l, true) == Some(s.lod)
  {
    var parts := Split(tileName, '.');
    var ts := Split(parts[0], '_');
    var t := IndexOf(ts, "Tile");
    DecomposeName(tileName);
    assert Token(ts[t + 1]) && Token(ts[t + 2]) && Token(ts[t + 3]);
    assert Tokens(ts[..t]);
  }

  /** Printing a record and parsing the text again swaps X and Y. */
  lemma ReparseSwapsAxes<D>(s: Source<D>, lods: EnumType, ext: string)
    requires '.' !in s.worldName && "Tile" !in Split(s.worldName, '_')
    requires Distinct(lods) && IsValue(lods, s.lod) && Token(Name(lods, s.lod))
    requires IsInt32(s.x) && IsInt32(s.y) && '.' !in ext
    ensures TryParseNameCorrected<D>(ToString(s, lods) + "." + ext, lods)
         == Some(Source(s.worldName, s.y, s.x, s.lod, ext, None, false))
  {
    var l := Name(lods, s.lod);
    FormatIsFullName(s.worldName, IntToString(s.y), IntToString(s.x), l, ext);
    IntToStringChars(s.x);
    IntToStringChars(s.y);
    ParseIntToString(s.x);
    ParseIntToString(s.y);
    ParseName(lods, s.lod, true);
    WorldNameIsWholeStem<D>(lods, Split(s.worldName, '_'), IntToString(s.y), IntToString(s.x), l, ext, s.y, s.x, s.lod);
  }

  /** `Dispose()` on a live record releases its bytes once; on a disposed
      record it does nothing. Releasing unattached bytes dereferences null. */
  datatype DisposeResult<D> = Disposed(after: Source<D>, released: seq<D>) | NullReference

  function Dispose<D>(s: Source<D>): (r: DisposeResult<D>)
    ensures r.Disposed? ==> r.after == s.(isDisposed := true)
    ensures r.Disposed? ==> |r.released| <= 1 && (s.isDisposed <==> r.released == [])
    ensures r.NullReference? <==> !s.isDisposed && s.data.None?
  {
    if s.isDisposed then Disposed(s, [])
    else if s.data.None? then NullReference
    else Disposed(s.(isDisposed := true), [s.data.value])
  }

  /** A second `Dispose()` changes nothing and releases nothing, so the
      bytes are released at most once over any number of calls. */
  lemma DisposeIdempotent<D>(s: Source<D>)
    requires Dispose(s).Disposed?
    ensures Dispose(Dispose(s).after) == Disposed(Dispose(s).after, [])
  {
  }
}

/** The grammar shared by the tile-name parsers: a stem made of `_`-separated
    tokens `<prefix...>_Tile_<a>_<b>_<lod>`, optionally followed by `.<ext>`. */
module TileNames {
  import opened Text
  import opened FilePaths

  /** A token carries neither of the two separators. */
  predicate Token(s: string) {
    '_' !in s && '.' !in s
  }

  predicate Tokens(ts: seq<string>) {
    forall i :: 0 <= i < |ts| ==> Token(ts[i])
  }

  /** The stem `<prefix...>_Tile_<a>_<b>_<lod>`. */
  function Stem(prefix: seq<string>, a: string, b: string, lod: string): string {
    Join(prefix + ["Tile", a, b, lod], '_')
  }

  /** The file name `<stem>.<ext>`. */
  function FullName(prefix: seq<string>, a: string, b: string, lod: string, ext: string): string {
    Stem(prefix, a, b, lod) + "." + ext
  }

  lemma TokensAppend(prefix: seq<string>, a: string, b: string, lod: string)
    requires Tokens(prefix) && Token(a) && Token(b) && Token(lod)
    ensures Tokens(prefix + ["Tile", a, b, lod])
  {
    var ts := prefix + ["Tile", a, b, lod];
    forall i | 0 <= i < |ts| ensures Token(ts[i]) {
      if i < |prefix| { assert ts[i] == prefix[i]; }
    }
  }

  /** The tokens of a composed stem, and where the marker is found. */
  lemma StemTokens(prefix: seq<string>, a: string, b: string, lod: string)
    requires Tokens(prefix) && Token(a) && Token(b) && Token(lod)
    ensures '.' !in Stem(prefix, a, b, lod)
    ensures Split(Stem(prefix, a, b, lod), '_') == prefix + ["Tile", a, b, lod]
    ensures "Tile" !in prefix ==> IndexOf(prefix + ["Tile", a, b, lod], "Tile") == |prefix|
  {
    var ts := prefix + ["Tile", a, b, lod];
    TokensAppend(prefix, a, b, lod);
    JoinExcludes(ts, '_', '.');
    SplitJoin(ts, '_');
    if "Tile" !in prefix {
      IndexOfAfter(prefix, ["Tile", a, b, lod], "Tile");
    }
  }

  /** A composed file name splits on '.' into its stem and its extension. */
  lemma FullNameParts(prefix: seq<string>, a: string, b: string, lod: string, ext: string)
    requires Tokens(prefix) && Token(a) && Token(b) && Token(lod) && '.' !in ext
    ensures Split(FullName(prefix, a, b, lod, ext), '.') == [Stem(prefix, a, b, lod), ext]
  {
    StemTokens(prefix, a, b, lod);
    var stem := Stem(prefix, a, b, lod);
    SplitConcat(stem, '.', ext);
    SplitNoSeparator(stem, '.');
    SplitNoSeparator(ext, '.');
  }

  /** Four tokens from the marker on, after a prefix, recompose the list. */
  lemma MarkerTail(ts: seq<string>, t: nat)
    requires |ts| == t + 4 && ts[t] == "Tile"
    ensures Join(ts, '_') == Stem(ts[..t], ts[t + 1], ts[t + 2], ts[t + 3])
  {
    var tail := [ts[t], ts[t + 1], ts[t + 2], ts[t + 3]];
    assert ts == ts[..t] + tail;
  }

  lemma DecomposeStem(stem: string)
    requires '.' !in stem
    requires IndexOf(Split(stem, '_'), "Tile") >= 0
    requires |Split(stem, '_')| == IndexOf(Split(stem, '_'), "Tile") + 4
    ensures var ts := Split(stem, '_'); var t := IndexOf(ts, "Tile");
      && Tokens(ts) && "Tile" !in ts[..t]
      && stem == Stem(ts[..t], ts[t + 1], ts[t + 2], ts[t + 3])
  {
    var ts := Split(stem, '_');
    var t := IndexOf(ts, "Tile");
    assert stem == Stem(ts[..t], ts[t + 1], ts[t + 2], ts[t + 3]) by {
      JoinSplit(stem, '_');
      JoinedMarkerTail(stem, ts, t);
    }
    assert Tokens(ts) by {
      SplitTokens(stem);
    }
  }

  /** The `_` pieces of a dot-free text are tokens. */
  lemma SplitTokens(s: string)
    requires '.' !in s
    ensures Tokens(Split(s, '_'))
  {
    SplitExcludes(s, '_', '.');
  }

  /** A text that joins from tokens ending in the marker and three more is
      the stem of those tokens. */
  lemma JoinedMarkerTail(stem: string, ts: seq<string>, t: nat)
    requires Join(ts, '_') == stem && |ts| == t + 4 && ts[t] == "Tile"
    ensures stem == Stem(ts[..t], ts[t + 1], ts[t + 2], ts[t + 3])
  {
    MarkerTail(ts, t);
  }

  /** A name with exactly one '.' whose stem decomposes is a composed full name. */
  lemma DecomposeName(name: string)
    requires |Split(name, '.')| == 2
    requires var ts := Split(Split(name, '.')[0], '_');
      IndexOf(ts, "Tile") >= 0 && |ts| == IndexOf(ts, "Tile") + 4
    ensures var parts := Split(name, '.'); var ts := Split(parts[0], '_'); var t := IndexOf(ts, "Tile");
      && Tokens(ts) && "Tile" !in ts[..t] && '.' !in parts[1]
      && name == FullName(ts[..t], ts[t + 1], ts[t + 2], ts[t + 3], parts[1])
  {
    var parts := Split(name, '.');
    JoinSplit(name, '.');
    assert parts[1..] == [parts[1]];
    DecomposeStem(parts[0]);
  }

  /** The text a printer writes: `<world>_Tile_<a>_<b>_<lod>`. */
  function FormatStem(world: string, a: string, b: string, lod: string): string {
    world + "_Tile_" + a + "_" + b + "_" + lod
  }

  /** A printed stem with an extension: `<world>_Tile_<a>_<b>_<lod>.<ext>`. */
  function Format(world: string, a: string, b: string, lod: string, ext: string): string {
    FormatStem(world, a, b, lod) + "." + ext
  }

  lemma JoinMarkerTail(a: string, b: string, lod: string)
    ensures Join(["Tile", a, b, lod], '_') == "Tile_" + a + "_" + b + "_" + lod
  {
    var tail := ["Tile", a, b, lod];
    assert tail[1..] == [a, b, lod];
    assert [a, b, lod][1..] == [b, lod];
    assert [b, lod][1..] == [lod];
    assert Join([b, lod], '_') == b + "_" + lod;
    assert Join([a, b, lod], '_') == a + "_" + (b + "_" + lod);
    assert Join(tail, '_') == "Tile" + "_" + (a + "_" + (b + "_" + lod));
  }

  /** A printed name is the full name whose prefix tokens are the world's
      `_`-separated pieces, which join back to the world. */
  lemma FormatIsFullName(world: string, a: string, b: string, lod: string, ext: string)
    requires '.' !in world
    ensures Tokens(Split(world, '_')) && Join(Split(world, '_'), '_') == world
    ensures FormatStem(world, a, b, lod) == Stem(Split(world, '_'), a, b, lod)
    ensures Format(world, a, b, lod, ext) == FullName(Split(world, '_'), a, b, lod, ext)
  {
    var ws := Split(world, '_');
    SplitExcludes(world, '_', '.');
    JoinSplit(world, '_');
    JoinAppend(ws, ["Tile", a, b, lod], '_');
    JoinMarkerTail(a, b, lod);
    var tail := "Tile_" + a + "_" + b + "_" + lod;
    assert Stem(ws, a, b, lod) == world + "_" + tail;
    PrefixTail(world, a, b, lod);
  }

  /** Re-bracketing the printed stem around its first separator. */
  lemma PrefixTail(world: string, a: string, b: string, lod: string)
    ensures world + "_" + ("Tile_" + a + "_" + b + "_" + lod) == FormatStem(world, a, b, lod)
  {
    var tail := "Tile_" + a + "_" + b + "_" + lod;
    assert "_" + tail == "_Tile_" + a + "_" + b + "_" + lod;
  }

  /** The text before the first '.' of a stem followed by nothing or by a
      '.'-led suffix is the stem. */
  lemma FirstDotPart(stem: string, suffix: string)
    requires '.' !in stem && (suffix == "" || suffix[0] == '.')
    ensures Split(stem + suffix, '.')[0] == stem
    ensures |Split(stem + suffix, '.')| == 2 <==> suffix != "" && '.' !in suffix[1..]
    ensures |Split(stem + suffix, '.')| == 2 ==> Split(stem + suffix, '.')[1] == suffix[1..]
  {
    SplitNoSeparator(stem, '.');
    if suffix == "" {
      assert stem + suffix == stem;
    } else {
      var rest := suffix[1..];
      assert stem + suffix == stem + ['.'] + rest;
      SplitConcat(stem, '.', rest);
      if '.' !in rest {
        SplitNoSeparator(rest, '.');
      } else {
        SplitHasMore(rest, '.');
      }
    }
  }

  /** The `_`-pieces of a printed stem: the world's pieces, the marker and
      the three fields. */
  lemma SplitFormatStem(world: string, a: string, b: string, lod: string)
    requires '_' !in a && '_' !in b && '_' !in lod
    ensures Split(FormatStem(world, a, b, lod), '_') == Split(world, '_') + ["Tile", a, b, lod]
  {
    var tail := ["Tile", a, b, lod];
    JoinMarkerTail(a, b, lod);
    assert FormatStem(world, a, b, lod) == world + ['_'] + Join(tail, '_');
    SplitConcat(world, '_', Join(tail, '_'));
    SplitJoin(tail, '_');
  }

  /** The older parsers' view of a file `dir/<stem>.<ext>`: the `_`-pieces of
      its name without extension. */
  lemma PathStemPieces(dir: string, world: string, a: string, b: string, lod: string, ext: string)
    requires |dir| == 0 || IsSeparator(dir[|dir| - 1])
    requires NoSeparator(world) && NoSeparator(a) && NoSeparator(b) && NoSeparator(lod)
    requires '_' !in a && '_' !in b && '_' !in lod
    requires NoSeparator(ext) && '.' !in ext
    ensures Split(FileNameWithoutExtension(dir + FormatStem(world, a, b, lod) + "." + ext), '_')
         == Split(world, '_') + ["Tile", a, b, lod]
  {
    NoSeparatorFormatStem(world, a, b, lod);
    StemOfPath(dir, FormatStem(world, a, b, lod), ext);
    SplitFormatStem(world, a, b, lod);
  }

  /** With an underscore-free world, the path splits into exactly the five
      printed pieces. */
  lemma PathFivePieces(dir: string, world: string, a: string, b: string, lod: string, ext: string)
    requires |dir| == 0 || IsSeparator(dir[|dir| - 1])
    requires NoSeparator(world) && NoSeparator(a) && NoSeparator(b) && NoSeparator(lod)
    requires '_' !in world && '_' !in a && '_' !in b && '_' !in lod
    requires NoSeparator(ext) && '.' !in ext
    ensures var ts := Split(FileNameWithoutExtension(dir + FormatStem(world, a, b, lod) + "." + ext), '_');
      |ts| == 5 && ts[0] == world && ts[1] == "Tile" && ts[2] == a && ts[3] == b && ts[4] == lod
  {
    PathStemPieces(dir, world, a, b, lod, ext);
    SplitNoSeparator(world, '_');
  }

  lemma NoSeparatorFormatStem(world: string, a: string, b: string, lod: string)
    requires NoSeparator(world) && NoSeparator(a) && NoSeparator(b) && NoSeparator(lod)
    ensures NoSeparator(FormatStem(world, a, b, lod))
  {
    NoSeparatorAppend(world, "_Tile_");
    NoSeparatorAppend(world + "_Tile_", a);
    NoSeparatorAppend(world + "_Tile_" + a, "_");
    NoSeparatorAppend(world + "_Tile_" + a + "_", b);
    NoSeparatorAppend(world + "_Tile_" + a + "_" + b, "_");
    NoSeparatorAppend(world + "_Tile_" + a + "_" + b + "_", lod);
  }

  /** Five pieces with the marker second join to a printed stem. */
  lemma JoinFive(ts: seq<string>)
    requires |ts| == 5 && ts[1] == "Tile"
    ensures Join(ts, '_') == FormatStem(ts[0], ts[2], ts[3], ts[4])
  {
    assert ts == [ts[0]] + ["Tile", ts[2], ts[3], ts[4]];
    JoinAppend([ts[0]], ["Tile", ts[2], ts[3], ts[4]], '_');
    JoinMarkerTail(ts[2], ts[3], ts[4]);
  }
}

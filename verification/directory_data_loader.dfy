/** `PS2MapTool.Services.DirectoryDataLoaderService`
    (PS2MapTool/Services/DirectoryDataLoaderService.cs): tiles and the areas
    file of a world, read from a directory. Whether the directory exists,
    the files the tile glob enumerates and the directory tree are
    parameters; a tile's open file handle is represented by its path. */
module DirectoryDataLoader {
  import opened Wrappers
  import opened Text
  import opened Enums
  import opened FilePaths
  import TileHelpers
  import opened DirectoryTree
  import Grouping

  /** The members of `System.IO.SearchOption`. */
  const TopDirectoryOnly: int := 0
  const AllDirectories: int := 1

  datatype Loader = Loader(directory: string, searchOption: int)

  datatype Created = InvalidSearchOption | Created(loader: Loader)

  /** The constructor: `Enum.IsDefined(searchOption)` or `ArgumentException`. */
  function Create(directory: string, searchOption: int): (r: Created)
    ensures r.Created? <==> searchOption == TopDirectoryOnly || searchOption == AllDirectories
    ensures r.Created? ==> r.loader.directory == directory && r.loader.searchOption == searchOption
  {
    if searchOption != TopDirectoryOnly && searchOption != AllDirectories then InvalidSearchOption
    else Created(Loader(directory, searchOption))
  }

  /** `FileTileDataSource(worldName, x, y, lod, fileExtension, handle)`. */
  datatype FileTile = FileTile(worldName: string, x: int, y: int, lod: nat, fileExtension: string, path: string)

  datatype Tiles = DirectoryNotFound | TilesCanceled | Found(tiles: seq<FileTile>)

  /** The tile one enumerated path yields: `None` when its file name does
      not parse, and the file is then never opened. */
  function TileOf(path: string, lods: EnumType): (r: Option<FileTile>)
    ensures r.Some? <==> TileHelpers.TryParseName(FileName(path), lods).ok
    ensures r.Some? ==> r.value.path == path
  {
    var p := TileHelpers.TryParseName(FileName(path), lods);
    if !p.ok then None
    else
      assert |Split(FileName(path), '.')| == 2;
      Some(FileTile(p.worldName.value, p.x, p.y, p.lod, p.fileExtension.value, path))
  }

  /** The tiles of the enumerated paths, in enumeration order. */
  function Opened(paths: seq<string>, lods: EnumType): seq<FileTile> {
    Grouping.ParsedBy(paths, TileParser(lods))
  }

  /** `TileOf` as a function of the path alone. */
  function TileParser(lods: EnumType): string -> Option<FileTile> {
    p => TileOf(p, lods)
  }

  /** `GetTilesAsync`. `paths` is what `Directory.EnumerateFiles` yields for
      the pattern `worldName + "_Tile_???_???_" + lod + ".*"`, and
      `canceled(i)` is the token as seen before the `i`-th path. */
  method GetTilesAsync(directoryExists: bool, paths: seq<string>, lods: EnumType, canceled: nat -> bool)
    returns (r: Tiles)
    ensures r.DirectoryNotFound? <==> !directoryExists
    ensures r.TilesCanceled? <==> directoryExists && exists i :: 0 <= i < |paths| && canceled(i)
    ensures r.Found? ==> r.tiles == Opened(paths, lods)
  {
    if !directoryExists {
      return DirectoryNotFound;
    }
    var tiles: seq<FileTile> := [];
    var i := 0;
    while i < |paths|
      invariant 0 <= i <= |paths|
      invariant forall j :: 0 <= j < i ==> !canceled(j)
      invariant tiles == Opened(paths[..i], lods)
    {
      if canceled(i) {
        return TilesCanceled;
      }
      assert forall j :: 0 <= j < i + 1 ==> !canceled(j);
      var t := TileOf(paths[i], lods);
      assert TileParser(lods)(paths[i]) == t;
      Grouping.ParsedSnoc(paths, i, TileParser(lods));
      if t.Some? {
        tiles := tiles + [t.value];
      }
      i := i + 1;
    }
    assert paths[..i] == paths;
    return Found(tiles);
  }

  /** A path yields a tile exactly when its file name parses, and the tile
      carries the parsed fields and the path. */
  lemma OpenedMembers(paths: seq<string>, lods: EnumType, t: FileTile)
    ensures t in Opened(paths, lods) <==> t.path in paths && TileOf(t.path, lods) == Some(t)
  {
    var f := TileParser(lods);
    Grouping.ParsedMembers(paths, f, t);
    if t in Opened(paths, lods) {
      var i :| 0 <= i < |paths| && f(paths[i]) == Some(t);
      assert TileOf(paths[i], lods) == Some(t);
    }
    if t.path in paths && TileOf(t.path, lods) == Some(t) {
      var i :| 0 <= i < |paths| && paths[i] == t.path;
      assert f(paths[i]) == Some(t);
    }
  }

  /** At most one tile per path, and exactly one when every name parses. */
  lemma OpenedLength(paths: seq<string>, lods: EnumType)
    ensures |Opened(paths, lods)| <= |paths|
    ensures (forall i :: 0 <= i < |paths| ==> TileOf(paths[i], lods).Some?) ==> |Opened(paths, lods)| == |paths|
  {
    if forall i :: 0 <= i < |paths| ==> TileOf(paths[i], lods).Some? {
      var f := TileParser(lods);
      assert forall i :: 0 <= i < |paths| ==> f(paths[i]).Some?;
      Grouping.ParsedEvery(paths, f);
    }
  }

  datatype Areas = AreasDirectoryNotFound | FileNotFound | AreasFound(worldName: string, path: string)

  /** The name of a world's areas file. */
  function AreasFileName(worldName: string): string {
    worldName + "Areas.xml"
  }

  /** `GetAreasAsync`. `root` is the tree under the loader's directory,
      `combine` is `Path.Combine` and `live` the number of token checks of
      the recursive search that find it clear. */
  function GetAreasAsync(loader: Loader, directoryExists: bool, worldName: string, root: Dir,
                         combine: (string, string) -> string, live: nat): (r: Areas)
    requires root.path == loader.directory
    ensures r.AreasDirectoryNotFound? <==> !directoryExists
    ensures loader.searchOption != AllDirectories ==> (
      r.AreasFound? <==> directoryExists && AreasFileName(worldName) in root.files)
    ensures r.AreasFound? ==> r.worldName == worldName
  {
    if !directoryExists then AreasDirectoryNotFound
    else
      var fileName := AreasFileName(worldName);
      var filePath :=
        if loader.searchOption == AllDirectories then Search(fileName, root, combine, live).0
        else if fileName in root.files then Some(combine(loader.directory, fileName))
        else None;
      if filePath.None? then FileNotFound else AreasFound(worldName, filePath.value)
  }

  /** With subdirectory search, the areas file is the first in visiting
      order, provided the search reached it before cancellation; anything
      else is `FileNotFoundException`. */
  lemma AreasSearchFindsFirst(loader: Loader, worldName: string, root: Dir,
                              combine: (string, string) -> string, live: nat)
    requires root.path == loader.directory && loader.searchOption == AllDirectories
    ensures var r := GetAreasAsync(loader, true, worldName, root, combine, live);
      var e := Expected(Preorder(root), AreasFileName(worldName), combine, live);
      (r.FileNotFound? <==> e.None?) && (r.AreasFound? ==> Some(r.path) == e)
  {
    SearchFindsFirst(AreasFileName(worldName), root, combine, live);
  }
}

/** `PS2MapTool.Core.Services.DirectoryDataLoaderService`
    (PS2MapTool.Core/Services/DirectoryDataLoaderService.cs): the areas file
    of a `World` enum value, found in a directory or its subtree. */
module CoreDirectoryDataLoader {
  import opened Wrappers
  import opened Enums
  import opened DirectoryTree

  datatype Loader = Loader(directory: string, searchSubdirectories: bool)

  datatype AreasInfo = DirectoryNotFound | FileNotFound | Found(world: nat, path: string)

  /** `world.ToString() + "Areas.xml"`. */
  function AreasFileName(worlds: EnumType, world: nat): string {
    ValueName(worlds, world) + "Areas.xml"
  }

  /** `GetAreasInfoAsync`, with the tree under the loader's directory,
      `Path.Combine` as `combine` and `live` clear token checks. */
  function GetAreasInfoAsync(loader: Loader, directoryExists: bool, worlds: EnumType, world: nat, root: Dir,
                             combine: (string, string) -> string, live: nat): (r: AreasInfo)
    requires root.path == loader.directory
    ensures r.DirectoryNotFound? <==> !directoryExists
    ensures r.Found? ==> r.world == world
    ensures !loader.searchSubdirectories ==> (
      r.Found? <==> directoryExists && AreasFileName(worlds, world) in root.files)
    ensures !loader.searchSubdirectories && r.Found? ==> r.path == combine(loader.directory, AreasFileName(worlds, world))
  {
    if !directoryExists then DirectoryNotFound
    else
      var fileName := AreasFileName(worlds, world);
      var filePath :=
        if loader.searchSubdirectories then Search(fileName, root, combine, live).0
        else if fileName in root.files then Some(combine(loader.directory, fileName))
        else None;
      if filePath.None? then FileNotFound else Found(world, filePath.value)
  }

  /** With subdirectory search the result is the first directory in visiting
      order that holds the file, if the token was clear when it was checked;
      a null search result is `FileNotFoundException`. */
  lemma SubtreeSearchFindsFirst(loader: Loader, worlds: EnumType, world: nat, root: Dir,
                                combine: (string, string) -> string, live: nat)
    requires root.path == loader.directory && loader.searchSubdirectories
    ensures var r := GetAreasInfoAsync(loader, true, worlds, world, root, combine, live);
      var e := Expected(Preorder(root), AreasFileName(worlds, world), combine, live);
      (r.FileNotFound? <==> e.None?) && (r.Found? ==> Some(r.path) == e)
  {
    SearchFindsFirst(AreasFileName(worlds, world), root, combine, live);
  }
}

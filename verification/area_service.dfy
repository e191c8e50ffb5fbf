/** `PS2MapTool.Areas.AreaService` (PS2MapTool/Areas/AreaService.cs), the
    older copy of the no-deploy zone service. It asks its data loader for
    the areas file of a world and scans it; it does not rewind the stream. */
module AreaService {
  import opened Wrappers
  import opened NoDeployAreas
  import CoreDirectoryDataLoader

  datatype Listing<F> = DirectoryNotFound | FileNotFound | ListingCanceled | Listed(areas: seq<Area<F>>)

  /** `GetNoDeployAreasAsync(world, type, ct)`. `loaded` is what
      `GetAreasInfoAsync(world, ct)` produced, whose exceptions propagate,
      and `contents(path)` the nodes of the file it opened. */
  method GetNoDeployAreasAsync<F>(loaded: CoreDirectoryDataLoader.AreasInfo, contents: string -> seq<Node>,
                                  parseFloat: string -> Option<F>, kind: int, canceled: nat -> bool)
    returns (r: Listing<F>)
    ensures r.DirectoryNotFound? <==> loaded.DirectoryNotFound?
    ensures r.FileNotFound? <==> loaded.FileNotFound?
    ensures r.ListingCanceled? <==> loaded.Found? && exists i :: 0 <= i < |contents(loaded.path)| && canceled(i)
    ensures r.Listed? ==> loaded.Found? && r.areas == Resolve(contents(loaded.path), parseFloat, kind)
  {
    match loaded {
      case DirectoryNotFound => return DirectoryNotFound;
      case FileNotFound => return FileNotFound;
      case Found(_, path) =>
        var scan := ScanAreas(contents(path), parseFloat, kind, canceled);
        if scan.ScanCanceled? {
          return ListingCanceled;
        }
        return Listed(scan.areas);
    }
  }

  /** The overlay of `CreateNoDeployZoneImageAsync`: square, with side
      `IMAGE_PIXEL_SIZE / GetLodScalar(lod)`. */
  function OverlaySize(lod: nat): (r: (nat, nat))
    ensures r.0 == r.1
    ensures r.0 * (lod + 1) <= ImagePixelSize < (r.0 + 1) * (lod + 1)
  {
    (ImageSide(lod), ImageSide(lod))
  }
}

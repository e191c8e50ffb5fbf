/** `PS2MapTool.Services.AreasService` (PS2MapTool/Services/AreasService.cs):
    the no-deploy zones of an areas source, and the size of their overlay.
    The source's stream is the node sequence its XML reader yields from the
    start of the document, with the position counted in nodes. */
module AreasService {
  import opened Wrappers
  import opened NoDeployAreas

  /** `AreasSourceInfo`: the world and the positioned data stream. */
  datatype AreasSource = AreasSource(world: nat, content: seq<Node>, position: nat)

  /** What a reader created at the stream's position reads. */
  function Remaining(source: AreasSource): (r: seq<Node>)
    ensures source.position == 0 ==> r == source.content
    ensures |r| <= |source.content|
  {
    if source.position <= |source.content| then source.content[source.position..] else []
  }

  datatype Listing<F> = ListingCanceled | Listed(areas: seq<Area<F>>, source: AreasSource)

  /** `GetNoDeployAreasAsync`: the scan over what the reader reads, then the
      stream seeks back to its start. A cancelled scan throws before the
      seek. */
  method GetNoDeployAreasAsync<F>(source: AreasSource, parseFloat: string -> Option<F>, kind: int, canceled: nat -> bool)
    returns (r: Listing<F>)
    ensures r.ListingCanceled? <==> exists i :: 0 <= i < |Remaining(source)| && canceled(i)
    ensures r.Listed? ==> r.areas == Resolve(Remaining(source), parseFloat, kind)
    ensures r.Listed? ==> r.source == source.(position := 0) && Remaining(r.source) == source.content
  {
    var scan := ScanAreas(Remaining(source), parseFloat, kind, canceled);
    if scan.ScanCanceled? {
      return ListingCanceled;
    }
    return Listed(scan.areas, source.(position := 0));
  }

  /** The overlay of `CreateNoDeployZoneImageAsync` is square, with side
      `IMAGE_PIXEL_SIZE / GetLodScalar(lod)`. */
  function OverlaySize(lod: nat): (r: (nat, nat))
    ensures r.0 == r.1
    ensures r.0 * (lod + 1) <= ImagePixelSize < (r.0 + 1) * (lod + 1)
  {
    (ImageSide(lod), ImageSide(lod))
  }
}

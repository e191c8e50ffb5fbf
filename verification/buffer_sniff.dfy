/** `CanLoadAsync` of the buffer-based loaders
    (PS2MapTool/Tiles/Services/DdsTileLoaderService.cs and
    PngTileLoaderService.cs): compare the tile data with the signature byte
    by byte, indexing the data without a length check. */
module BufferSniff {
  import opened Magic

  /** What the comparison loop ends in: `IndexOutOfRange` is the exception
      that indexing past the end of the data raises. */
  datatype Sniff = Accepted | Rejected | IndexOutOfRange

  /** The loop from position `i` on, as written: it stops at the first
      mismatching byte and indexes the data even when it has run out. */
  function Scan(data: seq<byte>, magic: seq<byte>, i: nat): (r: Sniff)
    requires i <= |magic| && i <= |data| && data[..i] == magic[..i]
    ensures r == Accepted <==> StartsWith(data, magic)
    ensures r == IndexOutOfRange <==> |data| < |magic| && data == magic[..|data|]
    decreases |magic| - i
  {
    if i == |magic| then
      assert data[..|magic|] == magic[..i];
      Accepted
    else if i == |data| then
      assert data == data[..i];
      IndexOutOfRange
    else if data[i] != magic[i] then
      assert |data| < |magic| || data[..|magic|][i] != magic[i];
      assert |data| < |magic| ==> data[i] != magic[..|data|][i];
      Rejected
    else
      assert data[..i + 1] == data[..i] + [data[i]];
      assert magic[..i + 1] == magic[..i] + [magic[i]];
      Scan(data, magic, i + 1)
  }

  /** `CanLoadAsync` on the tile's data. */
  function CanLoad(data: seq<byte>, magic: seq<byte>): (r: Sniff)
    ensures r == Accepted <==> StartsWith(data, magic)
    ensures r == IndexOutOfRange <==> |data| < |magic| && data == magic[..|data|]
  {
    Scan(data, magic, 0)
  }

  function CanLoadDds(data: seq<byte>): (r: Sniff)
    ensures r == Accepted <==> |data| >= 4 && data[..4] == [0x44, 0x44, 0x53, 0x20]
    ensures r == IndexOutOfRange <==> |data| < 4 && data == DdsMagic[..|data|]
  {
    CanLoad(data, DdsMagic)
  }

  function CanLoadPng(data: seq<byte>): (r: Sniff)
    ensures r == Accepted <==> |data| >= 8 && data[..8] == [0x89, 0x50, 0x4E, 0x47, 0x0D, 0x0A, 0x1A, 0x0A]
    ensures r == IndexOutOfRange <==> |data| < 8 && data == PngSignature[..|data|]
  {
    CanLoad(data, PngSignature)
  }

  /** Data that is a proper beginning of the signature, the empty data
      among them, makes the check throw instead of answering false. */
  lemma ShortDataThrows()
    ensures CanLoadDds([]) == IndexOutOfRange
    ensures CanLoadDds([0x44, 0x44, 0x53]) == IndexOutOfRange
    ensures CanLoadPng([0x89, 0x50]) == IndexOutOfRange
  {
    assert [0x44, 0x44, 0x53] == DdsMagic[..3];
    assert [0x89, 0x50] == PngSignature[..2];
  }

  /** The check the loaders evidently intend: false on data too short to
      hold the signature. */
  function CanLoadChecked(data: seq<byte>, magic: seq<byte>): (r: bool)
    ensures r <==> CanLoad(data, magic) == Accepted
  {
    if |data| < |magic| then false else data[..|magic|] == magic
  }

  /** Only the first `|magic|` bytes matter: data with the same beginning
      gets the same answer, whatever follows. */
  lemma OnlySignatureBytesMatter(data: seq<byte>, other: seq<byte>, magic: seq<byte>)
    requires |data| >= |magic| && |other| >= |magic|
    requires data[..|magic|] == other[..|magic|]
    ensures CanLoad(data, magic) == CanLoad(other, magic)
  {
  }
}

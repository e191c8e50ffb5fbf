/** `CanLoad` of the stream-based loaders and processors
    (PS2MapTool/Services/DdsTileLoaderService.cs, PngTileLoaderService.cs,
    DdsTileProcessorService.cs and PngTileProcessorService.cs): peek at the
    next bytes of a seekable stream and put the position back. */
module StreamSniff {
  import opened Magic

  /** A stream over `data`, positioned at `position` (which may lie past the
      end, as .NET allows). */
  datatype Stream = Stream(data: seq<byte>, position: nat, canSeek: bool, canRead: bool)

  function Min(a: nat, b: nat): nat {
    if a <= b then a else b
  }

  /** The bytes from the position on. */
  function Remaining(s: Stream): seq<byte> {
    s.data[Min(s.position, |s.data|)..]
  }

  /** `Read(buffer)` into a fresh array of `n` zero bytes: the available
      bytes, up to `n`, then the zeros that were not overwritten; the
      position moves past the bytes read. */
  function Read(s: Stream, n: nat): (r: (seq<byte>, Stream))
    ensures |r.0| == n
    ensures var k := Min(n, |Remaining(s)|);
      r.0[..k] == Remaining(s)[..k] && (forall i :: k <= i < n ==> r.0[i] == 0) &&
      r.1 == s.(position := s.position + k)
  {
    var k := Min(n, |Remaining(s)|);
    (Remaining(s)[..k] + seq(n - k, _ => 0), s.(position := s.position + k))
  }

  /** `Seek(offset, SeekOrigin.Begin)`. */
  function SeekBegin(s: Stream, offset: nat): (r: Stream)
    ensures r.data == s.data && r.position == offset
  {
    s.(position := offset)
  }

  /** `CanLoad`: false straight away on a stream that cannot seek or read;
      otherwise read `|magic|` bytes into a zeroed buffer, seek back to the
      old position and compare. The stream comes back as it was given. */
  function CanLoad(s: Stream, magic: seq<byte>): (r: (bool, Stream))
    requires NoZero(magic)
    ensures r.1 == s
    ensures r.0 <==> s.canSeek && s.canRead && StartsWith(Remaining(s), magic)
  {
    if !s.canSeek || !s.canRead then (false, s)
    else
      var oldPos := s.position;
      var (tileMagic, after) := Read(s, |magic|);
      var restored := SeekBegin(after, oldPos);
      assert restored == s;
      var k := Min(|magic|, |Remaining(s)|);
      assert k < |magic| ==> tileMagic[k] == 0 && magic[k] != 0;
      (magic == tileMagic, restored)
  }

  function CanLoadDds(s: Stream): (r: (bool, Stream))
    ensures r.1 == s
    ensures r.0 <==> s.canSeek && s.canRead && StartsWith(Remaining(s), [0x44, 0x44, 0x53, 0x20])
  {
    SignaturesDistinct([]);
    CanLoad(s, DdsMagic)
  }

  function CanLoadPng(s: Stream): (r: (bool, Stream))
    ensures r.1 == s
    ensures r.0 <==> s.canSeek && s.canRead && StartsWith(Remaining(s), [0x89, 0x50, 0x4E, 0x47, 0x0D, 0x0A, 0x1A, 0x0A])
  {
    SignaturesDistinct([]);
    CanLoad(s, PngSignature)
  }

  /** A stream with fewer bytes left than the signature is refused: the
      zeros left in the buffer never match, because neither signature holds
      a zero byte. */
  lemma ShortStreamRefused(s: Stream)
    ensures |Remaining(s)| < 4 ==> !CanLoadDds(s).0
    ensures |Remaining(s)| < 8 ==> !CanLoadPng(s).0
  {
  }

  /** At most one of the two sniffers accepts any stream. */
  lemma AtMostOneFormat(s: Stream)
    ensures !(CanLoadDds(s).0 && CanLoadPng(s).0)
  {
    SignaturesDistinct(Remaining(s));
  }
}

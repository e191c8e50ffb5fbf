/** Bytes and the two file signatures the loaders sniff for. */
module Magic {

  type byte = b: int | 0 <= b < 256

  /** `DDS_MAGIC_ID`: "DDS " in ASCII. */
  const DdsMagic: seq<byte> := [0x44, 0x44, 0x53, 0x20]

  /** `PNG_MAGIC_ID`: the eight-byte PNG signature of section 5.2 of the
      PNG specification (ISO/IEC 15948). */
  const PngSignature: seq<byte> := [0x89, 0x50, 0x4E, 0x47, 0x0D, 0x0A, 0x1A, 0x0A]

  predicate StartsWith(data: seq<byte>, magic: seq<byte>) {
    |magic| <= |data| && data[..|magic|] == magic
  }

  predicate NoZero(magic: seq<byte>) {
    forall i :: 0 <= i < |magic| ==> magic[i] != 0
  }

  /** Neither signature holds a zero byte, and no data starts with both. */
  lemma SignaturesDistinct(data: seq<byte>)
    ensures NoZero(DdsMagic) && NoZero(PngSignature)
    ensures !(StartsWith(data, DdsMagic) && StartsWith(data, PngSignature))
  {
    assert StartsWith(data, DdsMagic) ==> data[0] == 0x44;
    assert StartsWith(data, PngSignature) ==> data[0] == 0x89;
  }
}

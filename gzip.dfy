/** The two-byte gzip magic test both readers run on the first bytes of their input file. */
module Gzip {

  newtype Byte = b: int | 0 <= b < 256

  /** ID1 and ID2 of a gzip member header (section 2.3.1 of RFC 1952). */
  const Id1: Byte := 0x1F
  const Id2: Byte := 0x8B

  /** The file is read through the gzip stream exactly when it starts with the gzip magic. */
  function IsCompressedFile(head: seq<Byte>): (r: bool)
    requires |head| >= 2
    ensures r <==> head[..2] == [Id1, Id2]
  {
    head[0] == Id1 && head[1] == Id2
  }

  /** A text file, which starts with a printable character such as '#', is read as plain text. */
  lemma PrintableStartIsPlain(head: seq<Byte>)
    requires |head| >= 2 && 0x20 <= head[0] < 0x7F
    ensures !IsCompressedFile(head)
  {
  }
}

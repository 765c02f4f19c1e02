/** The container of a Standard MIDI File: chunks, each an identifier, a length and a body. */
module Chunks {
  import opened Bytes

  const MTHD: seq<Byte> := [0x4D, 0x54, 0x68, 0x64]
  const MTRK: seq<Byte> := [0x4D, 0x54, 0x72, 0x6B]

  function Chunk(id: seq<Byte>, body: seq<Byte>): seq<Byte> {
    id + Be32(|body|) + body
  }

  /** `write_mthd_header`. */
  function Header(format: nat, tracks: nat, ppqn: nat): (r: seq<Byte>)
    ensures |r| == 14
  {
    Chunk(MTHD, Be16(format) + Be16(tracks) + Be16(ppqn))
  }

  /** Conversion to a 32-bit `int`. */
  function Int32(x: int): int {
    (x + 0x8000_0000) % 0x1_0000_0000 - 0x8000_0000
  }

  /** The number of 32 bits, with sign, that differs by a multiple of 2^32. */
  lemma Int32Means(x: int)
    ensures -0x8000_0000 <= Int32(x) < 0x8000_0000 && (x - Int32(x)) % 0x1_0000_0000 == 0
  {
  }

  lemma Int32Small(x: nat)
    requires x < 0x8000_0000
    ensures Int32(x) == x
  {
  }

  lemma Be16Low(v: nat)
    ensures Be16(v) == Be16(v % 0x1_0000) && FromBe16(Be16(v)) == v % 0x1_0000
    ensures Be16(v)[0] >= 128 <==> v % 0x1_0000 >= 0x8000
  {
    Be16Inverse(v % 0x1_0000);
    assert v % 0x1_0000 % 256 == v % 256;
    assert v / 256 % 256 == v % 0x1_0000 / 256;
  }
}

/** Bytes and fixed-width big-endian integers, as they appear in a Standard MIDI File. */
module Bytes {
  type Byte = b: int | 0 <= b < 256

  datatype Option<+T> = None | Some(value: T)

  /** The two bytes `htons` leaves in memory; the argument is truncated to 16 bits. */
  function Be16(v: nat): (r: seq<Byte>)
    ensures |r| == 2
  {
    [v / 256 % 256, v % 256]
  }

  /** The four bytes `htonl` leaves in memory; the argument is truncated to 32 bits. */
  function Be32(v: nat): (r: seq<Byte>)
    ensures |r| == 4
  {
    Be16(v / 0x1_0000) + Be16(v)
  }

  function FromBe16(s: seq<Byte>): nat
    requires |s| == 2
  {
    (s[0] as int) * 256 + s[1]
  }

  function FromBe32(s: seq<Byte>): nat
    requires |s| == 4
  {
    FromBe16(s[..2]) * 0x1_0000 + FromBe16(s[2..])
  }

  /** The most significant byte comes first. */
  lemma BigEndian(a: Byte, b: Byte, c: Byte, d: Byte)
    ensures FromBe16([a, b]) == a as int * 256 + b
    ensures FromBe32([a, b, c, d]) == a as int * 0x100_0000 + b as int * 0x1_0000 + c as int * 256 + d
  {
  }

  lemma Be16Inverse(v: nat)
    requires v < 0x1_0000
    ensures FromBe16(Be16(v)) == v
  {
    assert v / 256 < 256;
  }

  lemma Be32Inverse(v: nat)
    requires v < 0x1_0000_0000
    ensures FromBe32(Be32(v)) == v
  {
    var hi, lo := v / 0x1_0000, v % 0x1_0000;
    assert v == hi * 0x1_0000 + lo;
    Be16Inverse(hi);
    assert FromBe16(Be16(v)) == lo by {
      assert v % 256 == lo % 256;
      assert v / 256 % 256 == lo / 256;
    }
    assert Be32(v)[..2] == Be16(hi) && Be32(v)[2..] == Be16(v);
  }
}

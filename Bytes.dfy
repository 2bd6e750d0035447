/** Fixed-width unsigned integers and the big-endian field readers that the
    resource-block walker uses (readBE16 / readBE32 are not part of this model;
    they are defined here as plain big-endian decoding). */
module Bytes {

  type Byte = b: int | 0 <= b < 0x100
  type U16 = x: int | 0 <= x < 0x1_0000
  type U32 = x: int | 0 <= x < 0x1_0000_0000

  /** Big-endian 16-bit value stored at s[pos], s[pos + 1]. */
  function ReadBE16(s: seq<Byte>, pos: nat): U16
    requires pos + 2 <= |s|
  {
    (s[pos] as int) * 0x100 + s[pos + 1] as int
  }

  /** Big-endian 32-bit value stored at s[pos .. pos + 4]. */
  function ReadBE32(s: seq<Byte>, pos: nat): U32
    requires pos + 4 <= |s|
  {
    (((s[pos] as int) * 0x100 + s[pos + 1] as int) * 0x100 + s[pos + 2] as int) * 0x100 + s[pos + 3] as int
  }

  /** The two bytes a writer stores for a 16-bit field, most significant first. */
  function EncodeBE16(v: U16): (s: seq<Byte>)
    ensures |s| == 2
  {
    [v / 0x100, v % 0x100]
  }

  /** The four bytes a writer stores for a 32-bit field, most significant first. */
  function EncodeBE32(v: U32): (s: seq<Byte>)
    ensures |s| == 4
  {
    [v / 0x100_0000, (v / 0x1_0000) % 0x100, (v / 0x100) % 0x100, v % 0x100]
  }

  /** Decoding what was encoded gives the value back. */
  lemma ReadEncodeBE16(v: U16)
    ensures ReadBE16(EncodeBE16(v), 0) == v
  {
  }

  /** Decoding what was encoded gives the value back. */
  lemma ReadEncodeBE32(v: U32)
    ensures ReadBE32(EncodeBE32(v), 0) == v
  {
    var s := EncodeBE32(v);
    assert (s[0] as int) * 0x100 + s[1] as int == v / 0x1_0000;
    assert (v / 0x1_0000) * 0x100 + s[2] as int == v / 0x100;
  }

  /** Any four stored bytes are exactly the encoding of the value read from them:
      the reader loses nothing and looks at no other byte. */
  lemma EncodeReadBE32(s: seq<Byte>, pos: nat)
    requires pos + 4 <= |s|
    ensures EncodeBE32(ReadBE32(s, pos)) == s[pos .. pos + 4]
  {
    var v := ReadBE32(s, pos);
    var a, b, c, d := s[pos] as int, s[pos + 1] as int, s[pos + 2] as int, s[pos + 3] as int;
    assert v == a * 0x100_0000 + b * 0x1_0000 + c * 0x100 + d;
    assert v / 0x100_0000 == a;
    assert v / 0x1_0000 == a * 0x100 + b;
    assert v / 0x100 == (a * 0x100 + b) * 0x100 + c;
  }

  /** Any two stored bytes are exactly the encoding of the value read from them. */
  lemma EncodeReadBE16(s: seq<Byte>, pos: nat)
    requires pos + 2 <= |s|
    ensures EncodeBE16(ReadBE16(s, pos)) == s[pos .. pos + 2]
  {
  }

  /** The 16-bit reader looks only at its two bytes. */
  lemma ReadSliceBE16(s: seq<Byte>, pos: nat, t: seq<Byte>)
    requires pos + 2 <= |s| && s[pos .. pos + 2] == t
    ensures ReadBE16(s, pos) == ReadBE16(t, 0)
  {
    assert s[pos] == t[0] && s[pos + 1] == t[1];
  }

  /** The 32-bit reader looks only at its four bytes. */
  lemma ReadSliceBE32(s: seq<Byte>, pos: nat, t: seq<Byte>)
    requires pos + 4 <= |s| && s[pos .. pos + 4] == t
    ensures ReadBE32(s, pos) == ReadBE32(t, 0)
  {
    assert s[pos] == t[0] && s[pos + 1] == t[1] && s[pos + 2] == t[2] && s[pos + 3] == t[3];
  }
}

/** Octets and the little-endian unsigned integers the WAD format stores. */
module Bytes {

  /** One octet of the archive. */
  type byte = b: int | 0 <= b < 256

  /** 256 to the power n: the number of values an n-byte field can hold. */
  function Pow256(n: nat): (r: nat)
    ensures r >= 1
  {
    if n == 0 then 1 else 256 * Pow256(n - 1)
  }

  /** The unsigned value of s read little-endian: s[0] is the least significant byte. */
  function LittleEndian(s: seq<byte>): (v: nat)
    ensures v < Pow256(|s|)
  {
    if s == [] then 0 else s[0] + 256 * LittleEndian(s[1..])
  }

  /** The width low-order bytes of v, least significant first. */
  function ToLittleEndian(v: nat, width: nat): (s: seq<byte>)
    ensures |s| == width
  {
    if width == 0 then [] else [v % 256] + ToLittleEndian(v / 256, width - 1)
  }

  /** Reading back an encoded value gives the value, whenever it fits the width. */
  lemma {:induction false} DecodeEncode(v: nat, width: nat)
    requires v < Pow256(width)
    ensures LittleEndian(ToLittleEndian(v, width)) == v
  {
    if width > 0 {
      var s := ToLittleEndian(v, width);
      assert s[1..] == ToLittleEndian(v / 256, width - 1);
      DecodeEncode(v / 256, width - 1);
    }
  }

  /** Encoding a decoded field gives back the same bytes: the codec is a bijection on width-byte fields. */
  lemma {:induction false} EncodeDecode(s: seq<byte>)
    ensures ToLittleEndian(LittleEndian(s), |s|) == s
  {
    if s != [] {
      var v := LittleEndian(s);
      assert v % 256 == s[0] && v / 256 == LittleEndian(s[1..]);
      EncodeDecode(s[1..]);
    }
  }

  /** The capacities of the 4-byte and 8-byte fields. */
  lemma {:induction false} FieldCapacities()
    ensures Pow256(4) == 0x1_0000_0000 && Pow256(8) == 0x1_0000_0000_0000_0000
  {
  }
}

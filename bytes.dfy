/** Byte-level integer codecs used by the two audio stitchers: Python's
    `int.from_bytes(..., byteorder='big')` over a byte string of any length,
    and `int.to_bytes(4, byteorder='little')` with the OverflowError it
    raises for values that do not fit in four unsigned bytes. */
module Bytes {
  import opened Errors

  /** One element of a Python `bytes` value. */
  type byte = x: int | 0 <= x < 256

  const TWO_POW_32: nat := 0x1_0000_0000

  function Pow256(k: nat): (r: nat)
    ensures r >= 1
  {
    if k == 0 then 1 else 256 * Pow256(k - 1)
  }

  /** `int.from_bytes(s, byteorder='big')`: the first byte is the most
      significant; an empty byte string reads as 0. */
  function BigEndian(s: seq<byte>): (r: nat)
    ensures r < Pow256(|s|)
  {
    if s == [] then 0
    else
      var high := BigEndian(s[..|s| - 1]);
      assert high + 1 <= Pow256(|s| - 1);
      assert high * 256 + 256 <= Pow256(|s| - 1) * 256;
      high * 256 + s[|s| - 1]
  }

  /** Four bytes read big-endian weigh 2^24, 2^16, 2^8 and 1. */
  lemma BigEndianFour(s: seq<byte>)
    requires |s| == 4
    ensures BigEndian(s) == 0x100_0000 * (s[0] as int) + 0x1_0000 * (s[1] as int) + 0x100 * (s[2] as int) + s[3] as int
  {
    assert s[..3][..2] == s[..2];
    assert s[..2][..1] == s[..1];
    assert s[..1][..0] == [];
    assert BigEndian(s[..1]) == s[0] as int;
    assert BigEndian(s[..2]) == 0x100 * (s[0] as int) + s[1] as int;
    assert BigEndian(s[..3]) == 0x1_0000 * (s[0] as int) + 0x100 * (s[1] as int) + s[2] as int;
  }

  /** Two bytes read big-endian. */
  lemma BigEndianTwo(s: seq<byte>)
    requires |s| == 2
    ensures BigEndian(s) == 0x100 * (s[0] as int) + s[1] as int
  {
    assert s[..1][..0] == [];
  }

  /** Reads a byte string least significant byte first. */
  function LittleEndian(s: seq<byte>): (r: nat)
    ensures r < Pow256(|s|)
  {
    if s == [] then 0
    else
      var high := LittleEndian(s[1..]);
      assert high + 1 <= Pow256(|s| - 1);
      assert 256 * high + 256 <= 256 * Pow256(|s| - 1);
      s[0] as int + 256 * high
  }

  /** The four bytes of `v`, least significant first. */
  function LittleEndian4(v: nat): (r: seq<byte>)
    requires v < TWO_POW_32
    ensures |r| == 4
  {
    [v % 0x100, v / 0x100 % 0x100, v / 0x1_0000 % 0x100, v / 0x100_0000]
  }

  lemma LittleEndianFour(s: seq<byte>)
    requires |s| == 4
    ensures LittleEndian(s) == s[0] as int + 0x100 * (s[1] as int) + 0x1_0000 * (s[2] as int) + 0x100_0000 * (s[3] as int)
  {
    assert s[1..][1..] == s[2..];
    assert s[2..][1..] == s[3..];
    assert s[3..][1..] == [];
    assert LittleEndian(s[3..]) == s[3] as int;
    assert LittleEndian(s[2..]) == s[2] as int + 0x100 * (s[3] as int);
    assert LittleEndian(s[1..]) == s[1] as int + 0x100 * (s[2] as int) + 0x1_0000 * (s[3] as int);
  }

  /** Splitting a number into its low byte and the rest. */
  lemma DivModByte(low: int, high: int)
    requires 0 <= low < 0x100 && 0 <= high
    ensures (low + 0x100 * high) / 0x100 == high
    ensures (low + 0x100 * high) % 0x100 == low
  {
  }

  /** Encoding a 32-bit value and reading it back gives the value. */
  lemma LittleEndianRoundTrip(v: nat)
    requires v < TWO_POW_32
    ensures LittleEndian(LittleEndian4(v)) == v
  {
    var s := LittleEndian4(v);
    LittleEndianFour(s);
    var q1, q2, q3 := v / 0x100, v / 0x1_0000, v / 0x100_0000;
    assert v == v % 0x100 + 0x100 * q1;
    assert q1 == q1 % 0x100 + 0x100 * (q1 / 0x100);
    assert q1 / 0x100 == q2;
    assert q2 == q2 % 0x100 + 0x100 * (q2 / 0x100);
    assert q2 / 0x100 == q3;
  }

  /** Every four bytes are the encoding of the value they read as. */
  lemma LittleEndianDecodeEncode(s: seq<byte>)
    requires |s| == 4
    ensures LittleEndian(s) < TWO_POW_32
    ensures LittleEndian4(LittleEndian(s)) == s
  {
    LittleEndianFour(s);
    var v := LittleEndian(s);
    var v1 := s[1] as int + 0x100 * (s[2] as int) + 0x1_0000 * (s[3] as int);
    var v2 := s[2] as int + 0x100 * (s[3] as int);
    assert v == s[0] as int + 0x100 * v1;
    assert v1 == s[1] as int + 0x100 * v2;
    DivModByte(s[0], v1);
    DivModByte(s[1], v2);
    DivModByte(s[2], s[3]);
    assert v / 0x100 == v1;
    assert v / 0x1_0000 == v1 / 0x100;
    assert v / 0x100_0000 == v2 / 0x100;
  }

  /** `v.to_bytes(4, byteorder='little')`, which raises OverflowError for a
      negative value or one of 2^32 and above. */
  function ToBytes4Little(v: int): (r: Result<seq<byte>>)
    ensures r.Ok? <==> 0 <= v < TWO_POW_32
    ensures r.Ok? ==> |r.value| == 4 && LittleEndian(r.value) == v
    ensures r.Err? ==> r.error == OverflowError
  {
    if 0 <= v < TWO_POW_32 then
      LittleEndianRoundTrip(v);
      Ok(LittleEndian4(v))
    else
      Err(OverflowError)
  }
}

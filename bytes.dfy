/** Byte strings as the store holds them, and the `{:02X}` hex rendering the
    shell uses for values that are not text. */
module Bytes {

  newtype byte = x: int | 0 <= x < 256

  type Bytes = seq<byte>

  /** One digit of `format!("{:X}", d)`. */
  function HexDigit(d: int): (c: char)
    requires 0 <= d < 16
    ensures ('0' <= c <= '9') || ('A' <= c <= 'F')
  {
    if d < 10 then ('0' as int + d) as char else ('A' as int + d - 10) as char
  }

  function HexValue(c: char): int {
    if '0' <= c <= '9' then c as int - '0' as int
    else if 'A' <= c <= 'F' then c as int - 'A' as int + 10
    else 0
  }

  /** `format!("{:02X}", b)`: exactly two upper-case hex digits. */
  function Hex2(b: byte): (r: string)
    ensures |r| == 2
  {
    [HexDigit(b as int / 16), HexDigit(b as int % 16)]
  }

  /** The two digits read back as the byte. */
  lemma Hex2Value(b: byte)
    ensures HexValue(Hex2(b)[0]) * 16 + HexValue(Hex2(b)[1]) == b as int
  {
  }

  /** The bytes' `{:02X}` renderings joined by single spaces. */
  function HexDump(bs: Bytes): (r: string)
    ensures bs == [] <==> r == []
    ensures bs != [] ==> |r| == 3 * |bs| - 1
  {
    if bs == [] then []
    else if |bs| == 1 then Hex2(bs[0])
    else Hex2(bs[0]) + " " + HexDump(bs[1..])
  }

  /** Reading a hex dump back: two digits per byte, one separator between bytes. */
  function UnHexDump(s: string): Bytes
    decreases |s|
  {
    if |s| < 2 then []
    else
      var b := HexValue(s[0]) * 16 + HexValue(s[1]);
      [if 0 <= b < 256 then b as byte else 0]
      + (if |s| >= 3 then UnHexDump(s[3..]) else [])
  }

  /** The hex dump loses nothing: reading it back gives the bytes. */
  lemma {:induction false} UnHexDumpRoundTrip(bs: Bytes)
    ensures UnHexDump(HexDump(bs)) == bs
  {
    if bs != [] {
      Hex2Value(bs[0]);
      if |bs| > 1 {
        UnHexDumpRoundTrip(bs[1..]);
        var d := HexDump(bs);
        assert d[3..] == HexDump(bs[1..]);
      }
    }
  }

  /** Layout of the dump: byte `i` occupies characters `3i` and `3i+1`, and a
      single space follows every byte but the last. */
  lemma {:induction false} HexDumpAt(bs: Bytes, i: nat)
    requires i < |bs|
    ensures 3 * i + 2 <= |HexDump(bs)|
    ensures HexDump(bs)[3 * i..3 * i + 2] == Hex2(bs[i])
    ensures i + 1 < |bs| ==> HexDump(bs)[3 * i + 2] == ' '
  {
    if i > 0 {
      HexDumpAt(bs[1..], i - 1);
      var d := HexDump(bs);
      assert d[3..] == HexDump(bs[1..]);
      assert d[3 * i..3 * i + 2] == d[3..][3 * (i - 1)..3 * (i - 1) + 2];
    }
  }
}

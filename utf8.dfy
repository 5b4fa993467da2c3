/** UTF-8, as Rust's `str::as_bytes` produces it and `String::from_utf8`
    accepts it: the shell and the server hand keys and values to the store as
    the UTF-8 bytes of their text, and show a stored value as text only when
    its bytes are well-formed UTF-8. */
module Utf8 {
  import opened Wrappers
  import opened Bytes

  predicate IsCont(b: byte) {
    0x80 <= b < 0xC0
  }

  /** The one to four bytes of a scalar value (Unicode Table 3-6). */
  function EncodeChar(c: char): (r: Bytes)
    ensures 1 <= |r| <= 4
  {
    var n := c as int;
    var q1 := n / 64;
    var q2 := q1 / 64;
    var q3 := q2 / 64;
    if n < 0x80 then [n as byte]
    else if n < 0x800 then [(0xC0 + q1) as byte, (0x80 + n % 64) as byte]
    else if n < 0x10000 then [(0xE0 + q2) as byte, (0x80 + q1 % 64) as byte, (0x80 + n % 64) as byte]
    else [(0xF0 + q3) as byte, (0x80 + q2 % 64) as byte, (0x80 + q1 % 64) as byte, (0x80 + n % 64) as byte]
  }

  /** `str::as_bytes`. */
  function Encode(s: string): Bytes {
    if s == [] then [] else EncodeChar(s[0]) + Encode(s[1..])
  }

  /** Decodes the first scalar value and says how many bytes it took, accepting
      only the well-formed sequences of Unicode Table 3-7: no overlong forms, no
      surrogates, nothing above U+10FFFF, no truncated sequence. */
  function DecodeFirst(b: Bytes): Option<(char, nat)>
    requires b != []
  {
    var b0 := b[0] as int;
    if b0 < 0x80 then Some((b0 as char, 1))
    else if 0xC2 <= b0 <= 0xDF then
      if |b| >= 2 && IsCont(b[1]) then
        Some((((b0 - 0xC0) * 64 + (b[1] as int - 0x80)) as char, 2))
      else None
    else if 0xE0 <= b0 <= 0xEF then
      var lo := if b0 == 0xE0 then 0xA0 else 0x80;
      var hi := if b0 == 0xED then 0x9F else 0xBF;
      if |b| >= 3 && lo <= b[1] as int <= hi && IsCont(b[2]) then
        Some((((b0 - 0xE0) * 4096 + (b[1] as int - 0x80) * 64 + (b[2] as int - 0x80)) as char, 3))
      else None
    else if 0xF0 <= b0 <= 0xF4 then
      var lo := if b0 == 0xF0 then 0x90 else 0x80;
      var hi := if b0 == 0xF4 then 0x8F else 0xBF;
      if |b| >= 4 && lo <= b[1] as int <= hi && IsCont(b[2]) && IsCont(b[3]) then
        Some((((b0 - 0xF0) * 262144 + (b[1] as int - 0x80) * 4096
               + (b[2] as int - 0x80) * 64 + (b[3] as int - 0x80)) as char, 4))
      else None
    else None
  }

  /** `String::from_utf8`: the text, or `None` when the bytes are not well-formed. */
  function Decode(b: Bytes): Option<string>
    decreases |b|
  {
    if b == [] then Some([])
    else match DecodeFirst(b)
      case None => None
      case Some((c, n)) =>
        if 0 < n <= |b| then
          match Decode(b[n..])
          case None => None
          case Some(rest) => Some([c] + rest)
        else None
  }

  lemma DivMod64(v: int, x: int, y: int)
    requires x >= 0 && 0 <= y < 64 && v == 64 * x + y
    ensures v / 64 == x && v % 64 == y
  {
  }

  /** Decoding the encoding of one character gives it back, whatever follows. */
  lemma DecodeFirstEncodeChar(c: char, rest: Bytes)
    ensures DecodeFirst(EncodeChar(c) + rest) == Some((c, |EncodeChar(c)|))
  {
    var n := c as int;
    if n < 0x80 {
      assert (EncodeChar(c) + rest)[0] == n as byte;
    } else if n < 0x800 {
      DecodeFirstTwo(c, rest);
    } else if n < 0x10000 {
      DecodeFirstThree(c, rest);
    } else {
      DecodeFirstFour(c, rest);
    }
  }

  lemma DecodeFirstTwo(c: char, rest: Bytes)
    requires 0x80 <= c as int < 0x800
    ensures DecodeFirst(EncodeChar(c) + rest) == Some((c, 2))
  {
    var n := c as int;
    var q1 := n / 64;
    assert n == 64 * q1 + n % 64;
    var b := EncodeChar(c) + rest;
    assert b[0] as int == 0xC0 + q1 && b[1] as int == 0x80 + n % 64;
  }

  lemma DecodeFirstThree(c: char, rest: Bytes)
    requires 0x800 <= c as int < 0x10000
    ensures DecodeFirst(EncodeChar(c) + rest) == Some((c, 3))
  {
    var n := c as int;
    var q1 := n / 64;
    var q2 := q1 / 64;
    assert n == 64 * q1 + n % 64;
    assert q1 == 64 * q2 + q1 % 64;
    var b := EncodeChar(c) + rest;
    assert b[0] as int == 0xE0 + q2 && b[1] as int == 0x80 + q1 % 64 && b[2] as int == 0x80 + n % 64;
  }

  lemma DecodeFirstFour(c: char, rest: Bytes)
    requires 0x10000 <= c as int
    ensures DecodeFirst(EncodeChar(c) + rest) == Some((c, 4))
  {
    var n := c as int;
    var q1 := n / 64;
    var q2 := q1 / 64;
    var q3 := q2 / 64;
    assert n == 64 * q1 + n % 64;
    assert q1 == 64 * q2 + q1 % 64;
    assert q2 == 64 * q3 + q2 % 64;
    var b := EncodeChar(c) + rest;
    assert b[0] as int == 0xF0 + q3 && b[1] as int == 0x80 + q2 % 64
        && b[2] as int == 0x80 + q1 % 64 && b[3] as int == 0x80 + n % 64;
  }

  /** What `DecodeFirst` accepts is exactly the encoding of what it returns. */
  lemma DecodeFirstSound(b: Bytes)
    requires b != [] && DecodeFirst(b).Some?
    ensures var (c, n) := DecodeFirst(b).value;
      n <= |b| && b[..n] == EncodeChar(c)
  {
    var (c, n) := DecodeFirst(b).value;
    var v := c as int;
    var b0 := b[0] as int;
    if n == 2 {
      DivMod64(v, b0 - 0xC0, b[1] as int - 0x80);
    } else if n == 3 {
      var x := (b0 - 0xE0) * 64 + (b[1] as int - 0x80);
      DivMod64(v, x, b[2] as int - 0x80);
      DivMod64(x, b0 - 0xE0, b[1] as int - 0x80);
    } else if n == 4 {
      var y := (b0 - 0xF0) * 64 + (b[1] as int - 0x80);
      var x := y * 64 + (b[2] as int - 0x80);
      DivMod64(v, x, b[3] as int - 0x80);
      DivMod64(x, y, b[2] as int - 0x80);
      DivMod64(y, b0 - 0xF0, b[1] as int - 0x80);
    }
  }

  /** Well-formed bytes decode to a text exactly when that text encodes to
      them: `from_utf8` inverts `as_bytes`, in both directions. */
  lemma {:induction false} DecodeIffEncode(b: Bytes, s: string)
    ensures Decode(b) == Some(s) <==> Encode(s) == b
    decreases |b|
  {
    if Encode(s) == b {
      DecodeEncode(s);
    }
    if Decode(b) == Some(s) {
      DecodeSound(b);
    }
  }

  lemma {:induction false} DecodeEncode(s: string)
    ensures Decode(Encode(s)) == Some(s)
  {
    if s != [] {
      var e := EncodeChar(s[0]);
      var tail := Encode(s[1..]);
      assert Encode(s) == e + tail;
      DecodeFirstEncodeChar(s[0], tail);
      DecodeEncode(s[1..]);
      assert (e + tail)[|e|..] == tail;
      assert [s[0]] + s[1..] == s;
    }
  }

  lemma EncodeCons(c: char, t: string)
    ensures Encode([c] + t) == EncodeChar(c) + Encode(t)
  {
    assert ([c] + t)[1..] == t;
  }

  /** One step of `Decode`: the first character, then the rest. */
  lemma DecodeStep(b: Bytes)
    requires b != [] && Decode(b).Some?
    ensures DecodeFirst(b).Some?
    ensures var (c, n) := DecodeFirst(b).value;
      0 < n <= |b| && Decode(b[n..]).Some? && Decode(b).value == [c] + Decode(b[n..]).value
  {
  }

  lemma {:induction false} DecodeSound(b: Bytes)
    requires Decode(b).Some?
    ensures Encode(Decode(b).value) == b
    decreases |b|
  {
    if b != [] {
      DecodeStep(b);
      var first := DecodeFirst(b).value;
      var c, n := first.0, first.1;
      DecodeFirstSound(b);
      var rest := Decode(b[n..]).value;
      DecodeSound(b[n..]);
      EncodeCons(c, rest);
      assert b == b[..n] + b[n..];
    }
  }
}

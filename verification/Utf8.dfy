/** Runes are characters: the cutting of text into runes agrees with the encoding of Unicode
    scalar values in section 3 of RFC 3629. */
module Utf8 {
  import opened Bytes

  predicate Scalar(c: int) {
    0 <= c < 0xD800 || 0xE000 <= c < 0x11_0000
  }

  /** The encoding of a scalar value. */
  function Encoded(c: int): (r: seq<byte>)
    requires Scalar(c)
    ensures 1 <= |r| <= 4
  {
    if c < 0x80 then [c]
    else if c < 0x800 then [0xC0 + c / 64, 0x80 + c % 64]
    else if c < 0x1_0000 then [0xE0 + c / 64 / 64, 0x80 + c / 64 % 64, 0x80 + c % 64]
    else [0xF0 + c / 64 / 64 / 64, 0x80 + c / 64 / 64 % 64, 0x80 + c / 64 % 64, 0x80 + c % 64]
  }

  predicate Starts(s: seq<byte>, c: int) {
    Scalar(c) && Encoded(c) <= s
  }

  lemma {:induction false} Digit(x: int, y: int)
    requires 0 <= y < 64
    ensures (x * 64 + y) / 64 == x && (x * 64 + y) % 64 == y
  {
  }

  lemma {:induction false} TwoBytes(s: seq<byte>, x: int, y: int)
    requires |s| >= 2 && s[0] == 0xC0 + x && s[1] == 0x80 + y && 2 <= x < 0x20 && 0 <= y < 64
    ensures Starts(s, x * 64 + y)
  {
    Digit(x, y);
  }

  lemma {:induction false} ThreeBytes(s: seq<byte>, x: int, y: int, z: int)
    requires |s| >= 3 && s[0] == 0xE0 + x && s[1] == 0x80 + y && s[2] == 0x80 + z && 0 <= x < 0x10 && 0 <= y < 64 && 0 <= z < 64
    requires (x == 0 ==> y >= 0x20) && (x == 0xD ==> y < 0x20)
    ensures Starts(s, (x * 64 + y) * 64 + z)
  {
    Digit(x, y);
    Digit(x * 64 + y, z);
  }

  lemma {:induction false} FourBytes(s: seq<byte>, w: int, x: int, y: int, z: int)
    requires |s| >= 4 && s[0] == 0xF0 + w && s[1] == 0x80 + x && s[2] == 0x80 + y && s[3] == 0x80 + z
    requires 0 <= w < 5 && 0 <= x < 64 && 0 <= y < 64 && 0 <= z < 64 && (w == 0 ==> x >= 0x10) && (w == 4 ==> x < 0x10)
    ensures Starts(s, ((w * 64 + x) * 64 + y) * 64 + z)
  {
    Digit(w, x);
    Digit(w * 64 + x, y);
    Digit((w * 64 + x) * 64 + y, z);
  }

  /** What an encoding looks like. */
  lemma {:induction false} EncodedShape(c: int)
    requires Scalar(c)
    ensures var r := Encoded(c); RuneSize(r) == |r| && (|r| == 1 ==> r[0] < 0x80)
  {
    var q := c / 64;
    var p := q / 64;
    assert c == q * 64 + c % 64 && q == p * 64 + q % 64 && p == p / 64 * 64 + p % 64;
  }

  lemma {:induction false} RuneSizeOn(s: seq<byte>, t: seq<byte>)
    requires s != [] && s <= t && (RuneSize(s) > 1 || s[0] < 0x80)
    ensures RuneSize(t) == RuneSize(s)
  {
  }

  /** At the front of any text the first rune is the character that is encoded there; if none
      is, it is a single byte. */
  lemma {:induction false} RuneIsCharacter(s: seq<byte>)
    requires s != []
    ensures forall c | Starts(s, c) :: RuneSize(s) == |Encoded(c)|
    ensures (exists c :: Starts(s, c)) || (RuneSize(s) == 1 && s[0] >= 0x80)
  {
    forall c | Starts(s, c) ensures RuneSize(s) == |Encoded(c)| {
      EncodedShape(c);
      hide RuneSize, Encoded;
      RuneSizeOn(Encoded(c), s);
    }
    if RuneSize(s) > 1 {
      SomeCharacter(s);
    } else if s[0] < 0x80 {
      assert Encoded(s[0]) == s[..1];
      assert Starts(s, s[0]);
    }
  }

  lemma {:induction false} SomeCharacter(s: seq<byte>)
    requires s != [] && RuneSize(s) > 1
    ensures exists c :: Starts(s, c)
  {
    hide Encoded;
    var b0: int, b1: int := s[0], s[1];
    if RuneSize(s) == 2 {
      TwoBytes(s, b0 - 0xC0, b1 - 0x80);
    } else if RuneSize(s) == 3 {
      var b2: int := s[2];
      ThreeBytes(s, b0 - 0xE0, b1 - 0x80, b2 - 0x80);
    } else {
      var b2: int, b3: int := s[2], s[3];
      FourBytes(s, b0 - 0xF0, b1 - 0x80, b2 - 0x80, b3 - 0x80);
    }
  }

  function Text(cs: seq<int>): GoString
    requires forall i | 0 <= i < |cs| :: Scalar(cs[i])
  {
    if cs == [] then [] else Encoded(cs[0]) + Text(cs[1..])
  }

  /** The length that is written for a text is its number of characters. */
  lemma {:induction false} RunesCounted(cs: seq<int>)
    requires forall i | 0 <= i < |cs| :: Scalar(cs[i])
    ensures RuneCount(Text(cs)) == |cs|
    decreases |cs|
  {
    if cs != [] {
      hide RuneSize, Encoded;
      var s := Text(cs);
      assert Starts(s, cs[0]);
      RuneIsCharacter(s);
      assert s[RuneSize(s)..] == Text(cs[1..]);
      RunesCounted(cs[1..]);
    }
  }
}

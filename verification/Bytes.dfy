/** Bytes, Go strings (which are byte sequences), fixed-width integers, and
    UTF-8 rune segmentation as Go's unicode/utf8 performs it. */
module Bytes {

  type byte = b: int | 0 <= b < 256

  // A Go string is an arbitrary byte sequence; nothing forces valid UTF-8.
  type GoString = seq<byte>

  const TWO_15: int := 0x8000
  const TWO_16: int := 0x1_0000
  const TWO_31: int := 0x8000_0000
  const TWO_32: int := 0x1_0000_0000
  const TWO_63: int := 0x8000_0000_0000_0000
  const TWO_64: int := 0x1_0000_0000_0000_0000

  type int32 = n: int | -0x8000_0000 <= n < 0x8000_0000
  type int64 = n: int | -0x8000_0000_0000_0000 <= n < 0x8000_0000_0000_0000
  type uint64 = n: int | 0 <= n < 0x1_0000_0000_0000_0000

  /** The bytes of an ASCII literal. */
  function Ascii(s: string): (r: GoString)
    requires forall i | 0 <= i < |s| :: s[i] as int < 128
    ensures |r| == |s|
  {
    seq(|s|, i requires 0 <= i < |s| => s[i] as int)
  }

  /** Two's-complement truncation, as Go's int32(x) conversion. */
  function Wrap32(n: int): int32 {
    (n + TWO_31) % TWO_32 - TWO_31
  }

  /** Two's-complement reinterpretation, as Go's int64(x) conversion. */
  function Wrap64(n: int): int64 {
    (n + TWO_63) % TWO_64 - TWO_63
  }

  /** Big-endian bytes of the low 16, 32 and 64 bits of n. */
  function Be16(n: int): (r: seq<byte>)
    ensures |r| == 2
  {
    [n / 256 % 256, n % 256]
  }

  function Be32(n: int): (r: seq<byte>)
    ensures |r| == 4
  {
    var q1 := n / 256;
    var q2 := q1 / 256;
    var q3 := q2 / 256;
    [q3 % 256, q2 % 256, q1 % 256, n % 256]
  }

  function Be64(n: int): (r: seq<byte>)
    ensures |r| == 8
  {
    var q1 := n / 256;
    var q2 := q1 / 256;
    var q3 := q2 / 256;
    Be32(q3 / 256) + [q3 % 256, q2 % 256, q1 % 256, n % 256]
  }

  function FromBe16(b1: byte, b2: byte): (r: nat)
    ensures r < TWO_16
  {
    b1 * 256 + b2
  }

  function FromBe32(b: seq<byte>): (r: nat)
    requires |b| == 4
    ensures r < TWO_32
  {
    var b0: int, b1: int, b2: int := b[0], b[1], b[2];
    b0 * 0x100_0000 + b1 * 0x1_0000 + b2 * 0x100 + b[3]
  }

  function FromBe64(b: seq<byte>): (r: nat)
    requires |b| == 8
    ensures r < TWO_64
  {
    FromBe32(b[..4]) * TWO_32 + FromBe32(b[4..])
  }

  /** Reading a signed 32-bit integer undoes writing any integer, up to truncation. */
  lemma {:induction false} SignedBe32(n: int)
    ensures Wrap32(FromBe32(Be32(n))) == Wrap32(n)
    ensures 0 <= n < TWO_32 ==> FromBe32(Be32(n)) == n
  {
    var q1 := n / 256;
    var q2 := q1 / 256;
    var q3 := q2 / 256;
    var q4 := q3 / 256;
    assert n == q4 * TWO_32 + FromBe32(Be32(n));
    Mod32Shift(FromBe32(Be32(n)), q4);
  }

  lemma {:induction false} Mod32Shift(r: int, q: int)
    ensures Wrap32(q * TWO_32 + r) == Wrap32(r)
  {
    var a := r + TWO_31;
    assert a == (a / TWO_32) * TWO_32 + a % TWO_32;
    assert q * TWO_32 + a == (q + a / TWO_32) * TWO_32 + a % TWO_32;
  }

  /** The same for 64 bits. */
  lemma {:induction false} SignedBe64(n: int)
    ensures Wrap64(FromBe64(Be64(n))) == Wrap64(n)
    ensures 0 <= n < TWO_64 ==> FromBe64(Be64(n)) == n
  {
    var b := Be64(n);
    var q1 := n / 256;
    var q2 := q1 / 256;
    var q3 := q2 / 256;
    var hi := q3 / 256;
    assert b[..4] == Be32(hi);
    assert n == hi * TWO_32 + FromBe32(b[4..]);
    var h1 := hi / 256;
    var h2 := h1 / 256;
    var h3 := h2 / 256;
    var h4 := h3 / 256;
    assert hi == h4 * TWO_32 + FromBe32(b[..4]);
    assert n == h4 * TWO_64 + FromBe64(b);
    Mod64Shift(FromBe64(b), h4);
  }

  lemma {:induction false} Mod64Shift(r: int, q: int)
    ensures Wrap64(q * TWO_64 + r) == Wrap64(r)
  {
    var a := r + TWO_63;
    assert a == (a / TWO_64) * TWO_64 + a % TWO_64;
    assert q * TWO_64 + a == (q + a / TWO_64) * TWO_64 + a % TWO_64;
  }

  /** Writing a signed 32-bit integer undoes reading it. */
  lemma {:induction false} Be32Signed(b: seq<byte>)
    requires |b| == 4
    ensures Be32(Wrap32(FromBe32(b))) == b
  {
    var n: int := FromBe32(b);
    assert Wrap32(n) == n || Wrap32(n) == n - TWO_32;
    Be32Top(n, Wrap32(n), b);
  }

  /** The same for 64 bits. */
  lemma {:induction false} Be64Signed(b: seq<byte>)
    requires |b| == 8
    ensures Be64(Wrap64(FromBe64(b))) == b
  {
    var hi: int, lo: int := FromBe32(b[..4]), FromBe32(b[4..]);
    var w: int := Wrap64(FromBe64(b));
    assert w == hi * TWO_32 + lo || w == (hi - TWO_32) * TWO_32 + lo;
    var top := if w == hi * TWO_32 + lo then hi else hi - TWO_32;
    Be64Halves(top, lo, b[4..]);
    Be32Top(hi, top, b[..4]);
    assert b == b[..4] + b[4..];
  }

  /** Unsigned integers come back as well. */
  lemma {:induction false} Be64Unsigned(b: seq<byte>)
    requires |b| == 8
    ensures Be64(FromBe64(b)) == b
  {
    var hi: int, lo: int := FromBe32(b[..4]), FromBe32(b[4..]);
    Be64Halves(hi, lo, b[4..]);
    Be32Top(hi, hi, b[..4]);
    assert b == b[..4] + b[4..];
  }

  lemma {:induction false} Be32Top(hi: int, top: int, b: seq<byte>)
    requires |b| == 4 && hi == FromBe32(b) && (top == hi || top == hi - TWO_32)
    ensures Be32(top) == b
  {
    var b0: int, b1: int, b2: int := b[0], b[1], b[2];
    assert hi / 256 == b0 * 0x1_0000 + b1 * 0x100 + b2;
    assert hi / 256 / 256 == b0 * 0x100 + b1;
    assert Be32(hi) == b;
    if top == hi - TWO_32 {
      assert top / 256 == hi / 256 - 0x100_0000;
      assert top / 256 / 256 == hi / 256 / 256 - 0x1_0000;
      assert top / 256 / 256 / 256 == hi / 256 / 256 / 256 - 0x100;
    }
  }

  lemma {:induction false} Be64Halves(top: int, lo: int, b: seq<byte>)
    requires |b| == 4 && lo == FromBe32(b)
    ensures Be64(top * TWO_32 + lo) == Be32(top) + b
  {
    var b0: int, b1: int, b2: int := b[0], b[1], b[2];
    var n := top * TWO_32 + lo;
    assert n / 256 == top * 0x100_0000 + b0 * 0x1_0000 + b1 * 0x100 + b2;
    assert n / 256 / 256 == top * 0x1_0000 + b0 * 0x100 + b1;
    assert n / 256 / 256 / 256 == top * 0x100 + b0;
    assert n / 256 / 256 / 256 / 256 == top;
  }

  // ------------------------------------------------------------------
  // UTF-8

  predicate InRange(s: seq<byte>, i: nat, lo: byte, hi: byte) {
    i < |s| && lo <= s[i] <= hi
  }

  /** How many bytes utf8.DecodeRune consumes at the front of s: the length of a
      well-formed encoding, and 1 for anything else. */
  function RuneSize(s: seq<byte>): (n: nat)
    requires s != []
    ensures 1 <= n <= |s| && n <= 4
  {
    var b := s[0];
    if 0xC2 <= b <= 0xDF && InRange(s, 1, 0x80, 0xBF) then 2
    else if 0xE0 <= b <= 0xEF
         && InRange(s, 1, if b == 0xE0 then 0xA0 else 0x80, if b == 0xED then 0x9F else 0xBF)
         && InRange(s, 2, 0x80, 0xBF) then 3
    else if 0xF0 <= b <= 0xF4
         && InRange(s, 1, if b == 0xF0 then 0x90 else 0x80, if b == 0xF4 then 0x8F else 0xBF)
         && InRange(s, 2, 0x80, 0xBF) && InRange(s, 3, 0x80, 0xBF) then 4
    else 1
  }

  /** utf8.RuneCountInString. */
  function RuneCount(s: GoString): (n: nat)
    ensures n <= |s|
    ensures n == 0 <==> s == []
  {
    if s == [] then 0 else 1 + RuneCount(s[RuneSize(s)..])
  }

  /** A position at which a decoder cannot mistake what follows for the rest of a
      rune: the end of the data, or an ASCII byte. */
  predicate Boundary(rest: seq<byte>) {
    rest == [] || rest[0] < 0x80
  }

  /** Segmentation is local: what follows a string does not change how its own
      first rune is cut, even when the string is not valid UTF-8. */
  lemma {:induction false} RuneSizeLocal(s: GoString, rest: seq<byte>)
    requires s != [] && Boundary(rest)
    ensures RuneSize(s + rest) == RuneSize(s)
  {
  }
}

/** The forms a scalar may come in. A peer may choose any of them, while the program's own
    writer only ever uses the long ones. */
module ScalarForms {
  import opened Options
  import opened Bytes
  import opened GoValues
  import opened HessianDecoding
  import opened HessianRoundTrip
  import opened DecoderAnswers

  // ------------------------------------------------------------------
  // Integers

  /** The tag holds the value, beside its zero point. */
  predicate InTag(b: seq<byte>, zero: byte, v: int) {
    0 <= zero + v < 256 && b == [zero + v]
  }

  /** The tag holds what is above the byte behind it. */
  predicate InTagAndByte(b: seq<byte>, zero: byte, v: int) {
    0 <= zero + v / 0x100 < 256 && b == [zero + v / 0x100, v % 0x100]
  }

  /** The tag holds what is above the two bytes behind it. */
  predicate InTagAndTwo(b: seq<byte>, zero: byte, v: int) {
    0 <= zero + v / 0x1_0000 < 256 && b == [zero + v / 0x1_0000, v / 0x100 % 0x100, v % 0x100]
  }

  /** The bytes are one of the forms of the integer v. */
  predicate IntegerBytes(b: seq<byte>, v: int) {
    || (-16 <= v <= 47 && InTag(b, 0x90, v))
    || (-2048 <= v <= 2047 && InTagAndByte(b, 0xc8, v))
    || (-262144 <= v <= 262143 && InTagAndTwo(b, 0xd4, v))
    || (-8 <= v <= 15 && InTag(b, 0xe0, v))
    || (-2048 <= v <= 2047 && InTagAndByte(b, 0xf8, v))
    || (-262144 <= v <= 262143 && InTagAndTwo(b, 0x3c, v))
    || (-TWO_31 <= v < TWO_31 && (b == ['I' as int] + Be32(v) || b == [0x77] + Be32(v)))
    || (-TWO_63 <= v < TWO_63 && b == ['L' as int] + Be64(v))
  }

  predicate IntegerTag(tag: byte) {
    0x80 <= tag || 0x38 <= tag <= 0x3f || tag == 'I' as int || tag == 0x77 || tag == 'L' as int
  }

  /** s with its tag taken. */
  function Tagged(s: DState): DState {
    s.(offset := s.offset + 1)
  }

  /** What is read behind a tag at s is v, and ends n bytes behind s. */
  ghost predicate Reads(r: Option<R<int64>>, s: DState, v: int, n: nat) {
    -TWO_63 <= v < TWO_63 && r == Some(R.Ok(v, s.(offset := s.offset + n)))
  }

  lemma {:induction false} TaggedValid(inp: Input, s: DState)
    requires Valid(inp, s) && s.offset < |inp.data|
    ensures Valid(inp, Tagged(s))
  {
    hide ValidHeap;
  }

  lemma {:induction false} AtTag(inp: Input, s: DState, b: seq<byte>)
    requires Valid(inp, s) && b != [] && At(inp, s.offset, b)
    ensures s.offset + |b| <= |inp.data| && inp.data[s.offset] == b[0] && Valid(inp, Tagged(s))
    ensures forall i | 0 <= i < |b| :: inp.data[s.offset + i] == b[i]
    ensures At(inp, s.offset + 1, b[1..])
  {
    TaggedValid(inp, s);
    hide Valid;
    var d := inp.data[s.offset..s.offset + |b|];
    forall i | 0 <= i < |b| ensures inp.data[s.offset + i] == b[i] { assert d[i] == b[i]; }
    assert inp.data[s.offset + 1..s.offset + 1 + |b[1..]|] == b[1..];
  }

  predicate CompactTag(tag: byte) {
    0x80 <= tag || 0x38 <= tag <= 0x3f
  }

  /** The zero point a compact tag counts from. */
  function Zero(tag: byte): int
    requires CompactTag(tag)
  {
    if tag <= 0x3f then 0x3c else if tag <= 0xbf then 0x90 else if tag <= 0xcf then 0xc8
    else if tag <= 0xd7 then 0xd4 else if tag <= 0xef then 0xe0 else 0xf8
  }

  /** How many bytes follow a compact tag. */
  function Extra(tag: byte): nat
    requires CompactTag(tag)
  {
    if tag <= 0x3f then 2 else if tag <= 0xbf then 0 else if tag <= 0xcf then 1
    else if tag <= 0xd7 then 2 else if tag <= 0xef then 0 else 1
  }

  function CompactValue(b: seq<byte>): int
    requires b != [] && CompactTag(b[0]) && |b| == 1 + Extra(b[0])
  {
    var tag: int := b[0];
    var high := tag - Zero(b[0]);
    if |b| == 1 then high
    else
      var first: int := b[1];
      if |b| == 2 then high * 0x100 + first
      else
        var second: int := b[2];
        high * 0x1_0000 + first * 0x100 + second
  }

  lemma {:induction false} OneBehind(v: int, h: int, x: int)
    requires 0 <= x < 0x100
    ensures v == h * 0x100 + x <==> v / 0x100 == h && v % 0x100 == x
  {
  }

  lemma {:induction false} TwoBehind(v: int, h: int, x: int, y: int)
    requires 0 <= x < 0x100 && 0 <= y < 0x100
    ensures v == h * 0x1_0000 + x * 0x100 + y <==> v / 0x1_0000 == h && v / 0x100 % 0x100 == x && v % 0x100 == y
  {
    OneBehind(v, h * 0x100 + x, y);
    OneBehind(v / 0x100, h, x);
    assert v / 0x1_0000 == v / 0x100 / 0x100;
  }

  /** A compact form says one value, and each value in range has its form. */
  lemma {:induction false} CompactForms(b: seq<byte>, v: int)
    requires b != [] && CompactTag(b[0])
    ensures IntegerBytes(b, v) <==> |b| == 1 + Extra(b[0]) && v == CompactValue(b)
  {
    if |b| == 1 {
      CompactOne(b, v);
    } else if |b| == 2 {
      CompactTwo(b, v);
    } else if |b| == 3 {
      CompactThree(b, v);
    } else {
      CompactLong(b, v);
    }
  }

  lemma {:induction false} CompactOne(b: seq<byte>, v: int)
    requires |b| == 1 && CompactTag(b[0])
    ensures IntegerBytes(b, v) <==> Extra(b[0]) == 0 && v == CompactValue(b)
  {
    hide Be32, Be64;
  }

  lemma {:induction false} CompactTwo(b: seq<byte>, v: int)
    requires |b| == 2 && CompactTag(b[0])
    ensures IntegerBytes(b, v) <==> Extra(b[0]) == 1 && v == CompactValue(b)
  {
    hide Be32, Be64;
    var tag: int := b[0];
    OneBehind(v, tag - Zero(b[0]), b[1]);
    assert forall zero: byte :: InTagAndByte(b, zero, v) <==> tag == zero + v / 0x100 && b[1] == v % 0x100;
    hide InTagAndByte, InTag, InTagAndTwo;
  }

  lemma {:induction false} CompactThree(b: seq<byte>, v: int)
    requires |b| == 3 && CompactTag(b[0])
    ensures IntegerBytes(b, v) <==> Extra(b[0]) == 2 && v == CompactValue(b)
  {
    hide Be32, Be64;
    var tag: int := b[0];
    TwoBehind(v, tag - Zero(b[0]), b[1], b[2]);
    assert forall zero: byte :: InTagAndTwo(b, zero, v)
             <==> tag == zero + v / 0x1_0000 && b[1] == v / 0x100 % 0x100 && b[2] == v % 0x100;
    hide InTagAndByte, InTag, InTagAndTwo;
  }

  lemma {:induction false} CompactLong(b: seq<byte>, v: int)
    requires |b| > 3 && CompactTag(b[0])
    ensures !IntegerBytes(b, v)
  {
    hide Be32, Be64;
  }

  /** What the reader makes of a tag. */
  lemma {:induction false} FormsRead(inp: Input, s: DState, tag: byte)
    requires Valid(inp, s) && IntegerTag(tag)
    ensures ReadIntegerForm(inp, s, tag)
         == Some(if CompactTag(tag) then ReadCompact(inp, s, tag - Zero(tag), Extra(tag))
                 else if tag == 'L' as int then ReadInt64(inp, s) else ReadInt32(inp, s))
  {
    hide Valid, ReadCompact, ReadInt32, ReadInt64;
  }

  lemma {:induction false} CompactRead(inp: Input, s: DState)
    requires Valid(inp, s) && s.offset < |inp.data| && CompactTag(inp.data[s.offset]) && Valid(inp, Tagged(s))
    ensures var tag := inp.data[s.offset];
            var r := ReadCompact(inp, Tagged(s), tag - Zero(tag), Extra(tag));
            && (r.Ok? <==> s.offset + 1 + Extra(tag) <= |inp.data|)
            && (r.Ok? ==> r == R.Ok(CompactValue(inp.data[s.offset..s.offset + 1 + Extra(tag)]), s.(offset := s.offset + 1 + Extra(tag))))
  {
    hide Valid, Safe, ReadByte, ReadUint16, Zero, Extra;
    OneRead(inp, Tagged(s));
    TwoRead(inp, Tagged(s));
    ExtraSmall(inp.data[s.offset]);
  }

  lemma {:induction false} ExtraSmall(tag: byte)
    requires CompactTag(tag)
    ensures Extra(tag) <= 2 && -0x100 <= tag - Zero(tag) < 0x100
  {
  }

  /** A form that is there is read as its value. */
  lemma {:induction false} FormRead(inp: Input, s: DState, b: seq<byte>, v: int)
    requires Valid(inp, s) && b != [] && IntegerBytes(b, v) && At(inp, s.offset, b)
    ensures s.offset < |inp.data| && IntegerTag(inp.data[s.offset]) && Valid(inp, Tagged(s))
    ensures Reads(ReadIntegerForm(inp, Tagged(s), inp.data[s.offset]), s, v, |b|)
  {
    hide Valid, ReadCompact, ReadInt32, ReadInt64, ReadIntegerForm, Safe, Be32, Be64, IntegerBytes, CompactTag, IntegerTag, At;
    AtTag(inp, s, b);
    FormTag(b, v);
    var tag, s1 := inp.data[s.offset], Tagged(s);
    FormsRead(inp, s1, tag);
    if CompactTag(tag) {
      CompactForms(b, v);
      CompactRead(inp, s);
      AtIs(inp, s.offset, b);
    } else if tag == 'L' as int {
      Int64Exactly(inp, s1, v);
    } else {
      Int32Exactly(inp, s1, v);
    }
  }

  lemma {:induction false} AtIs(inp: Input, o: nat, b: seq<byte>)
    requires At(inp, o, b)
    ensures o + |b| <= |inp.data| && inp.data[o..o + |b|] == b
  {
  }

  lemma {:induction false} FormTag(b: seq<byte>, v: int)
    requires b != [] && IntegerBytes(b, v)
    ensures IntegerTag(b[0]) && (CompactTag(b[0]) || b[0] == 'L' as int || b[0] == 'I' as int || b[0] == 0x77) && -TWO_63 <= v < TWO_63
    ensures b[0] == 'L' as int ==> b[1..] == Be64(v) && |b| == 9
    ensures b[0] == 'I' as int || b[0] == 0x77 ==> -TWO_31 <= v < TWO_31 && b[1..] == Be32(v) && |b| == 5
  {
    hide Be32, Be64;
  }

  lemma {:induction false} IntegerTags(tag: byte)
    requires IntegerTag(tag)
    ensures CompactTag(tag) || tag == 'L' as int || tag == 'I' as int || tag == 0x77
  {
  }

  /** A value that was read was there in one of its forms. */
  lemma {:induction false} FormCameFrom(inp: Input, s: DState) returns (b: seq<byte>)
    requires Valid(inp, s) && s.offset < |inp.data| && Valid(inp, Tagged(s))
    requires IntegerTag(inp.data[s.offset])
    ensures b != [] && ReadIntegerForm(inp, Tagged(s), inp.data[s.offset]).Some?
    ensures var r := ReadIntegerForm(inp, Tagged(s), inp.data[s.offset]).value;
            r.Ok? ==> IntegerBytes(b, r.v) && At(inp, s.offset, b) && r.st == s.(offset := s.offset + |b|)
  {
    hide Valid, ReadCompact, ReadInt32, ReadInt64, ReadIntegerForm, Safe, Be32, Be64, IntegerBytes, CompactTag, IntegerTag;
    var tag, s1 := inp.data[s.offset], Tagged(s);
    IntegerTags(tag);
    FormsRead(inp, s1, tag);
    var r := ReadIntegerForm(inp, s1, tag).value;
    b := [tag];
    if r.Ok? {
      if CompactTag(tag) {
        CompactRead(inp, s);
        b := inp.data[s.offset..s.offset + 1 + Extra(tag)];
        CompactForms(b, r.v);
      } else if tag == 'L' as int {
        Int64Exactly(inp, s1, r.v);
        b := ['L' as int] + Be64(r.v);
        LongForms(tag, r.v);
        AtOne(inp, s.offset);
        AtJoined(inp, s.offset, ['L' as int], Be64(r.v));
      } else {
        Int32Exactly(inp, s1, r.v);
        b := [tag] + Be32(r.v);
        LongForms(tag, r.v);
        AtOne(inp, s.offset);
        AtJoined(inp, s.offset, [tag], Be32(r.v));
      }
    }
  }

  lemma {:induction false} LongForms(tag: byte, v: int)
    requires -TWO_63 <= v < TWO_63
    ensures IntegerBytes(['L' as int] + Be64(v), v)
    ensures (tag == 'I' as int || tag == 0x77) && -TWO_31 <= v < TWO_31 ==> IntegerBytes([tag] + Be32(v), v)
  {
    hide Be32, Be64;
  }

  // ------------------------------------------------------------------
  // Doubles

  /** The bytes are one of the forms of the double d. */
  predicate DoubleBytes(b: seq<byte>, d: Double) {
    match d
    case Whole(n) =>
      || (n == 0 && b == [0x67])
      || (n == 1 && b == [0x68])
      || (-128 <= n <= 127 && b == [0x69, n % 256])
      || (-32768 <= n <= 32767 && b == [0x6a] + Be16(n))
    case Single(bits) => bits < TWO_32 && b == [0x6b] + Be32(bits)
    case Bits(bits) => b == ['D' as int] + Be64(bits)
  }

  predicate DoubleTag(tag: byte) {
    0x67 <= tag <= 0x6b || tag == 'D' as int
  }

  lemma {:induction false} SignedByte(x: byte, n: int)
    ensures -128 <= n <= 127 && n % 256 == x <==> n == Signed(x, 0x80)
  {
  }

  lemma {:induction false} SignedTwo(x: byte, y: byte, n: int)
    ensures -32768 <= n <= 32767 && Be16(n) == [x, y] <==> n == Signed(FromBe16(x, y), 0x8000)
  {
    var h := n / 0x100;
    SignedByte(x, h);
    OneBehind(n, h, y);
    SignedHigh(x, y);
    assert Be16(n) == [h % 256, n % 256];
    OneBehind(n, Signed(x, 0x80), y);
    hide Be16, Signed;
    if -32768 <= n <= 32767 {
      assert -128 <= h <= 127;
    }
  }

  lemma {:induction false} SignedHigh(x: byte, y: byte)
    ensures Signed(FromBe16(x, y), 0x8000) == Signed(x, 0x80) * 0x100 + y
    ensures -128 <= Signed(x, 0x80) <= 127 && -32768 <= Signed(FromBe16(x, y), 0x8000) <= 32767
  {
  }

  lemma {:induction false} Low32(n: int, b: seq<byte>)
    requires |b| == 4 && n == Wrap32(FromBe32(b))
    ensures n % TWO_32 == FromBe32(b) && Be32(n % TWO_32) == b
  {
    Be32Top(FromBe32(b), FromBe32(b), b);
  }

  lemma {:induction false} Low64(n: int, b: seq<byte>)
    requires |b| == 8 && n == Wrap64(FromBe64(b))
    ensures n % TWO_64 == FromBe64(b) && Be64(n % TWO_64) == b
  {
    hide Wrap64, FromBe64, Be64;
    Be64Unsigned(b);
    WrappedBack(FromBe64(b));
  }

  lemma {:induction false} WrappedBack(u: nat)
    requires u < TWO_64
    ensures Wrap64(u) % TWO_64 == u
  {
    assert Wrap64(u) == u || Wrap64(u) == u - TWO_64;
  }

  function DoubleExtra(tag: byte): nat
    requires DoubleTag(tag)
  {
    if tag <= 0x44 then 8 else if tag <= 0x68 then 0 else if tag == 0x69 then 1 else if tag == 0x6a then 2 else 4
  }

  function DoubleValue(b: seq<byte>): Double
    requires b != [] && DoubleTag(b[0]) && |b| == 1 + DoubleExtra(b[0])
  {
    if b[0] == 0x67 then Whole(0)
    else if b[0] == 0x68 then Whole(1)
    else if b[0] == 0x69 then Whole(Signed(b[1], 0x80))
    else if b[0] == 0x6a then Whole(Signed(FromBe16(b[1], b[2]), 0x8000))
    else if b[0] == 0x6b then Single(FromBe32(b[1..]))
    else Bits(FromBe64(b[1..]))
  }

  /** A form of a double says one double, and each double that has the form has it so. */
  lemma {:induction false} DoubleForms(b: seq<byte>, d: Double)
    requires b != [] && DoubleTag(b[0])
    ensures DoubleBytes(b, d) <==> |b| == 1 + DoubleExtra(b[0]) && d == DoubleValue(b)
  {
    hide FromBe32, FromBe64, Be32, Be64, Be16, Signed, FromBe16;
    assert b == [b[0]] + b[1..];
    match d
    case Whole(n) =>
      if |b| == 2 { SignedByte(b[1], n); }
      if |b| == 3 {
        SignedTwo(b[1], b[2], n);
        assert b[1..] == [b[1], b[2]];
        assert b == [0x6a] + Be16(n) <==> b[0] == 0x6a && b[1..] == Be16(n);
      }
    case Single(bits) =>
      assert b == [0x6b] + Be32(bits) <==> b[0] == 0x6b && b[1..] == Be32(bits);
      if |b| == 5 { FourBack(bits, b[1..]); }
    case Bits(bits) =>
      assert b == ['D' as int] + Be64(bits) <==> b[0] == 'D' as int && b[1..] == Be64(bits);
      if |b| == 9 { EightBack(bits, b[1..]); }
  }

  lemma {:induction false} FourBack(n: nat, b: seq<byte>)
    requires |b| == 4
    ensures n < TWO_32 && b == Be32(n) <==> n == FromBe32(b)
  {
    hide FromBe32, Be32;
    if n < TWO_32 { SignedBe32(n); }
    Be32Top(FromBe32(b), FromBe32(b), b);
  }

  lemma {:induction false} EightBack(n: uint64, b: seq<byte>)
    requires |b| == 8
    ensures b == Be64(n) <==> n == FromBe64(b)
  {
    hide FromBe64, Be64;
    SignedBe64(n);
    Be64Unsigned(b);
  }

  /** What the reader makes of the tags of doubles. */
  lemma {:induction false} DoubleRead(inp: Input, s: DState)
    requires Valid(inp, s) && s.offset < |inp.data| && DoubleTag(inp.data[s.offset]) && Valid(inp, Tagged(s))
    ensures var tag := inp.data[s.offset];
            var r := ReadNumber(inp, Tagged(s), tag);
            && (r.Ok? <==> s.offset + 1 + DoubleExtra(tag) <= |inp.data|)
            && (r.Ok? ==> r == R.Ok(GDouble(DoubleValue(inp.data[s.offset..s.offset + 1 + DoubleExtra(tag)])), s.(offset := s.offset + 1 + DoubleExtra(tag))))
  {
    hide Valid, Safe, ReadByte, ReadUint16, ReadInt32, ReadInt64, ReadCompact, Signed, FromBe16, FromBe32, FromBe64, Wrap32, Wrap64;
    var tag, s1 := inp.data[s.offset], Tagged(s);
    OneRead(inp, s1);
    TwoRead(inp, s1);
    if tag == 0x6b {
      FourRead(inp, s1);
    } else if tag == 'D' as int {
      EightRead(inp, s1);
    }
  }

  lemma {:induction false} FourRead(inp: Input, s: DState)
    requires Valid(inp, s)
    ensures var r := ReadInt32(inp, s);
            && (r.Ok? <==> s.offset + 4 <= |inp.data|)
            && (r.Ok? ==> r.v % TWO_32 == FromBe32(inp.data[s.offset..s.offset + 4]) && r.st == s.(offset := s.offset + 4))
  {
    hide Valid, FromBe32, Be32;
    if s.offset + 4 <= |inp.data| {
      Low32(ReadInt32(inp, s).v, inp.data[s.offset..s.offset + 4]);
    }
  }

  lemma {:induction false} EightRead(inp: Input, s: DState)
    requires Valid(inp, s)
    ensures var r := ReadInt64(inp, s);
            && (r.Ok? <==> s.offset + 8 <= |inp.data|)
            && (r.Ok? ==> r.v % TWO_64 == FromBe64(inp.data[s.offset..s.offset + 8]) && r.st == s.(offset := s.offset + 8))
  {
    hide Valid, FromBe64, Be64;
    if s.offset + 8 <= |inp.data| {
      Low64(ReadInt64(inp, s).v, inp.data[s.offset..s.offset + 8]);
    }
  }

  // ------------------------------------------------------------------
  // Values

  /** The bytes are one of the forms of a nil, truth value, integer or double. */
  predicate LeafBytes(b: seq<byte>, g: GoVal) {
    match g
    case GNil => b == ['N' as int]
    case GBool(t) => b == [if t then 'T' as int else 'F' as int]
    case GInt(v) => IntegerBytes(b, v) || b == ['d' as int] + Be64(v)
    case GDouble(d) => DoubleBytes(b, d)
    case _ => false
  }

  predicate IsLeaf(g: GoVal) {
    g.GNil? || g.GBool? || g.GInt? || g.GDouble?
  }

  predicate LeafTag(tag: byte) {
    tag == 'N' as int || tag == 'T' as int || tag == 'F' as int || tag == 'd' as int || IntegerTag(tag) || DoubleTag(tag)
  }

  /** What the reader makes of these tags. */
  lemma {:induction false} TagRead(inp: Input, s: DState, tag: byte)
    requires Valid(inp, s) && LeafTag(tag)
    ensures var r := ReadTagged(inp, s, tag);
            if tag == 'N' as int then r == R.Ok(GNil, s)
            else if tag == 'T' as int then r == R.Ok(GBool(true), s)
            else if tag == 'F' as int then r == R.Ok(GBool(false), s)
            else if tag == 'd' as int then
              if ReadInt64(inp, s).Ok? then r == R.Ok(GInt(ReadInt64(inp, s).v), ReadInt64(inp, s).st) else r.Fail?
            else if DoubleTag(tag) then r == ReadNumber(inp, s, tag)
            else
              && ReadIntegerForm(inp, s, tag).Some?
              && var n := ReadIntegerForm(inp, s, tag).value;
                 if n.Ok? then r == R.Ok(GInt(n.v), n.st) else r.Fail?
  {
    hide Valid, Safe, ReadList, ReadFixedTypedList, ReadMap, ReadObjectDefinition, ReadObjectInstance, ReadValue;
    hide ReadStringWithTag, ReadBlob, ReadInt32, ReadInt64, ReadUint16, ReadByte, ReadCompact, ReadRef;
  }

  /** A form that is there is read as its value, with nothing before or behind it. */
  lemma {:induction false} LeafRead(inp: Input, s: DState, b: seq<byte>, g: GoVal)
    requires Valid(inp, s) && s.depth < inp.limits.maxDepth && LeafBytes(b, g) && At(inp, s.offset, b)
    ensures ReadValue(inp, s) == R.Ok(g, s.(offset := s.offset + |b|))
  {
    hide Valid, Safe, At, ReadTagged, ReadValue, ReadIntegerForm, ReadNumber, ReadInt64, IntegerBytes, DoubleBytes, IntegerTag, DoubleTag, Be64;
    LeafStarts(b, g);
    DeeperValid(inp, s);
    var s' := s.(depth := s.depth + 1);
    AtTag(inp, s', b);
    Enter(inp, s);
    LeafTags(b[0]);
    TagRead(inp, Tagged(s'), b[0]);
    match g
    case GInt(v) =>
      if b[0] == 'd' as int {
        Int64Exactly(inp, Tagged(s'), v);
      } else {
        FormRead(inp, s', b, v);
      }
    case GDouble(d) =>
      DoubleForms(b, d);
      DoubleRead(inp, s');
      AtIs(inp, s'.offset, b);
    case _ =>
  }

  lemma {:induction false} DeeperValid(inp: Input, s: DState)
    requires Valid(inp, s) && s.depth < inp.limits.maxDepth
    ensures Valid(inp, s.(depth := s.depth + 1))
  {
    hide ValidHeap;
  }

  lemma {:induction false} LeafTags(tag: byte)
    requires LeafTag(tag)
    ensures (tag == 'N' as int || tag == 'T' as int || tag == 'F' as int || tag == 'd' as int) ==> !IntegerTag(tag) && !DoubleTag(tag)
    ensures IntegerTag(tag) ==> !DoubleTag(tag)
  {
  }

  lemma {:induction false} LeafStarts(b: seq<byte>, g: GoVal)
    requires LeafBytes(b, g)
    ensures b != [] && LeafTag(b[0])
    ensures match g
            case GNil => b == ['N' as int]
            case GBool(t) => b == [if t then 'T' as int else 'F' as int]
            case GInt(v) => if b[0] == 'd' as int then |b| == 9 && b[1..] == Be64(v) else IntegerTag(b[0]) && IntegerBytes(b, v)
            case _ => DoubleTag(b[0])
  {
    hide Be64, Be32, Be16;
  }

  /** Where a leaf was read, and no class definition came first, one of its forms is there. */
  lemma {:induction false} LeafCameFrom(inp: Input, s: DState) returns (b: seq<byte>)
    requires Valid(inp, s) && ReadValue(inp, s).Ok? && IsLeaf(ReadValue(inp, s).v)
    requires s.offset < |inp.data| ==> inp.data[s.offset] != 'O' as int
    ensures var r := ReadValue(inp, s); LeafBytes(b, r.v) && At(inp, s.offset, b)
  {
    hide Valid, Safe, At, ReadTagged, ReadValue, ReadIntegerForm, ReadNumber, ReadInt64, IntegerBytes, DoubleBytes, IntegerTag, DoubleTag, Be64;
    Entered(inp, s);
    DeeperValid(inp, s);
    var s' := s.(depth := s.depth + 1);
    var s1, tag := Tagged(s'), inp.data[s.offset];
    if !LeafTag(tag) {
      OtherTag(inp, s1, tag);
    }
    TagRead(inp, s1, tag);
    LeafTags(tag);
    AtOne(inp, s.offset);
    b := [tag];
    if IntegerTag(tag) {
      b := FormCameFrom(inp, s');
    } else if DoubleTag(tag) {
      DoubleRead(inp, s');
      b := inp.data[s.offset..s.offset + 1 + DoubleExtra(tag)];
      DoubleForms(b, ReadValue(inp, s).v.d);
      IsAt(inp, s.offset, 1 + DoubleExtra(tag));
    } else if tag == 'd' as int {
      Int64Exactly(inp, s1, ReadInt64(inp, s1).v);
      b := ['d' as int] + Be64(ReadInt64(inp, s1).v);
      AtJoined(inp, s.offset, ['d' as int], Be64(ReadInt64(inp, s1).v));
    }
  }

  lemma {:induction false} IsAt(inp: Input, o: nat, n: nat)
    requires o + n <= |inp.data|
    ensures At(inp, o, inp.data[o..o + n])
  {
  }

  lemma {:induction false} Entered(inp: Input, s: DState)
    requires Valid(inp, s) && ReadValue(inp, s).Ok?
    ensures s.depth < inp.limits.maxDepth && s.offset < |inp.data| && Valid(inp, Tagged(s.(depth := s.depth + 1)))
    ensures var r := ReadTagged(inp, Tagged(s.(depth := s.depth + 1)), inp.data[s.offset]);
            r.Ok? && ReadValue(inp, s).v == r.v
  {
    hide ReadTagged, ValidHeap;
  }

  /** All other tags bring texts, byte strings and containers. */
  lemma {:induction false} OtherTag(inp: Input, s: DState, tag: byte)
    requires Valid(inp, s) && !LeafTag(tag) && tag != 'O' as int && ReadTagged(inp, s, tag).Ok?
    ensures !IsLeaf(ReadTagged(inp, s, tag).v)
  {
    hide Safe, ReadStringWithTag, ReadBlob, ReadInt32, ReadInt64, ReadUint16, ReadByte, ReadCompact, ReadRef, ValidHeap;
    hide ReadList, ReadFixedTypedList, ReadMap, ReadObjectInstance, ReadValue, ReadObjectDefinition;
    if tag == 'V' as int || tag == 'v' as int {
      ListsAre(inp, s);
    } else if tag == 'M' as int {
      MapsAre(inp, s);
    } else if tag == 'o' as int {
      ObjectsAre(inp, s);
    } else if tag == 'R' as int || tag == 0x4a || tag == 0x4b {
      ReferencesAre(inp, s, tag);
    }
  }

  lemma {:induction false} ReferencesAre(inp: Input, s: DState, tag: byte)
    requires Valid(inp, s) && (tag == 'R' as int || tag == 0x4a || tag == 0x4b) && ReadTagged(inp, s, tag).Ok?
    ensures IsContainer(ReadTagged(inp, s, tag).v)
  {
    hide ReadInt32, ReadUint16, ReadByte, ReadTagged, ValidHeap;
    ReferenceTag(inp, s, tag);
  }

  lemma {:induction false} ListsAre(inp: Input, s: DState)
    requires Valid(inp, s)
    ensures ReadList(inp, s).Ok? ==> IsContainer(ReadList(inp, s).v)
    ensures ReadFixedTypedList(inp, s).Ok? ==> IsContainer(ReadFixedTypedList(inp, s).v)
  {
    hide ReadType, ReadLength, ReadListBody, ReadIntValue, ReadItems, Valid, Grew;
  }

  lemma {:induction false} MapsAre(inp: Input, s: DState)
    requires Valid(inp, s) && ReadMap(inp, s).Ok?
    ensures IsContainer(ReadMap(inp, s).v)
  {
    hide ReadMap, ReadType, Valid;
    MapNumberedFirst(inp, s);
    assert Valid(inp, ReadMap(inp, s).st);
    RefsAre(inp, ReadMap(inp, s).st, |ReadType(inp, s).st.refs|);
  }

  lemma {:induction false} RefsAre(inp: Input, s: DState, i: nat)
    requires Valid(inp, s) && i < |s.refs|
    ensures IsContainer(s.refs[i])
  {
    hide ValidHeap;
  }

  lemma {:induction false} ObjectsAre(inp: Input, s: DState)
    requires Valid(inp, s) && ReadObjectInstance(inp, s).Ok?
    ensures IsContainer(ReadObjectInstance(inp, s).v)
  {
    hide ReadObjectInstance;
    ObjectNumberedFirst(inp, s);
  }

  /** A value that brings no class definition is the leaf g exactly where one of the forms
      of g stands. */
  lemma {:induction false} LeafExactly(inp: Input, s: DState, g: GoVal)
    requires Valid(inp, s) && s.depth < inp.limits.maxDepth && IsLeaf(g)
    requires s.offset < |inp.data| ==> inp.data[s.offset] != 'O' as int
    ensures ReadValue(inp, s).Ok? && ReadValue(inp, s).v == g <==> exists b :: LeafBytes(b, g) && At(inp, s.offset, b)
  {
    hide Valid, At, ReadValue, LeafBytes;
    if ReadValue(inp, s).Ok? && ReadValue(inp, s).v == g {
      var b := LeafCameFrom(inp, s);
    }
    if b :| LeafBytes(b, g) && At(inp, s.offset, b) {
      LeafRead(inp, s, b, g);
    }
  }

  // ------------------------------------------------------------------
  // References

  /** The bytes are one of the forms of a reference to number n. */
  predicate ReferenceBytes(b: seq<byte>, n: int) {
    || (-TWO_31 <= n < TWO_31 && b == ['R' as int] + Be32(n))
    || (0 <= n < 0x100 && b == [0x4a, n])
    || (0 <= n < TWO_16 && b == [0x4b] + Be16(n))
  }

  /** A reference is read as the very value that has the number, and fails if none has. */
  lemma {:induction false} ReferenceRead(inp: Input, s: DState, b: seq<byte>, n: int)
    requires Valid(inp, s) && s.depth < inp.limits.maxDepth && ReferenceBytes(b, n) && At(inp, s.offset, b)
    ensures if 0 <= n < |s.refs| then ReadValue(inp, s) == R.Ok(s.refs[n], s.(offset := s.offset + |b|)) else ReadValue(inp, s).Fail?
  {
    hide Valid, Safe, At, ReadTagged, ReadValue, ReadInt32, ReadUint16, ReadByte, Be32, Be16;
    assert b != [] && b == [b[0]] + b[1..];
    DeeperValid(inp, s);
    var s' := s.(depth := s.depth + 1);
    AtTag(inp, s', b);
    ReadsTagged(inp, s);
    var s1 := Tagged(s');
    ReferenceTag(inp, s1, b[0]);
    if b[0] == 'R' as int {
      assert b[1..] == Be32(n);
      Int32Exactly(inp, s1, n);
    } else if b[0] == 0x4a {
      assert inp.data[s.offset + 1] == b[1] == n;
      OneRead(inp, s1);
    } else {
      assert b[1..] == Be16(n);
      Uint16Exactly(inp, s1, n);
    }
  }

  lemma {:induction false} ReadsTagged(inp: Input, s: DState)
    requires Valid(inp, s) && s.depth < inp.limits.maxDepth && s.offset < |inp.data| && Valid(inp, Tagged(s.(depth := s.depth + 1)))
    ensures var r := ReadTagged(inp, Tagged(s.(depth := s.depth + 1)), inp.data[s.offset]);
            && (r.Ok? ==> r.st.depth > 0 && ReadValue(inp, s) == R.Ok(r.v, Leave(r.st)))
            && (r.Fail? ==> ReadValue(inp, s).Fail?)
  {
    hide ReadTagged, ValidHeap;
  }

  lemma {:induction false} ReferenceTag(inp: Input, s: DState, tag: byte)
    requires Valid(inp, s) && (tag == 'R' as int || tag == 0x4a || tag == 0x4b)
    ensures var n: R<int> := if tag == 'R' as int then ReadInt32(inp, s) else if tag == 0x4a then ReadByte(inp, s) else ReadUint16(inp, s);
            var r := ReadTagged(inp, s, tag);
            && (n.Ok? ==> r == if 0 <= n.v < |n.st.refs| then R.Ok(n.st.refs[n.v], n.st) else R.Fail(n.st))
            && (!n.Ok? ==> r.Fail?)
  {
    hide Safe, ReadStringWithTag, ReadBlob, ReadInt32, ReadInt64, ReadUint16, ReadByte, ReadCompact, Valid;
    hide ReadList, ReadFixedTypedList, ReadMap, ReadObjectInstance, ReadValue, ReadObjectDefinition;
  }

  // ------------------------------------------------------------------
  // Scalars where a text is due

  predicate Digit(c: byte) {
    '0' as int <= c <= '9' as int
  }

  /** The number a row of digits stands for. */
  function Number(s: GoString): nat
    requires forall i | 0 <= i < |s| :: Digit(s[i])
  {
    if s == [] then 0 else assert Digit(s[|s| - 1]); 10 * Number(s[..|s| - 1]) + (s[|s| - 1] - '0' as int)
  }

  /** A natural number is written in decimal digits, without zeros in front. */
  lemma {:induction false} DigitsSay(n: nat)
    ensures var s := Digits(n);
            && s != [] && (forall i | 0 <= i < |s| :: Digit(s[i])) && Number(s) == n
            && (s[0] == '0' as int ==> n == 0 && |s| == 1)
    decreases n
  {
    if n >= 10 {
      DigitsSay(n / 10);
      var s, front := Digits(n), Digits(n / 10);
      assert s == front + ['0' as int + n % 10] && s[..|s| - 1] == front;
    } else {
      assert Digits(n) == ['0' as int + n] && Digits(n)[..0] == [];
    }
  }

  /** An integer: so, with a minus in front where it is negative. */
  lemma {:induction false} DecimalSays(n: int)
    ensures n >= 0 ==> Decimal(n) == Digits(n)
    ensures n < 0 ==> Decimal(n) == ['-' as int] + Digits(-n)
  {
  }

  /** A text may be written as an integer in any form, a truth value or nil. */
  lemma {:induction false} TextOfInteger(inp: Input, s: DState, b: seq<byte>, v: int)
    requires Valid(inp, s) && b != [] && IntegerBytes(b, v) && At(inp, s.offset, b)
    ensures s.offset < |inp.data| && Valid(inp, Tagged(s))
    ensures ReadStringWithTag(inp, Tagged(s), inp.data[s.offset]) == R.Ok(Decimal(v), s.(offset := s.offset + |b|))
  {
    hide Valid, Safe, ReadIntegerForm, ReadChunks, IntegerBytes, At, IntegerTag, Decimal;
    FormRead(inp, s, b, v);
    IntegerTagsPlain(inp.data[s.offset]);
  }

  lemma {:induction false} IntegerTagsPlain(tag: byte)
    requires IntegerTag(tag)
    ensures tag != 'N' as int && tag != 'T' as int && tag != 'F' as int && !IsStringTag(tag)
  {
  }

  lemma {:induction false} TextOfOthers(inp: Input, s: DState, tag: byte)
    requires Valid(inp, s) && !IntegerTag(tag)
    ensures var r := ReadStringWithTag(inp, s, tag);
            if tag == 'N' as int then r == R.Ok([], s)
            else if tag == 'T' as int then r == R.Ok(Ascii("true"), s)
            else if tag == 'F' as int then r == R.Ok(Ascii("false"), s)
            else if tag <= 0x1f || tag == 'S' as int || tag == 's' as int then r == ReadChunks(inp, s, tag, [])
            else r == R.Fail(s)
  {
    hide Valid, ReadChunks, ReadCompact, ReadInt32, ReadInt64;
  }

  /** The tags that begin no value. */
  predicate UnknownTag(tag: byte) {
    && !LeafTag(tag) && !(tag <= 0x2f) && tag != 'S' as int && tag != 's' as int && tag != 'B' as int && tag != 'b' as int
    && tag != 'V' as int && tag != 'v' as int && tag != 'M' as int && tag != 'O' as int && tag != 'o' as int
    && tag != 'R' as int && tag != 0x4a && tag != 0x4b
  }

  lemma {:induction false} UnknownRefused(inp: Input, s: DState)
    requires Valid(inp, s) && s.offset < |inp.data| && UnknownTag(inp.data[s.offset])
    ensures ReadValue(inp, s).Fail?
  {
    hide Safe, ReadStringWithTag, ReadBlob, ReadInt32, ReadInt64, ReadUint16, ReadCompact, ReadRef, ValidHeap;
    hide ReadList, ReadFixedTypedList, ReadMap, ReadObjectInstance, ReadObjectDefinition;
  }
}
